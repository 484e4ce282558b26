/** Optional values, used wherever the program has a "nothing" case (None, an empty dialog answer, an error). */
module Wrappers {

  datatype Option<+T> = None | Some(value: T)
}
