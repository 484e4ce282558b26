/** What the two programs' windows share: the mode chosen at start and how the dialog-driven actions end. */
module Ui {

  import opened Batch

  /** `current_mode`: not chosen yet, one file (`True`) or several files (`False`). */
  datatype Mode = Undecided | OneFile | ManyFiles

  /** How choosing the save directory ends. */
  datatype DirChoice = Cancelled | NotWritable | Chosen

  /** How converting one file ends. */
  datatype OneFileReport =
    | NoSaveDir            // the save directory is required and not chosen
    | NoFileChosen         // the file dialog was cancelled
    | Finished(outcome: FileOutcome)
}
