/**
 * The batch step of `encode_dir`, common to both programs: the files of the source directory
 * that pass the extension filter are selected in listing order, then each is read, encoded and
 * written; a file that fails is reported and the loop goes on, and the successes are counted.
 */
module Batch {

  import opened Wrappers
  import opened Octets
  import opened Text
  import opened WinPath
  import opened Naming
  import opened Base64

  /** The extension filter: an empty filter takes every name, otherwise the name must end in `"." + extension`. */
  predicate Matches(name: string, extension: string) {
    extension == "" || EndsWith(name, "." + extension)
  }

  /** An entry of the listing of `dir` is converted when it is a regular file and passes the filter. */
  predicate IsSelected(dir: string, name: string, isFile: string -> bool, extension: string) {
    isFile(JoinPath(dir, name)) && Matches(name, extension)
  }

  /** The selected entries, in listing order. */
  function Selection(dir: string, listing: seq<string>, isFile: string -> bool, extension: string): seq<string>
    decreases |listing|
  {
    if listing == [] then []
    else
      var earlier := Selection(dir, listing[..|listing| - 1], isFile, extension);
      var name := listing[|listing| - 1];
      if IsSelected(dir, name, isFile, extension) then earlier + [name] else earlier
  }

  /** The loop that fills `files_to_process`. */
  method SelectFiles(dir: string, listing: seq<string>, isFile: string -> bool, extension: string) returns (selected: seq<string>)
    ensures selected == Selection(dir, listing, isFile, extension)
  {
    selected := [];
    for i := 0 to |listing|
      invariant selected == Selection(dir, listing[..i], isFile, extension)
    {
      assert listing[..i + 1][..i] == listing[..i];
      var name := listing[i];
      if isFile(JoinPath(dir, name)) && (extension == "" || EndsWith(name, "." + extension)) {
        selected := selected + [name];
      }
    }
    assert listing[..|listing|] == listing;
  }

  /** A name is selected exactly when it is listed, is a file and passes the filter. */
  lemma {:induction false} SelectionMembers(dir: string, listing: seq<string>, isFile: string -> bool, extension: string, name: string)
    ensures name in Selection(dir, listing, isFile, extension) <==> name in listing && IsSelected(dir, name, isFile, extension)
    decreases |listing|
  {
    if listing != [] {
      var init := listing[..|listing| - 1];
      SelectionMembers(dir, init, isFile, extension, name);
      assert listing == init + [listing[|listing| - 1]];
    }
  }

  /** Selection keeps the listing order. */
  lemma {:induction false} SelectionAppend(dir: string, a: seq<string>, b: seq<string>, isFile: string -> bool, extension: string)
    ensures Selection(dir, a + b, isFile, extension) == Selection(dir, a, isFile, extension) + Selection(dir, b, isFile, extension)
    decreases |b|
  {
    if b == [] {
      assert a + b == a;
    } else {
      var b' := b[..|b| - 1];
      assert (a + b)[..|a + b| - 1] == a + b';
      SelectionAppend(dir, a, b', isFile, extension);
    }
  }

  /** With filter `docx`, `a.txt` is skipped and `b.docx`, `c.docx` are taken in order. */
  lemma SelectionExample(dir: string, isFile: string -> bool)
    requires isFile(JoinPath(dir, "a.txt")) && isFile(JoinPath(dir, "b.docx")) && isFile(JoinPath(dir, "c.docx"))
    ensures Selection(dir, ["a.txt", "b.docx", "c.docx"], isFile, "docx") == ["b.docx", "c.docx"]
  {
    var l := ["a.txt", "b.docx", "c.docx"];
    assert l[..2] == ["a.txt", "b.docx"] && l[..2][..1] == ["a.txt"] && l[..1][..0] == [];
    assert !Matches("a.txt", "docx") by {
      assert "a.txt"[0..] != ".docx";
    }
    assert Matches("b.docx", "docx") by {
      assert "b.docx"[1..] == ".docx";
    }
    assert Matches("c.docx", "docx") by {
      assert "c.docx"[1..] == ".docx";
    }
    assert Selection(dir, l[..1], isFile, "docx") == [];
    assert Selection(dir, l[..2], isFile, "docx") == ["b.docx"];
  }

  /** An empty filter takes every regular file, and skips what is not one. */
  lemma EmptyFilterExample(dir: string, isFile: string -> bool)
    requires isFile(JoinPath(dir, "a.txt")) && !isFile(JoinPath(dir, "sub")) && isFile(JoinPath(dir, "c.docx"))
    ensures Selection(dir, ["a.txt", "sub", "c.docx"], isFile, "") == ["a.txt", "c.docx"]
  {
    var l := ["a.txt", "sub", "c.docx"];
    assert l[..2] == ["a.txt", "sub"] && l[..2][..1] == ["a.txt"] && l[..1][..0] == [];
    assert Selection(dir, l[..1], isFile, "") == ["a.txt"];
    assert Selection(dir, l[..2], isFile, "") == ["a.txt"];
  }

  // ---------------------------------------------------------------- converting

  datatype Failure = Unreadable | Unwritable

  /** What happened to one file: its Base64 text was written to `output`, or it failed. */
  datatype FileOutcome = Converted(output: string, text: string) | Failed(source: string, why: Failure)

  /** Reading `source`, encoding it and writing the text to `output`; `read` and `canWrite` stand for the file system. */
  function ConvertFile(source: string, output: string, read: string -> Option<seq<Byte>>, canWrite: string -> bool): FileOutcome {
    match read(source)
    case None => Failed(source, Unreadable)
    case Some(data) => if canWrite(output) then Converted(output, Encode(data)) else Failed(source, Unwritable)
  }

  /** A file is converted exactly when it can be read and its output written, and the written text decodes to its bytes. */
  lemma ConvertFileOutcome(source: string, output: string, read: string -> Option<seq<Byte>>, canWrite: string -> bool)
    ensures ConvertFile(source, output, read, canWrite).Converted? <==> read(source).Some? && canWrite(output)
    ensures ConvertFile(source, output, read, canWrite).Converted? ==>
      ConvertFile(source, output, read, canWrite).output == output &&
      Decode(ConvertFile(source, output, read, canWrite).text) == read(source)
  {
    if read(source).Some? {
      DecodeEncode(read(source).value);
    }
  }

  /** The number of converted files. */
  function Successes(results: seq<FileOutcome>): nat
    decreases |results|
  {
    if results == [] then 0
    else Successes(results[..|results| - 1]) + if results[|results| - 1].Converted? then 1 else 0
  }

  /** The positions of the converted files. */
  function ConvertedPositions(results: seq<FileOutcome>): set<int> {
    set i | 0 <= i < |results| && results[i].Converted?
  }

  /** The tally counts exactly the converted files, so it is at most the number of files. */
  lemma {:induction false} SuccessesCount(results: seq<FileOutcome>)
    ensures Successes(results) == |ConvertedPositions(results)|
    ensures Successes(results) <= |results|
    decreases |results|
  {
    if results != [] {
      var n := |results| - 1;
      var init := results[..n];
      SuccessesCount(init);
      assert forall i :: 0 <= i < n ==> init[i] == results[i];
      var s := ConvertedPositions(results);
      var t := ConvertedPositions(init);
      if results[n].Converted? {
        assert s == t + {n};
        assert n !in t;
      } else {
        assert s == t;
      }
    }
  }

  /** Every file was converted exactly when the tally equals the number of files. */
  lemma {:induction false} SuccessesAll(results: seq<FileOutcome>)
    ensures Successes(results) == |results| <==> forall i :: 0 <= i < |results| ==> results[i].Converted?
    decreases |results|
  {
    if results != [] {
      var n := |results| - 1;
      var init := results[..n];
      SuccessesAll(init);
      SuccessesCount(init);
      assert forall i :: 0 <= i < n ==> init[i] == results[i];
    }
  }

  /** The output path of a listed file. */
  function OutputPath(saveDir: string, style: Style, name: string): string {
    JoinPath(saveDir, OutputName(style, name))
  }

  /** One conversion of the loop: the file to read and the name of the file to write. */
  datatype Job = Job(source: string, outputName: string)

  /** The jobs of a list of selected names, in order. */
  function Jobs(dir: string, files: seq<string>, style: Style): (r: seq<Job>)
    ensures |r| == |files|
    decreases |files|
  {
    if files == [] then []
    else
      var name := files[|files| - 1];
      Jobs(dir, files[..|files| - 1], style) + [Job(JoinPath(dir, name), OutputName(style, name))]
  }

  /** The outcomes of running the jobs one after the other. */
  function Run(jobs: seq<Job>, saveDir: string, read: string -> Option<seq<Byte>>, canWrite: string -> bool): (r: seq<FileOutcome>)
    ensures |r| == |jobs|
    decreases |jobs|
  {
    if jobs == [] then []
    else
      var job := jobs[|jobs| - 1];
      Run(jobs[..|jobs| - 1], saveDir, read, canWrite) + [ConvertFile(job.source, JoinPath(saveDir, job.outputName), read, canWrite)]
  }

  /** The job at each position reads the listed file and writes the output name made from it. */
  lemma {:induction false} JobsAt(dir: string, files: seq<string>, style: Style, i: int)
    requires 0 <= i < |files|
    ensures Jobs(dir, files, style)[i] == Job(JoinPath(dir, files[i]), OutputName(style, files[i]))
    decreases |files|
  {
    var n := |files| - 1;
    if i < n {
      JobsAt(dir, files[..n], style, i);
      assert files[..n][i] == files[i];
    }
  }

  /** The outcome at each position is the conversion of the job there. */
  lemma {:induction false} RunAt(jobs: seq<Job>, saveDir: string, read: string -> Option<seq<Byte>>, canWrite: string -> bool, i: int)
    requires 0 <= i < |jobs|
    ensures Run(jobs, saveDir, read, canWrite)[i] == ConvertFile(jobs[i].source, JoinPath(saveDir, jobs[i].outputName), read, canWrite)
    decreases |jobs|
  {
    var n := |jobs| - 1;
    if i < n {
      RunAt(jobs[..n], saveDir, read, canWrite, i);
      assert jobs[..n][i] == jobs[i];
    }
  }

  /** The outcomes of the conversion loop over the selected names. */
  function Outcomes(dir: string, files: seq<string>, saveDir: string, style: Style,
                    read: string -> Option<seq<Byte>>, canWrite: string -> bool): seq<FileOutcome> {
    Run(Jobs(dir, files, style), saveDir, read, canWrite)
  }

  /** One outcome per file, at the file's position: a failing file does not shift or stop the others. */
  lemma OutcomesAt(dir: string, files: seq<string>, saveDir: string, style: Style,
                   read: string -> Option<seq<Byte>>, canWrite: string -> bool, i: int)
    requires 0 <= i < |files|
    ensures |Outcomes(dir, files, saveDir, style, read, canWrite)| == |files|
    ensures Outcomes(dir, files, saveDir, style, read, canWrite)[i] ==
      ConvertFile(JoinPath(dir, files[i]), OutputPath(saveDir, style, files[i]), read, canWrite)
  {
    var jobs := Jobs(dir, files, style);
    JobsAt(dir, files, style, i);
    RunAt(jobs, saveDir, read, canWrite, i);
  }

  /** Appending one job appends its outcome. */
  lemma RunSnoc(jobs: seq<Job>, job: Job, saveDir: string, read: string -> Option<seq<Byte>>, canWrite: string -> bool)
    ensures Run(jobs + [job], saveDir, read, canWrite) ==
      Run(jobs, saveDir, read, canWrite) + [ConvertFile(job.source, JoinPath(saveDir, job.outputName), read, canWrite)]
  {
    assert (jobs + [job])[..|jobs|] == jobs;
  }

  /** One more name gives one more job. */
  lemma JobsSnoc(dir: string, files: seq<string>, style: Style, i: int)
    requires 0 <= i < |files|
    ensures Jobs(dir, files[..i + 1], style) == Jobs(dir, files[..i], style) + [Job(JoinPath(dir, files[i]), OutputName(style, files[i]))]
  {
    assert files[..i + 1][..i] == files[..i];
  }

  /** One more name of the loop adds the outcome of converting that file. */
  lemma OutcomesSnoc(dir: string, files: seq<string>, style: Style, saveDir: string,
                     read: string -> Option<seq<Byte>>, canWrite: string -> bool, i: int)
    requires 0 <= i < |files|
    ensures Run(Jobs(dir, files[..i + 1], style), saveDir, read, canWrite) ==
      Run(Jobs(dir, files[..i], style), saveDir, read, canWrite) +
      [ConvertFile(JoinPath(dir, files[i]), JoinPath(saveDir, OutputName(style, files[i])), read, canWrite)]
  {
    JobsSnoc(dir, files, style, i);
    RunSnoc(Jobs(dir, files[..i], style), Job(JoinPath(dir, files[i]), OutputName(style, files[i])), saveDir, read, canWrite);
  }

  /** One more outcome adds one to the tally when it is a conversion. */
  lemma SuccessesSnoc(results: seq<FileOutcome>, outcome: FileOutcome)
    ensures Successes(results + [outcome]) == Successes(results) + if outcome.Converted? then 1 else 0
  {
    assert (results + [outcome])[..|results|] == results;
  }

  /** The body of the loop for one file: read it, encode it, write the text. */
  method ConvertOne(source: string, output: string, read: string -> Option<seq<Byte>>, canWrite: string -> bool)
    returns (outcome: FileOutcome)
    ensures outcome.Converted? <==> read(source).Some? && canWrite(output)
    ensures outcome.Converted? ==> outcome.output == output && Decode(outcome.text) == read(source)
    ensures outcome.Failed? ==> outcome.source == source && (outcome.why == Unreadable <==> read(source).None?)
    ensures outcome == ConvertFile(source, output, read, canWrite)
  {
    match read(source) {
      case None =>
        outcome := Failed(source, Unreadable);
      case Some(fileData) =>
        var text := Encode(fileData);
        DecodeEncode(fileData);
        if canWrite(output) {
          outcome := Converted(output, text);
        } else {
          outcome := Failed(source, Unwritable);
        }
    }
  }

  /** The conversion loop: one outcome per file, a failure does not stop it, `count` is the tally. */
  method ConvertEach(dir: string, files: seq<string>, saveDir: string, style: Style,
                     read: string -> Option<seq<Byte>>, canWrite: string -> bool)
    returns (count: nat, results: seq<FileOutcome>)
    ensures results == Outcomes(dir, files, saveDir, style, read, canWrite)
    ensures |results| == |files|
    ensures count == Successes(results) <= |files|
  {
    count := 0;
    results := [];
    for i := 0 to |files|
      invariant results == Run(Jobs(dir, files[..i], style), saveDir, read, canWrite)
      invariant count == Successes(results)
    {
      var filePath := JoinPath(dir, files[i]);
      var outputPath := JoinPath(saveDir, OutputName(style, files[i]));
      var outcome := ConvertOne(filePath, outputPath, read, canWrite);
      if outcome.Converted? {
        count := count + 1;
      }
      OutcomesSnoc(dir, files, style, saveDir, read, canWrite, i);
      SuccessesSnoc(results, outcome);
      results := results + [outcome];
    }
    assert files[..|files|] == files;
    SuccessesCount(results);
  }

  /** How a batch run ends. */
  datatype BatchReport =
    | NoSaveDir           // the save directory is required and not chosen
    | NoSourceDir         // no source directory chosen
    | NoMatchingFiles     // nothing passed the filter
    | Done(total: nat, count: nat, results: seq<FileOutcome>)

  /** Selection, then conversion when something was selected. */
  method ConvertSelection(dir: string, listing: seq<string>, isFile: string -> bool, extension: string,
                          saveDir: string, style: Style, read: string -> Option<seq<Byte>>, canWrite: string -> bool)
    returns (r: BatchReport)
    ensures var selected := Selection(dir, listing, isFile, extension);
      (r == NoMatchingFiles <==> selected == []) &&
      (r != NoMatchingFiles ==>
        r.Done? && r.total == |selected| && r.count == Successes(r.results) <= r.total &&
        r.results == Outcomes(dir, selected, saveDir, style, read, canWrite))
  {
    var filesToProcess := SelectFiles(dir, listing, isFile, extension);
    if filesToProcess == [] {
      return NoMatchingFiles;
    }
    var count, results := ConvertEach(dir, filesToProcess, saveDir, style, read, canWrite);
    r := Done(|filesToProcess|, count, results);
  }
}
