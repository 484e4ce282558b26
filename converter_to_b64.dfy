/**
 * The session of `ConverterToB64.py`: the save directory (`User_path`), the source directory
 * (`path`), the mode, the last converted file and the enablement of the two buttons that depend
 * on them, with the actions that change them; plus the listing of converted files and the
 * copy-results action, which offers the files as a file drop and falls back to their paths as text.
 */
module ConverterToB64 {

  import opened Wrappers
  import opened Octets
  import opened Text
  import opened WinPath
  import opened Naming
  import opened Base64
  import opened Batch
  import opened DropFiles
  import opened Ui

  /** The directory `get_converted_files` looks in: the first non-empty of its argument, `User_path` and `path`. */
  function TargetDir(saveDir: string, userPath: string, path: string): string {
    if saveDir != "" then saveDir else if userPath != "" then userPath else path
  }

  /** The converted files among `names`, as paths inside `dir`, in listing order. */
  function ConvertedIn(dir: string, names: seq<string>): seq<string>
    decreases |names|
  {
    if names == [] then []
    else
      var earlier := ConvertedIn(dir, names[..|names| - 1]);
      var name := names[|names| - 1];
      if EndsWith(name, SUFFIX) then earlier + [JoinPath(dir, name)] else earlier
  }

  /** `get_converted_files(saveDir)`; `isDir` and `listdir` stand for the file system. */
  function ConvertedFiles(saveDir: string, userPath: string, path: string,
                          isDir: string -> bool, listdir: string -> seq<string>): seq<string>
  {
    var target := TargetDir(saveDir, userPath, path);
    if target == "" || !isDir(target) then [] else ConvertedIn(target, listdir(target))
  }

  lemma {:induction false} ConvertedInMembers(dir: string, names: seq<string>, p: string)
    ensures p in ConvertedIn(dir, names) <==> exists name :: name in names && EndsWith(name, SUFFIX) && p == JoinPath(dir, name)
    decreases |names|
  {
    if names != [] {
      var init := names[..|names| - 1];
      ConvertedInMembers(dir, init, p);
      assert names == init + [names[|names| - 1]];
    }
  }

  /** The listed paths are exactly the entries ending in `.base64.txt` of the target directory, or none when it is not a directory. */
  lemma ConvertedFilesMembers(saveDir: string, userPath: string, path: string,
                              isDir: string -> bool, listdir: string -> seq<string>, p: string)
    ensures var target := TargetDir(saveDir, userPath, path);
      p in ConvertedFiles(saveDir, userPath, path, isDir, listdir) <==>
        target != "" && isDir(target) &&
        exists name :: name in listdir(target) && EndsWith(name, SUFFIX) && p == JoinPath(target, name)
  {
    var target := TargetDir(saveDir, userPath, path);
    if target != "" && isDir(target) {
      ConvertedInMembers(target, listdir(target), p);
    }
  }

  /** A file the program wrote into the target directory is among the converted files once it is listed there. */
  lemma OutputIsListed(saveDir: string, userPath: string, path: string, isDir: string -> bool,
                       listdir: string -> seq<string>, style: Style, source: string)
    requires var target := TargetDir(saveDir, userPath, path);
      target != "" && isDir(target) && OutputName(style, source) in listdir(target)
    ensures JoinPath(TargetDir(saveDir, userPath, path), OutputName(style, source)) in ConvertedFiles(saveDir, userPath, path, isDir, listdir)
  {
    OutputNameSuffix(style, source);
    var target := TargetDir(saveDir, userPath, path);
    ConvertedInMembers(target, listdir(target), JoinPath(target, OutputName(style, source)));
  }

  /** The output path of the one-file conversion: the dated name, in the save directory or else next to the source. */
  function OneFileOutput(userPath: string, file: string, today: string): string {
    JoinPath(SaveDir(userPath, Dirname(file)), OutputName(Dated(today), Basename(file)))
  }

  /** The one-file output path is never empty, so a written conversion always counts as a last converted file. */
  lemma OneFileOutputNonEmpty(userPath: string, file: string, today: string)
    ensures OneFileOutput(userPath, file, today) != ""
  {
    var name := OutputName(Dated(today), Basename(file));
    OutputNameSuffix(Dated(today), Basename(file));
    JoinPathLength(SaveDir(userPath, Dirname(file)), name);
  }

  /**
   * For a file `name` picked in `dir`, the dated output goes into the save directory when one is
   * chosen and otherwise next to the source, under the source's own name.
   */
  lemma OneFileOutputOf(userPath: string, dir: string, name: string, today: string)
    requires IsPlainName(name) && IsDirnameForm(dir)
    ensures OneFileOutput(userPath, JoinPath(dir, name), today) ==
            JoinPath(if userPath != "" then userPath else dir, OutputName(Dated(today), name))
  {
    DirnameJoin(dir, name);
    BasenameJoin(dir, name);
  }

  /** How copying the results ends. */
  datatype CopyReport =
    | ModeUnknown
    | NoLastFile
    | NoConvertedFiles
    | CopiedFiles(files: seq<string>, data: seq<Byte>)
      // offered as a file drop and the clipboard took it
    | CopiedText(files: seq<string>, text: string, dropFailed: bool)
      // the paths as newline-separated text; `dropFailed` when a file drop was tried first
  {
    predicate Copied() {
      CopiedFiles? || CopiedText?
    }
  }

  class Session {
    var userPath: string
    var path: string
    var mode: Mode
    var lastConverted: Option<string>
    /** The state of the convert button; `None` while there is no main window. */
    var convertEnabled: Option<bool>
    /** The state of the copy-text button, which only the one-file window has. */
    var copyTextEnabled: Option<bool>

    /** `last_converted_file` is set (and not empty). */
    predicate HasLastConverted()
      reads this
    {
      lastConverted.Some? && lastConverted.value != ""
    }

    /** The buttons show what `update_button_states` decides for the current state. */
    predicate Valid()
      reads this
    {
      match mode
      case Undecided => convertEnabled.None? && copyTextEnabled.None?
      case OneFile => convertEnabled == Some(true) && copyTextEnabled == Some(HasLastConverted())
      case ManyFiles => convertEnabled == Some(path != "") && copyTextEnabled.None?
    }

    constructor ()
      ensures userPath == "" && path == "" && mode == Undecided && lastConverted == None
      ensures Valid()
    {
      userPath, path, mode, lastConverted := "", "", Undecided, None;
      convertEnabled, copyTextEnabled := None, None;
    }

    /** `update_button_states`: without a mode nothing changes; convert is always enabled for one file, and for several files once a source directory is chosen. */
    method UpdateButtonStates()
      modifies this`convertEnabled, this`copyTextEnabled
      ensures mode == Undecided ==> convertEnabled == old(convertEnabled) && copyTextEnabled == old(copyTextEnabled)
      ensures mode == OneFile ==>
        convertEnabled == Some(true) && copyTextEnabled == (if old(copyTextEnabled).Some? then Some(HasLastConverted()) else None)
      ensures mode == ManyFiles ==> convertEnabled == Some(path != "") && copyTextEnabled == old(copyTextEnabled)
    {
      if mode == Undecided {
        return;
      }
      if mode == OneFile {
        convertEnabled := Some(true);
        if copyTextEnabled.Some? {
          copyTextEnabled := Some(HasLastConverted());
        }
      } else {
        convertEnabled := Some(path != "");
      }
    }

    /** The state part of `create_main_window`: the mode is set, the buttons are created and then updated. */
    method CreateMainWindow(oneFileMode: bool)
      modifies this`mode, this`convertEnabled, this`copyTextEnabled
      ensures mode == if oneFileMode then OneFile else ManyFiles
      ensures Valid()
    {
      mode := if oneFileMode then OneFile else ManyFiles;
      convertEnabled := Some(true);
      copyTextEnabled := if oneFileMode then Some(false) else None;
      UpdateButtonStates();
    }

    /** `start_one_file_window`: the last converted file is forgotten, so copy-text starts disabled. */
    method StartOneFileWindow()
      modifies this`lastConverted, this`mode, this`convertEnabled, this`copyTextEnabled
      ensures mode == OneFile && lastConverted == None
      ensures convertEnabled == Some(true) && copyTextEnabled == Some(false)
      ensures Valid()
    {
      lastConverted := None;
      CreateMainWindow(true);
    }

    /** `start_multiple_files_window`: convert starts enabled only if a source directory is still chosen. */
    method StartMultipleFilesWindow()
      modifies this`lastConverted, this`mode, this`convertEnabled, this`copyTextEnabled
      ensures mode == ManyFiles && lastConverted == None
      ensures convertEnabled == Some(path != "") && copyTextEnabled == None
      ensures Valid()
    {
      lastConverted := None;
      CreateMainWindow(false);
    }

    /** `select_user_dir`: `selected` is what the dialog returns, `writable` stands for `os.access(_, W_OK)`. */
    method SelectUserDir(selected: string, writable: string -> bool) returns (choice: DirChoice)
      requires Valid()
      modifies this`userPath, this`convertEnabled, this`copyTextEnabled
      ensures choice == if selected == "" then Cancelled else if !writable(selected) then NotWritable else Chosen
      ensures userPath == if choice == Chosen then selected else old(userPath)
      ensures convertEnabled == old(convertEnabled) && copyTextEnabled == old(copyTextEnabled)
      ensures Valid()
    {
      if selected == "" {
        return Cancelled;
      }
      if !writable(selected) {
        return NotWritable;
      }
      userPath := selected;
      UpdateButtonStates();
      choice := Chosen;
    }

    /** `open_directory`: a chosen directory becomes the source directory. */
    method OpenDirectory(selected: string)
      requires Valid()
      modifies this`path, this`convertEnabled, this`copyTextEnabled
      ensures path == if selected != "" then selected else old(path)
      ensures mode == ManyFiles ==> convertEnabled == Some(path != "")
      ensures Valid()
    {
      if selected != "" {
        path := selected;
        UpdateButtonStates();
      }
    }

    /**
     * `one_file_convert`: `file` is what the dialog returns and `today` the date. The last converted
     * file is set only when the text was written.
     */
    method OneFileConvert(file: string, read: string -> Option<seq<Byte>>, canWrite: string -> bool, today: string)
      returns (r: OneFileReport)
      requires Valid()
      modifies this`lastConverted, this`convertEnabled, this`copyTextEnabled
      ensures file == "" ==> r == NoFileChosen && lastConverted == old(lastConverted)
      ensures file != "" ==> r == Finished(ConvertFile(file, OneFileOutput(userPath, file, today), read, canWrite))
      ensures lastConverted == if r.Finished? && r.outcome.Converted? then Some(r.outcome.output) else old(lastConverted)
      ensures mode == OneFile && r.Finished? && r.outcome.Converted? ==> copyTextEnabled == Some(true)
      ensures Valid()
    {
      if file == "" {
        return NoFileChosen;
      }
      match read(file) {
        case None =>
          r := Finished(Failed(file, Unreadable));
        case Some(fileData) =>
          var base64String := Encode(fileData);
          var saveDir := if userPath != "" then userPath else Dirname(file);
          var outputPath := JoinPath(saveDir, OutputName(Dated(today), Basename(file)));
          assert outputPath == OneFileOutput(userPath, file, today);
          OneFileOutputNonEmpty(userPath, file, today);
          if canWrite(outputPath) {
            lastConverted := Some(outputPath);
            UpdateButtonStates();
            r := Finished(Converted(outputPath, base64String));
          } else {
            r := Finished(Failed(file, Unwritable));
          }
      }
    }

    /**
     * `encode_dir`: the dated outputs go to the save directory or else to the source directory.
     * `extension` is the filter text after `strip`.
     */
    method EncodeDir(extension: string, listdir: string -> seq<string>, isFile: string -> bool,
                     read: string -> Option<seq<Byte>>, canWrite: string -> bool, today: string)
      returns (r: BatchReport)
      ensures path == "" <==> r == NoSourceDir
      ensures !r.NoSaveDir?
      ensures path != "" ==>
        var selected := Selection(path, listdir(path), isFile, extension);
        (r == NoMatchingFiles <==> selected == []) &&
        (r.NoMatchingFiles? || r.Done?) &&
        (r.Done? ==>
          r.total == |selected| && r.count == Successes(r.results) <= r.total &&
          r.results == Outcomes(path, selected, SaveDir(userPath, path), Dated(today), read, canWrite))
      ensures Valid() && mode == ManyFiles && convertEnabled == Some(true) ==> r != NoSourceDir
    {
      if path == "" {
        return NoSourceDir;
      }
      var saveDir := if userPath != "" then userPath else path;
      r := ConvertSelection(path, listdir(path), isFile, extension, saveDir, Dated(today), read, canWrite);
    }

    /**
     * `copy_converted_files`: the files to copy are the last converted file (one-file mode) or
     * the converted files of the save or source directory (several files). On Windows they are
     * offered as a file drop, and as newline-separated text when that fails; elsewhere as text.
     * `onWindows` stands for `IS_WINDOWS and pywin32_available`, `clipboardOk` for the clipboard calls.
     */
    method CopyConvertedFiles(normalize: string -> string, pathExists: string -> bool,
                              isDir: string -> bool, listdir: string -> seq<string>,
                              onWindows: bool, clipboardOk: bool)
      returns (r: CopyReport)
      ensures mode == Undecided <==> r == ModeUnknown
      ensures mode == OneFile ==>
        (r == NoLastFile <==> !(HasLastConverted() && pathExists(lastConverted.value))) &&
        (r != NoLastFile ==> r.Copied() && r.files == [lastConverted.value])
      ensures mode == ManyFiles ==>
        var files := ConvertedFiles("", userPath, path, isDir, listdir);
        (r == NoConvertedFiles <==> files == []) &&
        (r != NoConvertedFiles ==> r.Copied() && r.files == files)
      ensures r.CopiedFiles? ==> onWindows && clipboardOk && DropData(r.files, normalize, pathExists) == Some(r.data)
      ensures r.CopiedText? ==> r.text == Join(r.files, '\n') && r.dropFailed == onWindows
      ensures r.CopiedText? && onWindows ==> DropData(r.files, normalize, pathExists).None? || !clipboardOk
      ensures r.CopiedText? ==> |r.text| == TotalLength(r.files) + |r.files| - 1
      ensures r.CopiedText? && (forall i :: 0 <= i < |r.files| ==> '\n' !in r.files[i]) ==> Split(r.text, '\n') == r.files
    {
      var files: seq<string>;
      match mode {
        case Undecided =>
          return ModeUnknown;
        case OneFile =>
          if HasLastConverted() && pathExists(lastConverted.value) {
            files := [lastConverted.value];
          } else {
            return NoLastFile;
          }
        case ManyFiles =>
          files := ConvertedFiles("", userPath, path, isDir, listdir);
          if files == [] {
            return NoConvertedFiles;
          }
      }
      if onWindows {
        var success, clipboard := CopyFilesToClipboard(files, normalize, pathExists, clipboardOk);
        if success {
          r := CopiedFiles(files, clipboard.data);
        } else {
          r := CopiedText(files, Join(files, '\n'), true);
        }
      } else {
        r := CopiedText(files, Join(files, '\n'), false);
      }
      if r.CopiedText? {
        JoinLength(files, '\n');
        if forall i :: 0 <= i < |files| ==> '\n' !in files[i] {
          SplitJoin(files, '\n');
        }
      }
    }
  }

  /** A whole one-file session: after a conversion that is written, copy-text is enabled and copying offers that file. */
  method OneFileScenario(file: string, data: seq<Byte>, today: string, normalize: string -> string, pathExists: string -> bool)
    returns (report: CopyReport)
    requires file != ""
    requires pathExists(OneFileOutput("", file, today))
    ensures report.Copied() && report.files == [OneFileOutput("", file, today)]
  {
    var s := new Session();
    s.StartOneFileWindow();
    OneFileOutputNonEmpty("", file, today);
    var r := s.OneFileConvert(file, _ => Some(data), _ => true, today);
    assert r.outcome.Converted?;
    assert s.copyTextEnabled == Some(true);
    report := s.CopyConvertedFiles(normalize, pathExists, _ => false, _ => [], true, true);
  }
}
