/**
 * The session of `Converter.py`, the earlier variant of the program: undated output names,
 * always written to the save directory (`User_path`), which must be chosen before anything is
 * converted; its convert button is enabled only when the directories the action needs are chosen.
 */
module Converter {

  import opened Wrappers
  import opened Octets
  import opened WinPath
  import opened Naming
  import opened Base64
  import opened Batch
  import opened Ui

  class Session {
    var userPath: string
    var path: string
    var mode: Mode
    /** The state of the convert button; `None` while there is no main window. */
    var convertEnabled: Option<bool>

    /** The directories the convert action of the current mode needs are chosen. */
    predicate ConvertAllowed()
      reads this
    {
      match mode
      case Undecided => false
      case OneFile => userPath != ""
      case ManyFiles => userPath != "" && path != ""
    }

    /** The convert button shows what `update_button_states` decides for the current state. */
    predicate Valid()
      reads this
    {
      if mode == Undecided then convertEnabled.None? else convertEnabled == Some(ConvertAllowed())
    }

    constructor ()
      ensures userPath == "" && path == "" && mode == Undecided
      ensures Valid()
    {
      userPath, path, mode, convertEnabled := "", "", Undecided, None;
    }

    /** `update_button_states`: without a mode nothing changes; otherwise convert is enabled exactly when its directories are chosen. */
    method UpdateButtonStates()
      modifies this`convertEnabled
      ensures mode == Undecided ==> convertEnabled == old(convertEnabled)
      ensures mode == OneFile ==> convertEnabled == Some(userPath != "")
      ensures mode == ManyFiles ==> convertEnabled == Some(userPath != "" && path != "")
    {
      if mode == Undecided {
        return;
      }
      if mode == OneFile {
        convertEnabled := Some(userPath != "");
      } else {
        convertEnabled := Some(userPath != "" && path != "");
      }
    }

    /** The state part of `create_main_window`: the mode is set, the button is created and then updated. */
    method CreateMainWindow(oneFileMode: bool)
      modifies this`mode, this`convertEnabled
      ensures mode == if oneFileMode then OneFile else ManyFiles
      ensures Valid()
    {
      mode := if oneFileMode then OneFile else ManyFiles;
      convertEnabled := Some(true);
      UpdateButtonStates();
    }

    /** `start_one_file_window` */
    method StartOneFileWindow()
      modifies this`mode, this`convertEnabled
      ensures mode == OneFile && convertEnabled == Some(userPath != "")
      ensures Valid()
    {
      CreateMainWindow(true);
    }

    /** `start_multiple_files_window` */
    method StartMultipleFilesWindow()
      modifies this`mode, this`convertEnabled
      ensures mode == ManyFiles && convertEnabled == Some(userPath != "" && path != "")
      ensures Valid()
    {
      CreateMainWindow(false);
    }

    /** `select_user_dir`: only a chosen, writable directory becomes the save directory; otherwise nothing changes. */
    method SelectUserDir(selected: string, writable: string -> bool) returns (choice: DirChoice)
      requires Valid()
      modifies this`userPath, this`convertEnabled
      ensures choice == if selected == "" then Cancelled else if !writable(selected) then NotWritable else Chosen
      ensures choice != Chosen ==> userPath == old(userPath) && convertEnabled == old(convertEnabled)
      ensures choice == Chosen ==> userPath == selected
      ensures Valid()
    {
      if selected == "" {
        return Cancelled;
      }
      if !writable(selected) {
        return NotWritable;
      }
      userPath := selected;
      UpdateButtonStates();
      choice := Chosen;
    }

    /** `open_directory`: a chosen directory becomes the source directory. */
    method OpenDirectory(selected: string)
      requires Valid()
      modifies this`path, this`convertEnabled
      ensures path == if selected != "" then selected else old(path)
      ensures selected == "" ==> convertEnabled == old(convertEnabled)
      ensures Valid()
    {
      if selected != "" {
        path := selected;
        UpdateButtonStates();
      }
    }

    /**
     * `one_file_convert`: without a save directory nothing is asked, read or written; `file` is
     * what the dialog returns. The undated output goes into the save directory.
     */
    method OneFileConvert(file: string, read: string -> Option<seq<Byte>>, canWrite: string -> bool)
      returns (r: OneFileReport)
      ensures userPath == "" <==> r == OneFileReport.NoSaveDir
      ensures userPath != "" && file == "" ==> r == NoFileChosen
      ensures userPath != "" && file != "" ==>
        r == Finished(ConvertFile(file, JoinPath(userPath, OutputName(Undated, Basename(file))), read, canWrite))
      ensures Valid() && mode == OneFile && convertEnabled == Some(true) ==> !r.NoSaveDir?
    {
      if userPath == "" {
        return OneFileReport.NoSaveDir;
      }
      if file == "" {
        return NoFileChosen;
      }
      match read(file) {
        case None =>
          r := Finished(Failed(file, Unreadable));
        case Some(fileData) =>
          var base64String := Encode(fileData);
          var outputPath := JoinPath(userPath, OutputName(Undated, Basename(file)));
          if canWrite(outputPath) {
            r := Finished(Converted(outputPath, base64String));
          } else {
            r := Finished(Failed(file, Unwritable));
          }
      }
    }

    /**
     * `encode_dir`: the save directory is checked first, then the source directory; the undated
     * outputs go into the save directory. `extension` is the filter text after `strip`.
     */
    method EncodeDir(extension: string, listdir: string -> seq<string>, isFile: string -> bool,
                     read: string -> Option<seq<Byte>>, canWrite: string -> bool)
      returns (r: BatchReport)
      ensures userPath == "" <==> r.NoSaveDir?
      ensures userPath != "" && path == "" <==> r.NoSourceDir?
      ensures userPath != "" && path != "" ==>
        var selected := Selection(path, listdir(path), isFile, extension);
        (r.NoMatchingFiles? <==> selected == []) &&
        (r.NoMatchingFiles? || r.Done?) &&
        (r.Done? ==>
          r.total == |selected| && r.count == Successes(r.results) <= r.total &&
          r.results == Outcomes(path, selected, userPath, Undated, read, canWrite))
      ensures Valid() && mode == ManyFiles && convertEnabled == Some(true) ==> r.NoMatchingFiles? || r.Done?
    {
      if userPath == "" {
        return BatchReport.NoSaveDir;
      }
      if path == "" {
        return NoSourceDir;
      }
      r := ConvertSelection(path, listdir(path), isFile, extension, userPath, Undated, read, canWrite);
    }
  }

  /** Two files with the same stem, converted in one batch, are written to the same output path. */
  lemma SameStemSameOutput(userPath: string)
    ensures OutputPath(userPath, Undated, "a.docx") == OutputPath(userPath, Undated, "a.pdf")
  {
    SameStemExample();
  }
}
