# Base64 file converter: a Dafny model

The repository holds two Tk desktop programs that turn files into Base64 text files.
`ConverterToB64.py` is the current program and `Converter.py` is its earlier variant.
This project models the parts of both that have checkable behaviour:

- **File drop (`copy_files_to_clipboard`).** The Windows file-drop payload is a `DROPFILES` header of five
  little-endian 32-bit words (20, 0, 0, 0, 1). It is followed by the existing, normalized paths, NUL-separated,
  ended by a double NUL and encoded as UTF-16LE. The model includes a reader for that payload. It proves the
  payload's exact layout, its length formula and that reading it back gives the paths (module `DropFiles`).
- **Batch step (`encode_dir`).** Both programs select the regular files of the source directory that pass the
  extension filter, in listing order. Then they convert each one: read, Base64-encode (section 4 of RFC 4648),
  write. A failing file does not stop the loop, and the successes are counted (modules `Batch` and `Base64`).
- **Output names and save directory.** An output name is the `splitext` stem of the source name, then an
  optional `-YYYY-MM-DD` date, then `.base64.txt`. Output goes to the chosen save directory, or else next to the
  source, and `get_converted_files` lists it (modules `WinPath`, `Naming` and `ConverterToB64`).
- **Session state.** Each program is a class `Session`. Its fields are `User_path`, `path`, the mode, the last
  converted file (`ConverterToB64.py` only) and the enablement of the buttons. Its methods are the actions that
  change them (modules `ConverterToB64` and `Converter`). Each action keeps `Valid()`, which says the buttons
  show what `update_button_states` decides.
- **Window placement.** `place_window_near_cursor` is integer clamping arithmetic (module `Placement`).

The file system, the clipboard, dialogs and the clock are parameters:

- `read` gives a file's bytes or `None`.
- `canWrite`, `isFile`, `isDir`, `pathExists` and `writable` stand for the corresponding checks.
- `listdir` gives a directory's entry names.
- `normalize` stands for `abspath(normpath(...))`.
- `clipboardOk` says whether the `win32clipboard` calls succeed.
- `today` is the text of `datetime.date.today()`.
- The dialogs' results are arguments of the actions.

Paths are Dafny strings of Unicode scalar values. UTF-16 is modelled with surrogate pairs, so a path outside the
Basic Multilingual Plane takes two code units per such character. The length formula is stated in code units
(`PayloadLength`) and, for BMP-only paths, in characters (`PayloadLengthBmp`).

The two programs differ on one-file conversion. `ConverterToB64.py` enables the convert button without a
save directory and writes next to the source file instead (ConverterToB64.py:228, 322-323). `Converter.py`
needs `User_path` first (Converter.py:46-48, 162).

## Model

| member | source | states |
|---|---|---|
| DropFiles.CopyFilesToClipboard | ConverterToB64.py:78-124 | The loop keeps exactly the normalized existing paths, in order. Nothing is offered and the result is false for an empty list or when no path survives. Otherwise the header-plus-UTF-16LE payload of the kept paths is offered, and the result is true exactly when the clipboard calls succeed. |
| DropFiles.ExistingPathsMembers | ConverterToB64.py:88-94 | A path is kept iff it exists and is the normalized form of some input path. |
| DropFiles.ExistingPathsAppend | ConverterToB64.py:88-94 | Filtering a concatenation concatenates the filtered parts, so input order is kept. |
| DropFiles.MissingPathSkipped | ConverterToB64.py:91-94 | A missing path is skipped without error and does not change what is kept from the other paths. |
| DropFiles.ExistingPathsAll | ConverterToB64.py:88-94 | When every path exists, all of them are kept, normalized, at their positions. |
| DropFiles.MissingThenExisting | ConverterToB64.py:83-113 | For a missing path followed by an existing one, the payload lists only the existing path. |
| DropFiles.HeaderLayout | ConverterToB64.py:99-105 | The header is 20 bytes: words 20, 0, 0, 0, 1; its first word equals its length. |
| DropFiles.PayloadHeader | ConverterToB64.py:105-113 | The payload starts with the header, whose offset word points just past it, and whose `fWide` word is 1. |
| DropFiles.PayloadLength | ConverterToB64.py:109-113 | The payload's length is 20 + 2·(code units of the paths + number of paths + 1). |
| DropFiles.PayloadLengthBmp | ConverterToB64.py:109-113 | For BMP paths the length is 20 + 2·(total length of the paths + number of paths + 1). |
| DropFiles.Utf16JoinLength | ConverterToB64.py:109 | The NUL-joined list has the paths' code units plus one unit per separator. |
| DropFiles.UnitsBmp | ConverterToB64.py:110 | BMP paths take one code unit per character. |
| DropFiles.Utf16TwoNuls | ConverterToB64.py:109-110 | The two terminating NULs are two zero code units. |
| DropFiles.PayloadEndsInZeros | ConverterToB64.py:109-113 | The last four payload bytes are zero. |
| DropFiles.PayloadText | ConverterToB64.py:105-113 | The bytes after the 20-byte header decode as UTF-16LE to `join(paths, NUL) + NUL NUL`. |
| DropFiles.SplitFileList | ConverterToB64.py:107-109 | For non-empty NUL-free paths, splitting the file list at NULs up to the empty string gives the paths back. |
| DropFiles.ReadPayload | ConverterToB64.py:105-113 | Reading a payload at its offset word, as UTF-16LE NUL-terminated names, gives back exactly the paths. |
| DropFiles.DropDataReadsBack | ConverterToB64.py:83-113 | Whatever is offered reads back as exactly the existing normalized paths. |
| Octets.Le32 | ConverterToB64.py:105 | A 32-bit word packs to 4 bytes that decode back to it, least significant first. |
| Octets.Utf16Le | ConverterToB64.py:110 | UTF-16LE output has two bytes per code unit. |
| Octets.DecodeUtf16LeInverse | ConverterToB64.py:110 | UTF-16LE bytes decode back to their code units. |
| Octets.Utf16LeAppend | ConverterToB64.py:110 | UTF-16LE encoding distributes over concatenation. |
| Octets.CharUnits | ConverterToB64.py:110 | A character takes one code unit on the BMP and two (a surrogate pair) above it. |
| Octets.Utf16Append | ConverterToB64.py:110 | UTF-16 encoding distributes over concatenation. |
| Octets.Utf16LengthBmp | ConverterToB64.py:110 | A BMP string has as many code units as characters. |
| Octets.Utf16Nul | ConverterToB64.py:109-110 | NUL is the single code unit 0. |
| Octets.DecodeUtf16Inverse | ConverterToB64.py:110 | Decoding the UTF-16 of any string gives it back. |
| Text.JoinLength | ConverterToB64.py:189 | A join of n parts has their total length plus n − 1 separators. |
| Text.SplitJoin | ConverterToB64.py:189 | Splitting a join of separator-free parts at the separator gives the parts. |
| Text.Split | ConverterToB64.py:189 | Splitting gives at least one part and no part holds the separator. |
| Text.IndexOf | ConverterToB64.py:107-109 | The result is the first position of the character, or the length when it is absent. |
| Base64.Encode | ConverterToB64.py:226 | The encoded text has 4·⌈n/3⌉ characters. |
| Base64.DecodeEncode | ConverterToB64.py:226 | Decoding the encoding of any bytes gives them back. |
| Base64.EncodeAlphabet | ConverterToB64.py:226 | Encoded text holds only the 64 letters of the alphabet and `=`. |
| Base64.EncodeMan | ConverterToB64.py:226 | The bytes of "Man" encode to "TWFu". |
| Base64.EncodePadding | ConverterToB64.py:226 | One leftover byte takes two `=`, two leftover bytes take one. |
| Base64.Symbol | ConverterToB64.py:226 | A 6-bit value's letter has that value. |
| WinPath.ExtensionStart | ConverterToB64.py:229 | The extension starts at a dot of the last component that is not among its leading dots. No dot or separator follows it. When there is no extension, every dot of the last component is among its leading dots. |
| WinPath.SplitExtRule | ConverterToB64.py:229 | A name has an extension iff its last component has a dot with a non-dot before it in that component. |
| WinPath.NoQualifyingDot | ConverterToB64.py:229 | When the last dot of the last component follows only dots, no dot of that component has a non-dot before it. |
| WinPath.SplitExtParts | ConverterToB64.py:229 | Root and extension rebuild the name, and an extension is one dot followed by neither a dot nor a separator. |
| WinPath.SplitExtExtension | ConverterToB64.py:229 | With an extension, the stem ends just before its dot, and the stem's last component is not only dots. |
| WinPath.SplitExtExamples | ConverterToB64.py:229 | `report.docx` splits to (`report`, `.docx`), and `archive.tar.gz` to (`archive.tar`, `.gz`). |
| WinPath.SplitExtNoExtension | ConverterToB64.py:229 | `.bashrc` and `README` have no extension. |
| WinPath.TailStart | ConverterToB64.py:229 | The last component starts after the last separator, and no separator follows. |
| WinPath.TailStartAt | ConverterToB64.py:229 | A position after a separator with no separator beyond it is where the last component starts. |
| WinPath.LastIndexOf | ConverterToB64.py:229 | The result is the last position of the character, or −1. |
| WinPath.LastIndexAt | ConverterToB64.py:229 | The last occurrence is what `LastIndexOf` finds. |
| WinPath.LastDotOfTail | ConverterToB64.py:229 | The last dot of the last component is the last dot of the name. |
| WinPath.DriveLength | ConverterToB64.py:228-229 | A drive `X:` is at most the whole path. |
| WinPath.StripTrailingSeps | ConverterToB64.py:228 | The result is a prefix that does not end in a separator, and everything it drops is a separator. |
| WinPath.StripTrailingSepsAt | ConverterToB64.py:228 | Stripping stops exactly at the last character that is not a separator. |
| WinPath.StripHead | ConverterToB64.py:228 | The head before the last component loses exactly its trailing separators. |
| WinPath.DirnameOf | ConverterToB64.py:228 | `dirname` is the path up to the separators before the last component, or those separators too when nothing but a drive precedes them. |
| WinPath.DirnameSeparated | ConverterToB64.py:228 | When the join put a backslash between them, `dirname(dir + "\\" + name)` is `dir`. |
| WinPath.DirnameGlued | ConverterToB64.py:228 | When the join glued the name to an empty directory, a bare drive or a root, `dirname` gives that directory back. |
| WinPath.DirnameJoin | ConverterToB64.py:228 | `dirname(join(dir, name))` is `dir` for a plain name and a directory that is empty, a bare drive, a root, or does not end in a separator. |
| WinPath.DriveLengthAppend | ConverterToB64.py:228 | Appending a plain name neither creates nor removes a drive. |
| WinPath.JoinPathLength | ConverterToB64.py:230 | A join is at least as long as the name it ends with. |
| WinPath.BasenameJoin | ConverterToB64.py:229-230 | `basename(join(dir, name))` is `name` for a plain name. |
| Naming.StemPrefix | ConverterToB64.py:229 | A stem is a prefix of its name. |
| Naming.OutputNameSuffix | ConverterToB64.py:229 | Every output name ends in `.base64.txt`. |
| Naming.OutputNameStem | ConverterToB64.py:294 | An output name starts with the source's stem. |
| Naming.UndatedNamesCollide | Converter.py:133-134 | Two sources get the same undated output name iff they have the same stem. |
| Naming.DatedNamesDistinct | ConverterToB64.py:294 | With dates of one length, dated names agree iff both stems and dates agree. |
| Naming.SameStemExample | Converter.py:67-68 | `a.docx` and `a.pdf` both give `a.base64.txt`. |
| Naming.DatedExample | ConverterToB64.py:229 | `doc.docx` on 2025-04-05 gives `doc-2025-04-05.base64.txt`. |
| Naming.OutputNamePlain | ConverterToB64.py:294 | The output name of a plain name, with an ISO date, is a plain name. |
| Naming.OutputPathBasename | ConverterToB64.py:294-295 | The written file's base name is its output name. |
| Batch.SelectFiles | ConverterToB64.py:268-272 | The loop collects exactly the selection: the regular files that pass the filter, in listing order. |
| Batch.SelectionMembers | ConverterToB64.py:268-272 | A name is selected iff it is listed, is a file, and the filter is empty or the name ends with `.ext`. |
| Batch.SelectionAppend | ConverterToB64.py:268-272 | Selection keeps listing order: selecting a concatenation concatenates the selections. |
| Batch.SelectionExample | ConverterToB64.py:268-272 | With filter `docx`, `a.txt` is skipped and `b.docx`, `c.docx` are taken in order. |
| Batch.EmptyFilterExample | ConverterToB64.py:271 | An empty filter takes every regular file and skips a non-file. |
| Batch.ConvertFileOutcome | ConverterToB64.py:288-299 | A file is converted iff it is readable and its output writable. The written text then decodes to the file's bytes. |
| Batch.ConvertOne | ConverterToB64.py:288-299 | The file is converted iff it is readable and its output writable. Then the text is written to the given output and decodes to the file's bytes. A failure names the source, and it is "unreadable" exactly when the read fails. |
| Batch.SuccessesCount | ConverterToB64.py:286-301 | The tally equals the number of converted positions and is at most the number of files. |
| Batch.SuccessesAll | ConverterToB64.py:286-301 | The tally equals the number of files iff every file was converted. |
| Batch.SuccessesSnoc | ConverterToB64.py:301 | One more outcome adds one to the tally exactly when it is a conversion. |
| Batch.Jobs | ConverterToB64.py:287-295 | There is one job per selected name. |
| Batch.Run | ConverterToB64.py:286-307 | There is one outcome per job. |
| Batch.JobsAt | ConverterToB64.py:287-295 | The job at each position reads `join(path, name)` and writes the output name of that name. |
| Batch.RunAt | ConverterToB64.py:286-307 | The outcome at each position is the conversion of the job there. |
| Batch.RunSnoc | ConverterToB64.py:286-307 | One more job appends exactly its outcome and leaves the earlier outcomes alone. |
| Batch.JobsSnoc | ConverterToB64.py:286-295 | One more name appends exactly its job. |
| Batch.OutcomesSnoc | ConverterToB64.py:286-307 | Converting one more name appends exactly that file's outcome. |
| Batch.OutcomesAt | ConverterToB64.py:286-307 | The outcome at each position is the conversion of the file listed there, so a failure neither stops nor shifts the rest. |
| Batch.ConvertEach | ConverterToB64.py:285-307 | There is one outcome per file, in order, and `count` is the number of successes, at most the number of files. |
| Batch.ConvertSelection | ConverterToB64.py:268-307 | "No matching files" iff the selection is empty. Otherwise `total` is the selection's size, the results are its outcomes and `count` is their tally, at most `total`. |
| Placement.PlaceWindowNearCursor | ConverterToB64.py:24-61 | Both coordinates are at least the margin. A window that fits keeps the margin on the right and bottom. With no clamp the position is pointer + offset. A window too large for the screen sits at the margin. |
| Placement.PlacementExample | ConverterToB64.py:411 | A 500×530 window at pointer (1000, 2000) on a 1920×1080 screen with margin 100 goes to (1012, 450). |
| ConverterToB64.ConvertedInMembers | ConverterToB64.py:135-139 | A path is listed iff it is `join(dir, name)` for a listed name ending in `.base64.txt`. |
| ConverterToB64.ConvertedFilesMembers | ConverterToB64.py:127-139 | `get_converted_files` lists exactly the `.base64.txt` entries of the first non-empty of save dir, `User_path` and `path`, and nothing when that is not a directory. |
| ConverterToB64.OutputIsListed | ConverterToB64.py:127-139 | A file the program wrote into the target directory is listed once the directory holds it. |
| ConverterToB64.Session.constructor | ConverterToB64.py:63-66 | A new session has no directories, no mode and no last converted file. |
| ConverterToB64.Session.UpdateButtonStates | ConverterToB64.py:318-327 | With no mode nothing changes. In one-file mode convert is enabled, and copy-text (when present) is enabled iff there is a last converted file. In multi mode convert is enabled iff `path` is set. |
| ConverterToB64.Session.CreateMainWindow | ConverterToB64.py:404-508 | The mode is set and the buttons agree with the rules. |
| ConverterToB64.Session.StartOneFileWindow | ConverterToB64.py:329-333 | The last converted file is cleared, convert is enabled and copy-text is disabled. |
| ConverterToB64.Session.StartMultipleFilesWindow | ConverterToB64.py:335-339 | The last converted file is cleared, and convert is enabled iff `path` is set. |
| ConverterToB64.Session.SelectUserDir | ConverterToB64.py:143-152 | `User_path` changes only to a chosen, writable directory. Cancelling or an unwritable directory changes nothing. |
| ConverterToB64.Session.OpenDirectory | ConverterToB64.py:252-258 | A chosen directory becomes `path`, and the buttons follow it. |
| ConverterToB64.Session.OneFileConvert | ConverterToB64.py:210-250 | A cancelled dialog does nothing. Otherwise the file is converted to `save_dir/stem-date.base64.txt`, with `save_dir` the save directory or else the file's directory. `last_converted_file` is set (and copy-text enabled) only after a successful write. |
| ConverterToB64.Session.EncodeDir | ConverterToB64.py:260-316 | Nothing happens without `path`, and nothing is converted when no file matches. Otherwise there is one dated outcome per selected file, in the save directory or else `path`, and `count` is the tally, at most `total`. |
| ConverterToB64.Session.CopyConvertedFiles | ConverterToB64.py:161-193 | No mode, a missing last file or no converted files copy nothing. Otherwise, on Windows, the files are offered as a file drop; when that fails, and off Windows, they are copied as newline-joined text. That text has the paths' length plus one newline between neighbours, and when no path holds a newline, splitting it at newlines gives the files back. |
| ConverterToB64.OneFileOutputOf | ConverterToB64.py:228-230 | For a file picked as `join(dir, name)`, the dated output is `join(save_dir, stem-date.base64.txt)`, with `save_dir` the save directory or else `dir` itself. |
| ConverterToB64.OneFileOutputNonEmpty | ConverterToB64.py:228-230 | The one-file output path is never empty, so a written conversion always leaves a last converted file. |
| ConverterToB64.OneFileScenario | ConverterToB64.py:210-237 | After a written one-file conversion with no save directory, while the written file exists, copying offers exactly that file, next to the source. |
| Converter.Session.constructor | Converter.py:10-12 | A new session has no directories and no mode. |
| Converter.Session.UpdateButtonStates | Converter.py:157-164 | With no mode nothing changes. One-file convert is enabled iff `User_path` is set; multi-file convert iff `User_path` and `path` are set. |
| Converter.Session.CreateMainWindow | Converter.py:193-278 | The mode is set and the convert button agrees with the rules. |
| Converter.Session.StartOneFileWindow | Converter.py:166-168 | One-file mode, with convert enabled iff `User_path` is set. |
| Converter.Session.StartMultipleFilesWindow | Converter.py:170-172 | Multi-file mode, with convert enabled iff both directories are set. |
| Converter.Session.SelectUserDir | Converter.py:24-34 | `User_path` changes only to a chosen, writable directory; otherwise all state is unchanged. |
| Converter.Session.OpenDirectory | Converter.py:87-94 | A chosen directory becomes `path`; a cancelled dialog changes nothing. |
| Converter.Session.OneFileConvert | Converter.py:44-85 | Without `User_path` nothing is asked, read or written, and a cancelled dialog converts nothing. Otherwise the file is converted to `User_path/stem.base64.txt`. |
| Converter.Session.EncodeDir | Converter.py:96-155 | `User_path` is checked first, then `path`, and no match means no output. Otherwise there is one undated outcome per selected file in `User_path`, with the tally at most `total`. |
| Converter.SameStemSameOutput | Converter.py:133-134 | `a.docx` and `a.pdf` are written to the same output path. |

## Left out

- The Tk GUI is not modelled: windows, widgets, `mainloop`, labels, the progress bar, message boxes,
  `create_ask_window`, `show_help_window` and the help text. Only the button states and the mode are kept.
- `go_back_to_ask_window` is not modelled: it only destroys a window and re-creates the ask window.
- `copy_to_clipboard` and `copy_last_converted_text` are not modelled. They hand a string or a file's contents
  to `pyperclip` and change no state.
- The `win32clipboard` and `pyperclip` calls are foreign OS calls. Their success is the `clipboardOk` flag, and
  `pyperclip` is taken to succeed.
- `os.path.abspath`/`normpath` depend on the working directory, so they are the opaque `normalize`.
- `os.listdir`, `open`, `read`, `write`, `isfile`, `isdir`, `exists` and `os.access` are parameters. A directory
  whose listing raises, and the outer exception handler of `encode_dir`, are not modelled.
- A partly written output file is not modelled: a write either succeeds or fails.
- Overwriting an existing output file is not modelled as a file-system effect. The collision itself is proved
  (`UndatedNamesCollide`, `SameStemSameOutput`).
- The `strip` of the extension entry is not modelled: `extension` is the text after stripping.
- `datetime.date.today()` is the `today` parameter.
- ConverterToB64.Session.EncodeDir: uses one `today` for the whole batch. The source reads the date again for
  every file (ConverterToB64.py:294), so a run that crosses midnight gives the later files the next date.
- `IS_WINDOWS and pywin32_available` is the `onWindows` parameter. In the source, `pywin32_available` equals
  `IS_WINDOWS`, because its `try` block imports nothing. `import win32clipboard` at ConverterToB64.py:8 is
  unconditional, so the program cannot start off Windows, and the plain-text branch for that case
  (ConverterToB64.py:191-193) never runs in practice. The model keeps that branch for `onWindows == false`.
- WinPath.Dirname: covers drive letters only. The UNC `\\server\share` prefixes of `ntpath.splitdrive` are not
  modelled, and a file dialog can return such a path. For `//srv/share/a.txt` with no save directory,
  `ntpath.dirname` gives `//srv/share/` and the source writes `//srv/share/a-<date>.base64.txt`.
  The model's `Dirname` gives `//srv/share`, and `JoinPath` then gives `//srv/share\a-<date>.base64.txt`.
  That names the same file on Windows but is a different string. `DirnameJoin` is stated for paths without a
  UNC prefix.
- The `print` diagnostics are not modelled: the missing-file message and the exception report of
  `copy_files_to_clipboard` (ConverterToB64.py:94, 123) and the traces in `copy_converted_files`
  (ConverterToB64.py:180, 184). They change no state.
- `place_window_near_cursor` takes the pointer position and screen size as inputs, which replaces the Tk
  queries. The `geometry` call is not modelled.
- Paths are sequences of Unicode scalar values. A Python string with a lone surrogate, on which the UTF-16LE
  encoding raises, cannot be written down, so that exception path of `copy_files_to_clipboard` is not modelled.
