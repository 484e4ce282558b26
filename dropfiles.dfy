/**
 * The Windows file-drop payload that `copy_files_to_clipboard` puts on the clipboard in the
 * `CF_HDROP` format: a `DROPFILES` header followed by the paths, NUL-separated and ended by a
 * double NUL, in UTF-16LE. The reader `ReadDropFiles` is the shell's side of the exchange.
 */
module DropFiles {

  import opened Wrappers
  import opened Octets
  import opened Text

  const NUL: char := '\0'

  /** The `DROPFILES` header is five 32-bit words. */
  const HEADER_SIZE: nat := 20

  /** `pFiles` = 20 (the list follows the header), `pt` = (0, 0), `fNC` = 0, `fWide` = 1 (UTF-16 names). */
  function Header(): seq<Byte> {
    Le32(20) + Le32(0) + Le32(0) + Le32(0) + Le32(1)
  }

  /** The `k`-th little-endian 32-bit word of `data`. */
  function Word(data: seq<Byte>, k: nat): int
    requires 4 * k + 4 <= |data|
  {
    DecodeLe32(data[4 * k..4 * k + 4])
  }

  /** `"\0".join(paths) + "\0\0"` */
  function FileList(paths: seq<string>): string {
    Join(paths, NUL) + [NUL, NUL]
  }

  /** The bytes of the clipboard entry for `paths`. */
  function Payload(paths: seq<string>): seq<Byte> {
    Header() + Utf16Le(Utf16(FileList(paths)))
  }

  /** The normalized paths that exist, in input order. */
  function ExistingPaths(filePaths: seq<string>, normalize: string -> string, pathExists: string -> bool): seq<string>
    decreases |filePaths|
  {
    if filePaths == [] then []
    else
      var earlier := ExistingPaths(filePaths[..|filePaths| - 1], normalize, pathExists);
      var clean := normalize(filePaths[|filePaths| - 1]);
      if pathExists(clean) then earlier + [clean] else earlier
  }

  /** What is offered to the clipboard: nothing when there are no paths or none of them exists. */
  function DropData(filePaths: seq<string>, normalize: string -> string, pathExists: string -> bool): Option<seq<Byte>> {
    if filePaths == [] then None
    else
      var valid := ExistingPaths(filePaths, normalize, pathExists);
      if valid == [] then None else Some(Payload(valid))
  }

  /** The clipboard after the call: left alone, or handed `data` (the hand-over itself may fail). */
  datatype Clipboard = Untouched | Offered(data: seq<Byte>)

  /**
   * `copy_files_to_clipboard`: keeps the normalized paths that exist and offers their payload to
   * the clipboard; `clipboardOk` says whether the clipboard calls succeed.
   */
  method CopyFilesToClipboard(filePaths: seq<string>, normalize: string -> string, pathExists: string -> bool, clipboardOk: bool)
    returns (success: bool, clipboard: Clipboard)
    ensures clipboard == match DropData(filePaths, normalize, pathExists)
                         case None => Untouched
                         case Some(data) => Offered(data)
    ensures success <==> clipboard.Offered? && clipboardOk
    ensures filePaths == [] || ExistingPaths(filePaths, normalize, pathExists) == [] ==> !success && clipboard == Untouched
  {
    if |filePaths| == 0 {
      return false, Untouched;
    }
    var valid: seq<string> := [];
    for i := 0 to |filePaths|
      invariant valid == ExistingPaths(filePaths[..i], normalize, pathExists)
    {
      assert filePaths[..i + 1][..i] == filePaths[..i];
      var clean := normalize(filePaths[i]);
      if pathExists(clean) {
        valid := valid + [clean];
      }
    }
    assert filePaths[..|filePaths|] == filePaths;
    if valid == [] {
      return false, Untouched;
    }
    var header := Header();
    var fileList := Join(valid, NUL) + [NUL, NUL];
    var fileBytes := Utf16Le(Utf16(fileList));
    clipboard := Offered(header + fileBytes);
    success := clipboardOk;
  }

  // ---------------------------------------------------------------- the filter

  /** A path is kept exactly when it is the normalized form of an input path and it exists. */
  lemma {:induction false} ExistingPathsMembers(filePaths: seq<string>, normalize: string -> string, pathExists: string -> bool, p: string)
    ensures p in ExistingPaths(filePaths, normalize, pathExists) <==>
      pathExists(p) && exists i :: 0 <= i < |filePaths| && normalize(filePaths[i]) == p
    decreases |filePaths|
  {
    if filePaths != [] {
      var init := filePaths[..|filePaths| - 1];
      ExistingPathsMembers(init, normalize, pathExists, p);
      assert forall i :: 0 <= i < |init| ==> init[i] == filePaths[i];
      if pathExists(p) && exists i :: 0 <= i < |filePaths| && normalize(filePaths[i]) == p {
        var i :| 0 <= i < |filePaths| && normalize(filePaths[i]) == p;
        if i < |init| {
          assert normalize(init[i]) == p;
        }
      }
    }
  }

  /** The filter keeps the input order: filtering a concatenation concatenates the filtered parts. */
  lemma {:induction false} ExistingPathsAppend(a: seq<string>, b: seq<string>, normalize: string -> string, pathExists: string -> bool)
    ensures ExistingPaths(a + b, normalize, pathExists) == ExistingPaths(a, normalize, pathExists) + ExistingPaths(b, normalize, pathExists)
    decreases |b|
  {
    if b == [] {
      assert a + b == a;
    } else {
      var b' := b[..|b| - 1];
      assert (a + b)[..|a + b| - 1] == a + b';
      ExistingPathsAppend(a, b', normalize, pathExists);
    }
  }

  /** A path that does not exist is skipped without affecting the others. */
  lemma MissingPathSkipped(a: seq<string>, p: string, b: seq<string>, normalize: string -> string, pathExists: string -> bool)
    requires !pathExists(normalize(p))
    ensures ExistingPaths(a + [p] + b, normalize, pathExists) == ExistingPaths(a + b, normalize, pathExists)
  {
    ExistingPathsAppend(a + [p], b, normalize, pathExists);
    ExistingPathsAppend(a, [p], normalize, pathExists);
    ExistingPathsAppend(a, b, normalize, pathExists);
    assert [p][..0] == [];
  }

  /** When every path exists, all of them are kept, normalized, in order. */
  lemma {:induction false} ExistingPathsAll(filePaths: seq<string>, normalize: string -> string, pathExists: string -> bool)
    requires forall i :: 0 <= i < |filePaths| ==> pathExists(normalize(filePaths[i]))
    ensures var valid := ExistingPaths(filePaths, normalize, pathExists);
      |valid| == |filePaths| && forall i :: 0 <= i < |filePaths| ==> valid[i] == normalize(filePaths[i])
    decreases |filePaths|
  {
    if filePaths != [] {
      var init := filePaths[..|filePaths| - 1];
      assert forall i :: 0 <= i < |init| ==> init[i] == filePaths[i];
      ExistingPathsAll(init, normalize, pathExists);
    }
  }

  // ---------------------------------------------------------------- the layout

  lemma HeaderLayout()
    ensures |Header()| == HEADER_SIZE
    ensures Word(Header(), 0) == HEADER_SIZE
    ensures Word(Header(), 1) == 0 && Word(Header(), 2) == 0
    ensures Word(Header(), 3) == 0
    ensures Word(Header(), 4) == 1
  {
    var h := Header();
    assert h[0..4] == Le32(20);
    assert h[4..8] == Le32(0);
    assert h[8..12] == Le32(0);
    assert h[12..16] == Le32(0);
    assert h[16..20] == Le32(1);
  }

  /** The payload starts with the header, whose first word points just past it, and announces UTF-16 names. */
  lemma PayloadHeader(paths: seq<string>)
    ensures |Payload(paths)| >= HEADER_SIZE && Payload(paths)[..HEADER_SIZE] == Header()
    ensures Word(Payload(paths), 0) == HEADER_SIZE && Word(Payload(paths), 4) == 1
  {
    HeaderLayout();
    var data := Payload(paths);
    assert data[..HEADER_SIZE] == Header();
    assert data[0..4] == Header()[0..4];
    assert data[16..20] == Header()[16..20];
  }

  /** The number of UTF-16 code units of all the paths. */
  function Units(paths: seq<string>): nat {
    if paths == [] then 0 else |Utf16(paths[0])| + Units(paths[1..])
  }

  lemma Utf16TwoNuls()
    ensures Utf16([NUL, NUL]) == [0, 0]
  {
    Utf16Nul();
    Utf16Append([NUL], [NUL]);
    assert [NUL] + [NUL] == [NUL, NUL];
  }

  /** The NUL separators take one code unit each. */
  lemma {:induction false} Utf16JoinLength(paths: seq<string>)
    requires |paths| >= 1
    ensures |Utf16(Join(paths, NUL))| == Units(paths) + |paths| - 1
  {
    if |paths| > 1 {
      Utf16JoinLength(paths[1..]);
      Utf16Append(paths[0] + [NUL], Join(paths[1..], NUL));
      Utf16Append(paths[0], [NUL]);
      Utf16Nul();
    }
  }

  /** On the Basic Multilingual Plane each character is one code unit. */
  lemma {:induction false} UnitsBmp(paths: seq<string>)
    requires forall i :: 0 <= i < |paths| ==> InBmp(paths[i])
    ensures Units(paths) == TotalLength(paths)
  {
    if paths != [] {
      Utf16LengthBmp(paths[0]);
      UnitsBmp(paths[1..]);
    }
  }

  /** The list is the joined paths and two NULs, two bytes per code unit, after the 20-byte header. */
  lemma PayloadLength(paths: seq<string>)
    requires |paths| >= 1
    ensures |Payload(paths)| == HEADER_SIZE + 2 * (Units(paths) + |paths| + 1)
  {
    Utf16Append(Join(paths, NUL), [NUL, NUL]);
    Utf16TwoNuls();
    Utf16JoinLength(paths);
    HeaderLayout();
  }

  /** For paths on the Basic Multilingual Plane: 20 + 2 * (total length + number of paths + 1). */
  lemma PayloadLengthBmp(paths: seq<string>)
    requires |paths| >= 1
    requires forall i :: 0 <= i < |paths| ==> InBmp(paths[i])
    ensures |Payload(paths)| == HEADER_SIZE + 2 * (TotalLength(paths) + |paths| + 1)
  {
    PayloadLength(paths);
    UnitsBmp(paths);
  }

  /** The payload ends in four zero bytes: the final NUL of the last path and the terminating NUL. */
  lemma PayloadEndsInZeros(paths: seq<string>)
    ensures |Payload(paths)| >= 4 && Payload(paths)[|Payload(paths)| - 4..] == [0, 0, 0, 0]
  {
    Utf16Append(Join(paths, NUL), [NUL, NUL]);
    Utf16TwoNuls();
    var u := Utf16(Join(paths, NUL));
    Utf16LeAppend(u, [0, 0]);
    assert Utf16Le([0, 0]) == [0, 0, 0, 0] by {
      assert Utf16Le([0, 0])[2..] == Utf16Le([0]);
      assert [0 as CodeUnit, 0][1..] == [0];
      assert [0 as CodeUnit][1..] == [];
    }
    var data := Payload(paths);
    assert data == Header() + Utf16Le(u) + [0, 0, 0, 0];
  }

  // ---------------------------------------------------------------- reading it back

  /** NUL-terminated strings up to the empty one; `None` when a string is not terminated. */
  function SplitTerminated(s: string): Option<seq<string>>
    decreases |s|
  {
    var k := IndexOf(s, NUL);
    if k == |s| then None
    else if k == 0 then Some([])
    else
      match SplitTerminated(s[k + 1..])
      case None => None
      case Some(rest) => Some([s[..k]] + rest)
  }

  /**
   * The receiving side: the file list is read at the offset of the first word, as UTF-16LE
   * since `fWide` is set, up to the empty name.
   */
  function ReadDropFiles(data: seq<Byte>): Option<seq<string>> {
    if |data| < HEADER_SIZE then None
    else
      var offset := Word(data, 0);
      if Word(data, 4) != 1 || offset < HEADER_SIZE || offset > |data| || (|data| - offset) % 2 != 0 then None
      else
        match DecodeUtf16(DecodeUtf16Le(data[offset..]))
        case None => None
        case Some(text) => SplitTerminated(text)
  }

  /** A path a reader can get back: not empty (the empty name ends the list) and without NUL. */
  predicate IsListable(p: string) {
    p != "" && NUL !in p
  }

  lemma {:induction false} SplitFileList(paths: seq<string>)
    requires |paths| >= 1
    requires forall i :: 0 <= i < |paths| ==> IsListable(paths[i])
    ensures SplitTerminated(FileList(paths)) == Some(paths)
  {
    var s := FileList(paths);
    var p := paths[0];
    if |paths| == 1 {
      assert s == p + [NUL] + [NUL];
      IndexOfAfterFree(p, NUL, [NUL]);
      assert s[|p| + 1..] == [NUL];
      assert SplitTerminated([NUL]) == Some([]);
      assert s[..|p|] == p;
      assert [p] + [] == paths;
    } else {
      var rest := FileList(paths[1..]);
      assert s == p + [NUL] + rest;
      IndexOfAfterFree(p, NUL, rest);
      assert s[|p| + 1..] == rest;
      SplitFileList(paths[1..]);
      assert s[..|p|] == p;
      assert [p] + paths[1..] == paths;
    }
  }

  /** Reading the payload gives back exactly the paths it was built from. */
  lemma ReadPayload(paths: seq<string>)
    requires |paths| >= 1
    requires forall i :: 0 <= i < |paths| ==> IsListable(paths[i])
    ensures ReadDropFiles(Payload(paths)) == Some(paths)
  {
    PayloadHeader(paths);
    PayloadText(paths);
    SplitFileList(paths);
  }

  /** After the header, the payload decodes as UTF-16LE to the file list. */
  lemma PayloadText(paths: seq<string>)
    ensures |Payload(paths)| >= HEADER_SIZE && (|Payload(paths)| - HEADER_SIZE) % 2 == 0
    ensures DecodeUtf16(DecodeUtf16Le(Payload(paths)[HEADER_SIZE..])) == Some(FileList(paths))
  {
    HeaderLayout();
    var u := Utf16(FileList(paths));
    assert Payload(paths)[HEADER_SIZE..] == Utf16Le(u);
    DecodeUtf16LeInverse(u);
    DecodeUtf16Inverse(FileList(paths));
  }

  /** What is offered to the clipboard reads back as the existing paths. */
  lemma DropDataReadsBack(filePaths: seq<string>, normalize: string -> string, pathExists: string -> bool)
    requires forall i :: 0 <= i < |filePaths| ==> IsListable(normalize(filePaths[i]))
    ensures DropData(filePaths, normalize, pathExists).Some? ==>
      ReadDropFiles(DropData(filePaths, normalize, pathExists).value) == Some(ExistingPaths(filePaths, normalize, pathExists))
  {
    var valid := ExistingPaths(filePaths, normalize, pathExists);
    if DropData(filePaths, normalize, pathExists).Some? {
      forall j | 0 <= j < |valid|
        ensures IsListable(valid[j])
      {
        assert valid[j] in valid;
        ExistingPathsMembers(filePaths, normalize, pathExists, valid[j]);
      }
      ReadPayload(valid);
    }
  }

  /** One missing and one existing path: the payload lists only the existing one. */
  lemma MissingThenExisting(missing: string, present: string, normalize: string -> string, pathExists: string -> bool)
    requires !pathExists(normalize(missing)) && pathExists(normalize(present))
    ensures DropData([missing, present], normalize, pathExists) == Some(Payload([normalize(present)]))
  {
    assert [missing, present][..1] == [missing];
    assert [missing][..0] == [];
    assert ExistingPaths([missing], normalize, pathExists) == [];
    assert ExistingPaths([missing, present], normalize, pathExists) == [normalize(present)];
  }
}
