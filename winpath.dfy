/**
 * The parts of Python's `ntpath` (`os.path` on Windows) that the program uses on the file
 * names it builds: `basename`, `dirname`, `join` of a directory and a plain file name, and
 * `splitext`. Drives are the `X:` form; UNC `//server/share` prefixes are not modelled.
 */
module WinPath {

  /** Both `\` and `/` separate path components on Windows. */
  predicate IsSep(c: char) {
    c == '\\' || c == '/'
  }

  /** A name with no separator and no drive colon: what `os.listdir` returns and what the program builds. */
  predicate IsPlainName(name: string) {
    forall i :: 0 <= i < |name| ==> !IsSep(name[i]) && name[i] != ':'
  }

  /** The length of the drive of `splitdrive`: 2 for `X:...`, otherwise 0. */
  function DriveLength(p: string): (n: nat)
    ensures n <= |p|
  {
    if |p| >= 2 && p[1] == ':' then 2 else 0
  }

  /** The position just after the last separator at or after `from`, or `from` when there is none. */
  function TailStart(p: string, from: nat): (i: nat)
    requires from <= |p|
    ensures from <= i <= |p|
    ensures i > from ==> IsSep(p[i - 1])
    ensures forall j :: i <= j < |p| ==> !IsSep(p[j])
    decreases |p|
  {
    if |p| == from then from
    else if IsSep(p[|p| - 1]) then |p|
    else TailStart(p[..|p| - 1], from)
  }

  /** `s.rstrip("\\/")` */
  function StripTrailingSeps(s: string): (r: string)
    ensures |r| <= |s| && r == s[..|r|]
    ensures r == [] || !IsSep(r[|r| - 1])
    ensures forall j :: |r| <= j < |s| ==> IsSep(s[j])
    decreases |s|
  {
    if s != [] && IsSep(s[|s| - 1]) then StripTrailingSeps(s[..|s| - 1]) else s
  }

  /** `ntpath.basename(p)`: what follows the last separator (and the drive). */
  function Basename(p: string): string {
    p[TailStart(p, DriveLength(p))..]
  }

  /** `ntpath.dirname(p)`: the drive, then the head without its trailing separators (unless it is all separators). */
  function Dirname(p: string): string {
    var d := DriveLength(p);
    var head := p[d..TailStart(p, d)];
    var stripped := StripTrailingSeps(head);
    p[..d] + (if stripped == "" then head else stripped)
  }

  /**
   * `ntpath.join(dir, name)` for a plain name: a backslash goes between them unless `dir` is empty,
   * already ends in a separator, or is a bare drive `X:`.
   */
  function JoinPath(dir: string, name: string): string {
    if dir == "" || IsSep(dir[|dir| - 1]) || (|dir| == 2 && dir[1] == ':') then dir + name
    else dir + "\\" + name
  }

  /** The position of the last `c` in `s`, or -1. */
  function LastIndexOf(s: string, c: char): (k: int)
    ensures -1 <= k < |s|
    ensures k >= 0 ==> s[k] == c
    ensures forall j :: k < j < |s| ==> s[j] != c
    decreases |s|
  {
    if s == [] then -1
    else if s[|s| - 1] == c then |s| - 1
    else LastIndexOf(s[..|s| - 1], c)
  }

  /** Some character of `s[lo..hi]` is not a dot. */
  predicate HasNonDot(s: string, lo: int, hi: int)
    requires 0 <= lo <= hi <= |s|
  {
    exists j :: lo <= j < hi && s[j] != '.'
  }

  /**
   * Where `splitext(p)` puts the extension: at the last dot of the last component, provided
   * that dot is not among the component's leading dots (so `.bashrc` has no extension);
   * `|p|` when there is no extension.
   */
  function ExtensionStart(p: string): (e: nat)
    ensures e <= |p|
    ensures e < |p| ==> p[e] == '.' && TailStart(p, 0) <= e && HasNonDot(p, TailStart(p, 0), e)
    ensures e < |p| ==> forall i :: e < i < |p| ==> p[i] != '.' && !IsSep(p[i])
    ensures e == |p| ==> forall i :: TailStart(p, 0) <= i < |p| && p[i] == '.' ==> !HasNonDot(p, TailStart(p, 0), i)
  {
    var start := TailStart(p, 0);
    var k := LastIndexOf(p[start..], '.');
    LastDotOfTail(p, start);
    if k >= 0 && HasNonDot(p, start, start + k) then
      start + k
    else
      NoQualifyingDot(p, start, k);
      |p|
  }

  /** The last dot of `p[start..]`, found in the tail, is the last dot of `p`; when the tail has none, no dot follows `start`. */
  lemma LastDotOfTail(p: string, start: nat)
    requires start <= |p|
    ensures var k := LastIndexOf(p[start..], '.');
      (k >= 0 ==> p[start + k] == '.' && forall i :: start + k < i < |p| ==> p[i] != '.') &&
      (k < 0 ==> forall i :: start <= i < |p| ==> p[i] != '.')
  {
    var t := p[start..];
    assert forall i :: start <= i < |p| ==> p[i] == t[i - start];
  }

  /** When the last dot at `start + k` has only dots before it in the tail, so has every dot of the tail. */
  lemma NoQualifyingDot(p: string, start: nat, k: int)
    requires start <= |p| && -1 <= k && start + k < |p|
    requires k >= 0 ==> !HasNonDot(p, start, start + k)
    requires forall i :: start + k < i < |p| ==> p[i] != '.'
    requires k < 0 ==> forall i :: start <= i < |p| ==> p[i] != '.'
    ensures forall i :: start <= i < |p| && p[i] == '.' ==> !HasNonDot(p, start, i)
  {
    if k >= 0 {
      forall i | start <= i < |p| && p[i] == '.'
        ensures !HasNonDot(p, start, i)
      {
        assert i <= start + k;
      }
    }
  }

  /** `splitext(p)`: the root and the extension. */
  function SplitExt(p: string): (string, string) {
    var e := ExtensionStart(p);
    (p[..e], p[e..])
  }

  /** The first half of `splitext`, which the program uses as the stem of output names. */
  function Stem(name: string): string {
    SplitExt(name).0
  }

  /** Root and extension put back together give the path; a non-empty extension is one dot and no further dot or separator. */
  lemma SplitExtParts(p: string)
    ensures SplitExt(p).0 + SplitExt(p).1 == p
    ensures var ext := SplitExt(p).1;
      ext == "" || (ext[0] == '.' && forall i :: 1 <= i < |ext| ==> ext[i] != '.' && !IsSep(ext[i]))
  {
    var e := ExtensionStart(p);
    assert p[..e] + p[e..] == p;
    assert forall i :: 1 <= i < |p[e..]| ==> p[e..][i] == p[e + i];
  }

  /** A path with an extension has a stem that ends just before the extension's dot, and the stem's last component is not only dots. */
  lemma SplitExtExtension(p: string)
    requires SplitExt(p).1 != ""
    ensures |Stem(p)| < |p| && p[|Stem(p)|] == '.'
    ensures exists j :: TailStart(p, 0) <= j < |Stem(p)| && p[j] != '.'
  {
  }

  /** `splitext` gives an extension exactly when the last component has a dot with a non-dot before it. */
  lemma SplitExtRule(p: string)
    ensures var start := TailStart(p, 0);
      SplitExt(p).1 != "" <==> exists i :: start <= i < |p| && p[i] == '.' && HasNonDot(p, start, i)
  {
    var e := ExtensionStart(p);
    if e < |p| {
      assert p[e..] != "" by { assert p[e..][0] == p[e]; }
    }
  }

  /** `LastIndexOf` finds the last occurrence. */
  lemma {:induction false} LastIndexAt(s: string, c: char, k: int)
    requires -1 <= k < |s|
    requires k >= 0 ==> s[k] == c
    requires forall j :: k < j < |s| ==> s[j] != c
    ensures LastIndexOf(s, c) == k
    decreases |s|
  {
    if |s| > 0 && k < |s| - 1 {
      LastIndexAt(s[..|s| - 1], c, k);
    }
  }

  /** The extension is the last dot and what follows it. */
  lemma SplitExtExamples()
    ensures SplitExt("report.docx") == ("report", ".docx")
    ensures SplitExt("archive.tar.gz") == ("archive.tar", ".gz")
  {
    TailStartAt("report.docx", 0, 0);
    assert "report.docx"[0..] == "report.docx";
    LastIndexAt("report.docx", '.', 6);
    assert HasNonDot("report.docx", 0, 6) by { assert "report.docx"[0] != '.'; }
    assert ExtensionStart("report.docx") == 6;
    assert "report.docx"[..6] == "report" && "report.docx"[6..] == ".docx";
    TailStartAt("archive.tar.gz", 0, 0);
    assert "archive.tar.gz"[0..] == "archive.tar.gz";
    LastIndexAt("archive.tar.gz", '.', 11);
    assert HasNonDot("archive.tar.gz", 0, 11) by { assert "archive.tar.gz"[0] != '.'; }
    assert ExtensionStart("archive.tar.gz") == 11;
    assert "archive.tar.gz"[..11] == "archive.tar" && "archive.tar.gz"[11..] == ".gz";
  }

  /** Leading dots do not start an extension, and a name without a dot has none. */
  lemma SplitExtNoExtension()
    ensures SplitExt(".bashrc") == (".bashrc", "")
    ensures SplitExt("README") == ("README", "")
  {
    TailStartAt(".bashrc", 0, 0);
    assert ".bashrc"[0..] == ".bashrc";
    LastIndexAt(".bashrc", '.', 0);
    assert !HasNonDot(".bashrc", 0, 0);
    assert ExtensionStart(".bashrc") == 7;
    assert ".bashrc"[..7] == ".bashrc" && ".bashrc"[7..] == "";
    TailStartAt("README", 0, 0);
    assert "README"[0..] == "README";
    LastIndexAt("README", '.', -1);
    assert ExtensionStart("README") == 6;
    assert "README"[..6] == "README" && "README"[6..] == "";
  }

  /** `TailStart` finds the last separator. */
  lemma {:induction false} TailStartAt(p: string, from: nat, cut: nat)
    requires from <= cut <= |p|
    requires cut == from || IsSep(p[cut - 1])
    requires forall j :: cut <= j < |p| ==> !IsSep(p[j])
    ensures TailStart(p, from) == cut
    decreases |p|
  {
    if |p| > cut {
      TailStartAt(p[..|p| - 1], from, cut);
    }
  }

  /** `basename(join(dir, name))` is `name` for a plain name. */
  lemma BasenameJoin(dir: string, name: string)
    requires IsPlainName(name)
    ensures Basename(JoinPath(dir, name)) == name
  {
    var p := JoinPath(dir, name);
    var cut := if dir == "" || IsSep(dir[|dir| - 1]) || (|dir| == 2 && dir[1] == ':') then |dir| else |dir| + 1;
    assert p[cut..] == name;
    assert forall j :: cut <= j < |p| ==> p[j] == name[j - cut];
    var d := DriveLength(p);
    assert d <= cut;
    TailStartAt(p, d, cut);
  }

  /** A directory that `dirname` gives back after a join: empty, a bare drive `X:`, a root, or not ending in a separator. */
  predicate IsDirnameForm(dir: string) {
    dir == "" || (|dir| == 2 && dir[1] == ':') || !IsSep(dir[|dir| - 1]) ||
    forall j :: DriveLength(dir) <= j < |dir| ==> IsSep(dir[j])
  }

  /** Stripping stops at the last character that is not a separator. */
  lemma {:induction false} StripTrailingSepsAt(s: string, n: nat)
    requires n <= |s|
    requires n == 0 || !IsSep(s[n - 1])
    requires forall j :: n <= j < |s| ==> IsSep(s[j])
    ensures StripTrailingSeps(s) == s[..n]
    decreases |s|
  {
    if |s| > n {
      StripTrailingSepsAt(s[..|s| - 1], n);
      assert s[..|s| - 1][..n] == s[..n];
    } else {
      assert s[..n] == s;
    }
  }

  /** `dirname(join(dir, name))` is `dir` for a plain name, so the one-file fallback is the source's directory. */
  lemma DirnameJoin(dir: string, name: string)
    requires IsPlainName(name)
    requires IsDirnameForm(dir)
    ensures Dirname(JoinPath(dir, name)) == dir
  {
    if dir == "" || IsSep(dir[|dir| - 1]) || (|dir| == 2 && dir[1] == ':') {
      DirnameGlued(dir, name);
    } else {
      DirnameSeparated(dir, name);
    }
  }

  /** The head before the last component loses exactly the separators from `n` on. */
  lemma StripHead(p: string, cut: nat, n: nat)
    requires DriveLength(p) <= n <= cut <= |p|
    requires n == DriveLength(p) || !IsSep(p[n - 1])
    requires forall j :: n <= j < cut ==> IsSep(p[j])
    ensures StripTrailingSeps(p[DriveLength(p)..cut]) == p[DriveLength(p)..n]
  {
    var d := DriveLength(p);
    var head := p[d..cut];
    forall j | n - d <= j < |head|
      ensures IsSep(head[j])
    {
      assert head[j] == p[d + j];
    }
    if n > d {
      assert head[n - d - 1] == p[n - 1];
    }
    StripTrailingSepsAt(head, n - d);
    assert head[..n - d] == p[d..n];
  }

  lemma PrefixConcat(p: string, d: nat, n: nat)
    requires d <= n <= |p|
    ensures p[..d] + p[d..n] == p[..n]
  {
  }

  lemma DirnameUnfold(p: string)
    ensures var d := DriveLength(p);
            var head := p[d..TailStart(p, d)];
            Dirname(p) == p[..d] + (if StripTrailingSeps(head) == "" then head else StripTrailingSeps(head))
  {
  }

  /** `dirname` once the stripped head is known to end at `n`. */
  lemma DirnameFromStrip(p: string, cut: nat, n: nat)
    requires DriveLength(p) <= n <= cut <= |p|
    requires TailStart(p, DriveLength(p)) == cut
    requires StripTrailingSeps(p[DriveLength(p)..cut]) == p[DriveLength(p)..n]
    ensures Dirname(p) == if n == DriveLength(p) then p[..cut] else p[..n]
  {
    var d := DriveLength(p);
    DirnameUnfold(p);
    if n == d {
      assert p[d..n] == [];
      PrefixConcat(p, d, cut);
    } else {
      assert |p[d..n]| > 0;
      PrefixConcat(p, d, n);
    }
  }

  /** `dirname` when the last component starts at `cut` and the separators before it start at `n`. */
  lemma DirnameOf(p: string, cut: nat, n: nat)
    requires DriveLength(p) <= n <= cut <= |p|
    requires TailStart(p, DriveLength(p)) == cut
    requires n == DriveLength(p) || !IsSep(p[n - 1])
    requires forall j :: n <= j < cut ==> IsSep(p[j])
    ensures Dirname(p) == if n == DriveLength(p) then p[..cut] else p[..n]
  {
    StripHead(p, cut, n);
    DirnameFromStrip(p, cut, n);
  }

  /** The join inserted a backslash: stripping it leaves the directory. */
  lemma DirnameSeparated(dir: string, name: string)
    requires IsPlainName(name)
    requires dir != "" && !IsSep(dir[|dir| - 1]) && !(|dir| == 2 && dir[1] == ':')
    ensures Dirname(dir + "\\" + name) == dir
  {
    var p := dir + "\\" + name;
    var n := |dir|;
    assert p[..n] == dir && p[n] == '\\';
    assert forall j :: n + 1 <= j < |p| ==> p[j] == name[j - n - 1];
    assert DriveLength(p) == DriveLength(dir) < n;
    TailStartAt(p, DriveLength(p), n + 1);
    DirnameOf(p, n + 1, n);
  }

  /** A join is at least as long as the name it ends with. */
  lemma JoinPathLength(dir: string, name: string)
    ensures |JoinPath(dir, name)| >= |name|
  {
  }

  /** Appending a plain name never creates or removes a drive. */
  lemma DriveLengthAppend(dir: string, name: string)
    requires IsPlainName(name)
    ensures DriveLength(dir + name) == DriveLength(dir)
  {
    var p := dir + name;
    if |dir| >= 2 {
      assert p[1] == dir[1];
    } else if |p| >= 2 {
      assert p[1] == name[1 - |dir|];
    }
  }

  /** The join glued the name on: the head is empty or all separators and is kept. */
  lemma DirnameGlued(dir: string, name: string)
    requires IsPlainName(name)
    requires dir == "" || (|dir| == 2 && dir[1] == ':') || (dir != "" && forall j :: DriveLength(dir) <= j < |dir| ==> IsSep(dir[j]))
    ensures Dirname(dir + name) == dir
  {
    var p := dir + name;
    var n := |dir|;
    DriveLengthAppend(dir, name);
    var d := DriveLength(p);
    forall j | n <= j < |p|
      ensures !IsSep(p[j])
    {
      assert p[j] == name[j - n];
    }
    forall j | d <= j < n
      ensures IsSep(p[j])
    {
      assert p[j] == dir[j];
    }
    if n > d {
      assert p[n - 1] == dir[n - 1];
    }
    TailStartAt(p, d, n);
    DirnameOf(p, n, d);
    assert p[..n] == dir;
  }
}
