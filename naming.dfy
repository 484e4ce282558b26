/**
 * The names of the files the converters write: the stem of the source name (its `splitext`
 * root) followed by `.base64.txt`, with the date in between in the dated variant, and the
 * choice of the directory they are written to.
 */
module Naming {

  import opened Text
  import opened WinPath

  /** Every converted file ends in this, and the listing of converted files looks for it. */
  const SUFFIX: string := ".base64.txt"

  /** `Undated` names the output `stem.base64.txt`; `Dated(d)` names it `stem-d.base64.txt`. */
  datatype Style = Undated | Dated(date: string)

  /** The text of `datetime.date`: `YYYY-MM-DD`. */
  predicate IsIsoDate(d: string) {
    |d| == 10 && d[4] == '-' && d[7] == '-' &&
    forall i :: 0 <= i < 10 && i != 4 && i != 7 ==> '0' <= d[i] <= '9'
  }

  /** The name of the output file for a source file called `name`. */
  function OutputName(style: Style, name: string): string {
    match style
    case Undated => Stem(name) + SUFFIX
    case Dated(date) => Stem(name) + "-" + date + SUFFIX
  }

  /** Where output goes: the chosen save directory, or `fallback` when none was chosen. */
  function SaveDir(userPath: string, fallback: string): string {
    if userPath != "" then userPath else fallback
  }

  /** A stem is a prefix of its name. */
  lemma StemPrefix(name: string)
    ensures |Stem(name)| <= |name| && Stem(name) == name[..|Stem(name)|]
  {
    SplitExtParts(name);
    assert name == Stem(name) + SplitExt(name).1;
  }

  /** Every output name ends in `.base64.txt`, so the listing of converted files picks it up. */
  lemma OutputNameSuffix(style: Style, name: string)
    ensures EndsWith(OutputName(style, name), SUFFIX)
  {
    var r := OutputName(style, name);
    assert r[|r| - |SUFFIX|..] == SUFFIX;
  }

  /** An output name starts with the stem of the source name. */
  lemma OutputNameStem(style: Style, name: string)
    ensures var r := OutputName(style, name);
      |Stem(name)| <= |r| && r[..|Stem(name)|] == Stem(name)
  {
    var r := OutputName(style, name);
    assert r == Stem(name) + r[|Stem(name)|..];
  }

  /** Without a date, two sources get the same output name exactly when they have the same stem. */
  lemma UndatedNamesCollide(a: string, b: string)
    ensures OutputName(Undated, a) == OutputName(Undated, b) <==> Stem(a) == Stem(b)
  {
    if OutputName(Undated, a) == OutputName(Undated, b) {
      var r := OutputName(Undated, a);
      assert Stem(a) == r[..|r| - |SUFFIX|];
      assert Stem(b) == r[..|r| - |SUFFIX|];
    }
  }

  /** With dates of one length, two dated names agree exactly when stems and dates agree. */
  lemma DatedNamesDistinct(a: string, da: string, b: string, db: string)
    requires |da| == |db|
    ensures OutputName(Dated(da), a) == OutputName(Dated(db), b) <==> Stem(a) == Stem(b) && da == db
  {
    if OutputName(Dated(da), a) == OutputName(Dated(db), b) {
      var r := OutputName(Dated(da), a);
      var n := |r| - |SUFFIX| - |da| - 1;
      assert Stem(a) == r[..n] && Stem(b) == r[..n];
      assert da == r[n + 1..|r| - |SUFFIX|] && db == r[n + 1..|r| - |SUFFIX|];
    }
  }

  /** `a.docx` and `a.pdf` are both written to `a.base64.txt`: the second overwrites the first. */
  lemma SameStemExample()
    ensures OutputName(Undated, "a.docx") == OutputName(Undated, "a.pdf") == "a.base64.txt"
  {
    TailStartAt("a.docx", 0, 0);
    assert "a.docx"[0..] == "a.docx";
    LastIndexAt("a.docx", '.', 1);
    assert HasNonDot("a.docx", 0, 1) by { assert "a.docx"[0] != '.'; }
    assert ExtensionStart("a.docx") == 1;
    TailStartAt("a.pdf", 0, 0);
    assert "a.pdf"[0..] == "a.pdf";
    LastIndexAt("a.pdf", '.', 1);
    assert HasNonDot("a.pdf", 0, 1) by { assert "a.pdf"[0] != '.'; }
    assert ExtensionStart("a.pdf") == 1;
    assert Stem("a.docx") == "a" == Stem("a.pdf");
  }

  /** The dated example of the program's help text. */
  lemma DatedExample()
    ensures IsIsoDate("2025-04-05")
    ensures OutputName(Dated("2025-04-05"), "doc.docx") == "doc-2025-04-05.base64.txt"
  {
    TailStartAt("doc.docx", 0, 0);
    assert "doc.docx"[0..] == "doc.docx";
    LastIndexAt("doc.docx", '.', 3);
    assert HasNonDot("doc.docx", 0, 3) by { assert "doc.docx"[0] != '.'; }
    assert ExtensionStart("doc.docx") == 3;
    assert Stem("doc.docx") == "doc";
  }

  /** The output name of a plain name, dated with a `YYYY-MM-DD` date, is a plain name too. */
  lemma OutputNamePlain(style: Style, name: string)
    requires IsPlainName(name)
    requires style.Dated? ==> IsIsoDate(style.date)
    ensures IsPlainName(OutputName(style, name))
  {
    StemPrefix(name);
    var r := OutputName(style, name);
    var s := Stem(name);
    assert forall i :: 0 <= i < |s| ==> s[i] == name[i];
    assert forall i :: |s| <= i < |r| ==> r[i] != '\\' && r[i] != '/' && r[i] != ':' by {
      match style
      case Undated =>
        assert forall i :: |s| <= i < |r| ==> r[i] == SUFFIX[i - |s|];
      case Dated(d) =>
        assert forall i :: |s| + 1 <= i < |s| + 11 ==> r[i] == d[i - |s| - 1];
        assert forall i :: |s| + 11 <= i < |r| ==> r[i] == SUFFIX[i - |s| - 11];
    }
  }

  /** The file written to `join(dir, OutputName(...))` has the output name as its base name. */
  lemma OutputPathBasename(dir: string, style: Style, name: string)
    requires IsPlainName(name)
    requires style.Dated? ==> IsIsoDate(style.date)
    ensures Basename(JoinPath(dir, OutputName(style, name))) == OutputName(style, name)
  {
    OutputNamePlain(style, name);
    BasenameJoin(dir, OutputName(style, name));
  }
}
