/**
 * Bytes, 16-bit code units and the two encodings the clipboard payload is made of:
 * 32-bit little-endian words (`struct.pack("I", ...)` on Windows) and UTF-16LE text
 * (`str.encode("utf-16le")`), each with its decoder.
 */
module Octets {

  import opened Wrappers

  newtype Byte = b: int | 0 <= b < 0x100

  newtype CodeUnit = u: int | 0 <= u < 0x1_0000

  /** An unsigned 32-bit `int`, the C type behind format letter `I`. */
  predicate IsWord(w: int) {
    0 <= w < 0x1_0000_0000
  }

  /** The 4 bytes of a 32-bit word, least significant first. */
  function Le32(w: int): (r: seq<Byte>)
    requires IsWord(w)
    ensures |r| == 4
    ensures DecodeLe32(r) == w
  {
    var q1 := w / 0x100;
    var q2 := q1 / 0x100;
    var q3 := q2 / 0x100;
    assert w == w % 0x100 + 0x100 * q1;
    assert q1 == q1 % 0x100 + 0x100 * q2;
    assert q2 == q2 % 0x100 + 0x100 * q3;
    [(w % 0x100) as Byte, (q1 % 0x100) as Byte, (q2 % 0x100) as Byte, q3 as Byte]
  }

  /** The value of 4 little-endian bytes. */
  function DecodeLe32(b: seq<Byte>): int
    requires |b| == 4
  {
    b[0] as int + 0x100 * b[1] as int + 0x1_0000 * b[2] as int + 0x100_0000 * b[3] as int
  }

  // ---------------------------------------------------------------- UTF-16

  /** The UTF-16 code units of one character: itself below U+10000, otherwise a surrogate pair. */
  function CharUnits(c: char): (u: seq<CodeUnit>)
    ensures 1 <= |u| <= 2
    ensures |u| == 1 <==> c as int < 0x1_0000
  {
    var v := c as int;
    if v < 0x1_0000 then [v as CodeUnit]
    else [(0xD800 + (v - 0x1_0000) / 0x400) as CodeUnit, (0xDC00 + (v - 0x1_0000) % 0x400) as CodeUnit]
  }

  /** A string as UTF-16 code units. */
  function Utf16(s: string): seq<CodeUnit> {
    if s == [] then [] else CharUnits(s[0]) + Utf16(s[1..])
  }

  predicate IsHighSurrogate(u: CodeUnit) {
    0xD800 <= u < 0xDC00
  }

  predicate IsLowSurrogate(u: CodeUnit) {
    0xDC00 <= u < 0xE000
  }

  /** UTF-16 code units back to a string; `None` on a lone surrogate. */
  function DecodeUtf16(u: seq<CodeUnit>): Option<string>
    decreases |u|
  {
    if u == [] then Some("")
    else if IsHighSurrogate(u[0]) then
      if |u| >= 2 && IsLowSurrogate(u[1]) then
        var c := (0x1_0000 + (u[0] as int - 0xD800) * 0x400 + (u[1] as int - 0xDC00)) as char;
        match DecodeUtf16(u[2..])
        case None => None
        case Some(rest) => Some([c] + rest)
      else None
    else if IsLowSurrogate(u[0]) then None
    else
      match DecodeUtf16(u[1..])
      case None => None
      case Some(rest) => Some([u[0] as char] + rest)
  }

  /** Characters below U+10000 (the Basic Multilingual Plane) take one code unit each. */
  predicate InBmp(s: string) {
    forall i :: 0 <= i < |s| ==> s[i] as int < 0x1_0000
  }

  lemma {:induction false} Utf16Append(a: string, b: string)
    ensures Utf16(a + b) == Utf16(a) + Utf16(b)
  {
    if a == [] {
      assert a + b == b;
    } else {
      assert (a + b)[1..] == a[1..] + b;
      Utf16Append(a[1..], b);
    }
  }

  /** One code unit per character exactly on the Basic Multilingual Plane. */
  lemma {:induction false} Utf16LengthBmp(s: string)
    requires InBmp(s)
    ensures |Utf16(s)| == |s|
  {
    if s != [] {
      Utf16LengthBmp(s[1..]);
    }
  }

  /** NUL is the single code unit 0. */
  lemma Utf16Nul()
    ensures Utf16("\0") == [0]
  {
    assert "\0"[1..] == "";
  }

  /** Decoding UTF-16 gives back the string. */
  lemma {:induction false} DecodeUtf16Inverse(s: string)
    ensures DecodeUtf16(Utf16(s)) == Some(s)
  {
    if s != [] {
      var u := Utf16(s);
      var head := CharUnits(s[0]);
      assert u == head + Utf16(s[1..]);
      DecodeUtf16Inverse(s[1..]);
      if |head| == 1 {
        assert u[1..] == Utf16(s[1..]);
      } else {
        assert u[2..] == Utf16(s[1..]);
      }
      assert s == [s[0]] + s[1..];
    }
  }

  // ---------------------------------------------------------------- UTF-16LE

  /** `encode("utf-16le")` of the code units: low byte, then high byte, per unit. */
  function Utf16Le(u: seq<CodeUnit>): (r: seq<Byte>)
    ensures |r| == 2 * |u|
  {
    if u == [] then []
    else [(u[0] as int % 0x100) as Byte, (u[0] as int / 0x100) as Byte] + Utf16Le(u[1..])
  }

  /** Pairs of bytes back to code units. */
  function DecodeUtf16Le(b: seq<Byte>): seq<CodeUnit>
    requires |b| % 2 == 0
  {
    if b == [] then [] else [(b[0] as int + 0x100 * b[1] as int) as CodeUnit] + DecodeUtf16Le(b[2..])
  }

  lemma {:induction false} Utf16LeAppend(a: seq<CodeUnit>, b: seq<CodeUnit>)
    ensures Utf16Le(a + b) == Utf16Le(a) + Utf16Le(b)
  {
    if a == [] {
      assert a + b == b;
    } else {
      assert (a + b)[1..] == a[1..] + b;
      Utf16LeAppend(a[1..], b);
    }
  }

  lemma {:induction false} DecodeUtf16LeInverse(u: seq<CodeUnit>)
    ensures DecodeUtf16Le(Utf16Le(u)) == u
  {
    if u != [] {
      DecodeUtf16LeInverse(u[1..]);
      assert Utf16Le(u)[2..] == Utf16Le(u[1..]);
    }
  }
}
