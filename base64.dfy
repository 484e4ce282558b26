/**
 * The standard Base64 encoding of section 4 of RFC 4648 (alphabet `A-Z a-z 0-9 + /`,
 * `=` padding, no line breaks), which is what `base64.b64encode` produces, and a decoder for it.
 */
module Base64 {

  import opened Wrappers
  import opened Octets

  const PAD: char := '='

  /** The letter for a 6-bit value, per table 1 of section 4 of RFC 4648. */
  function Symbol(v: int): (c: char)
    requires 0 <= v < 64
    ensures SymbolValue(c) == v
  {
    if v < 26 then ('A' as int + v) as char
    else if v < 52 then ('a' as int + v - 26) as char
    else if v < 62 then ('0' as int + v - 52) as char
    else if v == 62 then '+'
    else '/'
  }

  /** The 6-bit value of a letter of the alphabet, or -1 for any other character. */
  function SymbolValue(c: char): int {
    if 'A' <= c <= 'Z' then c as int - 'A' as int
    else if 'a' <= c <= 'z' then c as int - 'a' as int + 26
    else if '0' <= c <= '9' then c as int - '0' as int + 52
    else if c == '+' then 62
    else if c == '/' then 63
    else -1
  }

  /** A character that may appear in encoded text: a letter of the alphabet or the pad. */
  predicate IsBase64Char(c: char) {
    SymbolValue(c) >= 0 || c == PAD
  }

  // The four 6-bit values of a group of bytes x, y, z (the top 6 bits of x first).

  function Sextet0(x: int): (v: int)
    requires 0 <= x < 0x100
    ensures 0 <= v < 64
  {
    x / 4
  }

  function Sextet1(x: int, y: int): (v: int)
    requires 0 <= x < 0x100 && 0 <= y < 0x100
    ensures 0 <= v < 64
  {
    x % 4 * 16 + y / 16
  }

  function Sextet2(y: int, z: int): (v: int)
    requires 0 <= y < 0x100 && 0 <= z < 0x100
    ensures 0 <= v < 64
  {
    y % 16 * 4 + z / 64
  }

  function Sextet3(z: int): (v: int)
    requires 0 <= z < 0x100
    ensures 0 <= v < 64
  {
    z % 64
  }

  // The three bytes carried by four 6-bit values.

  function Octet0(v0: int, v1: int): (x: Byte)
    requires 0 <= v0 < 64 && 0 <= v1 < 64
  {
    (v0 * 4 + v1 / 16) as Byte
  }

  function Octet1(v1: int, v2: int): (y: Byte)
    requires 0 <= v1 < 64 && 0 <= v2 < 64
  {
    (v1 % 16 * 16 + v2 / 4) as Byte
  }

  function Octet2(v2: int, v3: int): (z: Byte)
    requires 0 <= v2 < 64 && 0 <= v3 < 64
  {
    (v2 % 4 * 64 + v3) as Byte
  }

  /** The four letters of a full 3-byte group. */
  function Quantum(x: int, y: int, z: int): string
    requires 0 <= x < 0x100 && 0 <= y < 0x100 && 0 <= z < 0x100
  {
    [Symbol(Sextet0(x)), Symbol(Sextet1(x, y)), Symbol(Sextet2(y, z)), Symbol(Sextet3(z))]
  }

  /** `base64.b64encode(b).decode()`: groups of 3 bytes become 4 letters; a final 1 or 2 bytes are padded. */
  function Encode(b: seq<Byte>): (s: string)
    ensures |s| == 4 * ((|b| + 2) / 3)
    decreases |b|
  {
    if |b| == 0 then ""
    else if |b| == 1 then
      [Symbol(Sextet0(b[0] as int)), Symbol(Sextet1(b[0] as int, 0)), PAD, PAD]
    else if |b| == 2 then
      [Symbol(Sextet0(b[0] as int)), Symbol(Sextet1(b[0] as int, b[1] as int)), Symbol(Sextet2(b[1] as int, 0)), PAD]
    else
      Quantum(b[0] as int, b[1] as int, b[2] as int) + Encode(b[3..])
  }

  /**
   * The bytes of one block of four characters: three, or fewer when the block ends in padding,
   * which only the last block may; `None` when a character is out of place.
   */
  function DecodeBlock(c0: char, c1: char, c2: char, c3: char, last: bool): Option<seq<Byte>> {
    var v0, v1, v2, v3 := SymbolValue(c0), SymbolValue(c1), SymbolValue(c2), SymbolValue(c3);
    if v0 < 0 || v1 < 0 then None
    else if last && c2 == PAD && c3 == PAD then Some([Octet0(v0, v1)])
    else if last && v2 >= 0 && c3 == PAD then Some([Octet0(v0, v1), Octet1(v1, v2)])
    else if v2 < 0 || v3 < 0 then None
    else Some([Octet0(v0, v1), Octet1(v1, v2), Octet2(v2, v3)])
  }

  /** Decodes padded Base64 text; `None` when a character is out of place or the length is not a multiple of 4. */
  function Decode(s: string): Option<seq<Byte>>
    decreases |s|
  {
    if |s| == 0 then Some([])
    else if |s| < 4 then None
    else
      match DecodeBlock(s[0], s[1], s[2], s[3], |s| == 4)
      case None => None
      case Some(block) =>
        match Decode(s[4..])
        case None => None
        case Some(rest) => Some(block + rest)
  }

  /** The bit arithmetic of one group: the 6-bit values of three bytes put back together give the bytes. */
  lemma Regroup(x: int, y: int, z: int)
    requires 0 <= x < 0x100 && 0 <= y < 0x100 && 0 <= z < 0x100
    ensures Octet0(Sextet0(x), Sextet1(x, y)) as int == x
    ensures Octet1(Sextet1(x, y), Sextet2(y, z)) as int == y
    ensures Octet2(Sextet2(y, z), Sextet3(z)) as int == z
  {
  }

  /** A final single byte, padded with two `=`, decodes back. */
  lemma DecodeOneByte(b: seq<Byte>)
    requires |b| == 1
    ensures Decode(Encode(b)) == Some(b)
  {
    var x := b[0] as int;
    var s := Encode(b);
    assert s == [Symbol(Sextet0(x)), Symbol(Sextet1(x, 0)), PAD, PAD];
    assert s[4..] == [];
    var o0 := Octet0(Sextet0(x), Sextet1(x, 0));
    assert DecodeBlock(s[0], s[1], s[2], s[3], true) == Some([o0]);
    assert o0 == b[0] by {
      Regroup(x, 0, 0);
    }
    assert Decode(s[4..]) == Some([]);
    assert Decode(s) == Some([o0] + []);
    assert [o0] + [] == b;
  }

  /** A final pair of bytes, padded with one `=`, decodes back. */
  lemma DecodeTwoBytes(b: seq<Byte>)
    requires |b| == 2
    ensures Decode(Encode(b)) == Some(b)
  {
    var x, y := b[0] as int, b[1] as int;
    var s := Encode(b);
    assert s == [Symbol(Sextet0(x)), Symbol(Sextet1(x, y)), Symbol(Sextet2(y, 0)), PAD];
    assert s[4..] == [];
    assert s[2] != PAD;
    var o0, o1 := Octet0(Sextet0(x), Sextet1(x, y)), Octet1(Sextet1(x, y), Sextet2(y, 0));
    assert DecodeBlock(s[0], s[1], s[2], s[3], true) == Some([o0, o1]);
    assert o0 == b[0] && o1 == b[1] by {
      Regroup(x, y, 0);
    }
    assert Decode(s[4..]) == Some([]);
    assert Decode(s) == Some([o0, o1] + []);
    assert [o0, o1] + [] == b;
  }

  /** The four letters of a full group decode, as a block, to the group's three bytes. */
  lemma DecodeQuantumBlock(x: Byte, y: Byte, z: Byte, last: bool)
    ensures var q := Quantum(x as int, y as int, z as int);
      DecodeBlock(q[0], q[1], q[2], q[3], last) == Some([x, y, z])
  {
    var a, b, c := x as int, y as int, z as int;
    var q := Quantum(a, b, c);
    var o0, o1, o2 := Octet0(Sextet0(a), Sextet1(a, b)), Octet1(Sextet1(a, b), Sextet2(b, c)), Octet2(Sextet2(b, c), Sextet3(c));
    assert q[3] != PAD;
    assert DecodeBlock(q[0], q[1], q[2], q[3], last) == Some([o0, o1, o2]);
    assert o0 == x && o1 == y && o2 == z by {
      Regroup(a, b, c);
    }
  }

  /** A block that decodes, in front of text that decodes, decodes to the concatenation. */
  lemma DecodeCons(q: string, r: string, block: seq<Byte>, rest: seq<Byte>)
    requires |q| == 4
    requires DecodeBlock(q[0], q[1], q[2], q[3], r == []) == Some(block)
    requires Decode(r) == Some(rest)
    ensures Decode(q + r) == Some(block + rest)
  {
    var s := q + r;
    assert s[4..] == r;
    assert s[0] == q[0] && s[1] == q[1] && s[2] == q[2] && s[3] == q[3];
  }

  lemma SplitGroup(b: seq<Byte>)
    requires |b| >= 3
    ensures b == [b[0], b[1], b[2]] + b[3..]
  {
  }

  /** Decoding the encoding of any byte sequence gives it back. */
  lemma {:induction false} DecodeEncode(b: seq<Byte>)
    ensures Decode(Encode(b)) == Some(b)
    decreases |b|
  {
    if |b| == 1 {
      DecodeOneByte(b);
    } else if |b| == 2 {
      DecodeTwoBytes(b);
    } else if |b| >= 3 {
      var q, r := Quantum(b[0] as int, b[1] as int, b[2] as int), Encode(b[3..]);
      assert Encode(b) == q + r;
      DecodeQuantumBlock(b[0], b[1], b[2], r == []);
      DecodeEncode(b[3..]);
      DecodeCons(q, r, [b[0], b[1], b[2]], b[3..]);
      SplitGroup(b);
    }
  }

  /** Encoded text holds only letters of the alphabet and the pad. */
  lemma {:induction false} EncodeAlphabet(b: seq<Byte>)
    ensures forall i :: 0 <= i < |Encode(b)| ==> IsBase64Char(Encode(b)[i])
    decreases |b|
  {
    if |b| >= 3 {
      EncodeAlphabet(b[3..]);
      var q := Quantum(b[0] as int, b[1] as int, b[2] as int);
      assert Encode(b) == q + Encode(b[3..]);
      assert forall i :: 0 <= i < 4 ==> IsBase64Char(q[i]);
    }
  }

  /** The bytes of "Man" encode to "TWFu". */
  lemma EncodeMan()
    ensures Encode([0x4D, 0x61, 0x6E]) == "TWFu"
  {
    assert Encode([0x4D, 0x61, 0x6E][3..]) == "";
  }

  /** Padding: one leftover byte takes two pad characters, two leftover bytes take one. */
  lemma EncodePadding()
    ensures Encode([0x4D]) == "TQ=="
    ensures Encode([0x4D, 0x61]) == "TWE="
  {
  }
}
