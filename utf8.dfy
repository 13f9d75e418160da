/** UTF-8, as Rust's `String::into_bytes` and `str::as_bytes` expose it:
    a `char` here is a Unicode scalar value, encoded in one to four bytes
    (section 3 of RFC 3629). The decoder accepts only the shortest form of
    each scalar value, as that section requires; it is the partner that
    shows the encoding loses nothing and that a string has one encoding. */
module Utf8 {
  import opened Common

  predicate IsContinuation(b: byte) {
    0x80 <= b < 0xC0
  }

  function EncodeChar(c: char): (r: Bytes)
    ensures 1 <= |r| <= 4
  {
    var cp := c as int;
    if cp < 0x80 then
      [cp]
    else if cp < 0x800 then
      [0xC0 + cp / 0x40, 0x80 + cp % 0x40]
    else if cp < 0x1_0000 then
      [0xE0 + cp / 0x1000, 0x80 + cp / 0x40 % 0x40, 0x80 + cp % 0x40]
    else
      [0xF0 + cp / 0x4_0000, 0x80 + cp / 0x1000 % 0x40, 0x80 + cp / 0x40 % 0x40, 0x80 + cp % 0x40]
  }

  function Encode(s: string): (r: Bytes)
  {
    if s == [] then [] else EncodeChar(s[0]) + Encode(s[1..])
  }

  /** The smallest code point that needs `width` bytes: a smaller one read
      from that many bytes is an overlong form, which UTF-8 forbids. */
  function MinOfWidth(width: nat): int {
    if width <= 1 then 0 else if width == 2 then 0x80 else if width == 3 then 0x800 else 0x1_0000
  }

  /** The scalar value `cp`, if it is one and was read from its shortest
      form, paired with the width it was read from. */
  function Scalar(cp: int, width: nat): Option<(char, nat)>
  {
    if MinOfWidth(width) <= cp && (0 <= cp < 0xD800 || 0xE000 <= cp < 0x11_0000) then Some((cp as char, width)) else None
  }

  /** Reads one character from the front of `b`, with the number of bytes it took. */
  function DecodeChar(b: Bytes): (r: Option<(char, nat)>)
    ensures r.Some? ==> 1 <= r.value.1 <= |b|
  {
    if |b| == 0 then
      None
    else if b[0] < 0x80 then
      Some((b[0] as char, 1))
    else if 0xC0 <= b[0] < 0xE0 && |b| >= 2 && IsContinuation(b[1]) then
      Scalar((b[0] as int - 0xC0) * 0x40 + (b[1] as int - 0x80), 2)
    else if 0xE0 <= b[0] < 0xF0 && |b| >= 3 && IsContinuation(b[1]) && IsContinuation(b[2]) then
      Scalar((b[0] as int - 0xE0) * 0x1000 + (b[1] as int - 0x80) * 0x40 + (b[2] as int - 0x80), 3)
    else if 0xF0 <= b[0] < 0xF8 && |b| >= 4 && IsContinuation(b[1]) && IsContinuation(b[2]) && IsContinuation(b[3]) then
      Scalar((b[0] as int - 0xF0) * 0x4_0000 + (b[1] as int - 0x80) * 0x1000 + (b[2] as int - 0x80) * 0x40 + (b[3] as int - 0x80), 4)
    else
      None
  }

  function Decode(b: Bytes): (r: Option<string>)
    decreases |b|
  {
    if b == [] then
      Some([])
    else
      match DecodeChar(b)
      case None => None
      case Some((c, width)) =>
        match Decode(b[width..])
        case None => None
        case Some(rest) => Some([c] + rest)
  }

  // ---------------------------------------------------------------------
  // Six-bit groups

  /** A code point is the sum of its six-bit groups. */
  lemma SplitSixBits(cp: int)
    requires 0 <= cp
    ensures cp == cp / 0x40 * 0x40 + cp % 0x40
    ensures cp == cp / 0x1000 * 0x1000 + cp / 0x40 % 0x40 * 0x40 + cp % 0x40
    ensures cp == cp / 0x4_0000 * 0x4_0000 + cp / 0x1000 % 0x40 * 0x1000 + cp / 0x40 % 0x40 * 0x40 + cp % 0x40
  {
    var q := cp / 0x40;
    assert cp == q * 0x40 + cp % 0x40;
    assert q == q / 0x40 * 0x40 + q % 0x40;
    assert q / 0x40 == cp / 0x1000;
    var q2 := cp / 0x1000;
    assert q2 == q2 / 0x40 * 0x40 + q2 % 0x40;
    assert q2 / 0x40 == cp / 0x4_0000;
  }

  /** Reading the six-bit groups back out of a code point assembled from them. */
  lemma SixBitGroups(cp: int, x3: int, x2: int, x1: int, x0: int)
    requires 0 <= x3 && 0 <= x2 < 0x40 && 0 <= x1 < 0x40 && 0 <= x0 < 0x40
    requires cp == x3 * 0x4_0000 + x2 * 0x1000 + x1 * 0x40 + x0
    ensures cp % 0x40 == x0 && cp / 0x40 % 0x40 == x1
    ensures cp / 0x1000 % 0x40 == x2 && cp / 0x4_0000 == x3
    ensures cp / 0x40 == x3 * 0x1000 + x2 * 0x40 + x1 && cp / 0x1000 == x3 * 0x40 + x2
  {
    var q1 := x3 * 0x1000 + x2 * 0x40 + x1;
    assert cp == q1 * 0x40 + x0;
    var q2 := x3 * 0x40 + x2;
    assert q1 == q2 * 0x40 + x1;
  }

  /** The bytes of a character, from its six-bit groups. */
  lemma EncodeCharTwo(c: char, x1: int, x0: int)
    requires 0 <= x1 && 0 <= x0 < 0x40
    requires c as int == x1 * 0x40 + x0 && 0x80 <= c as int < 0x800
    ensures EncodeChar(c) == [0xC0 + x1, 0x80 + x0]
  {
    SixBitGroups(c as int, 0, 0, x1, x0);
  }

  lemma EncodeCharThree(c: char, x2: int, x1: int, x0: int)
    requires 0 <= x2 && 0 <= x1 < 0x40 && 0 <= x0 < 0x40
    requires c as int == x2 * 0x1000 + x1 * 0x40 + x0 && 0x800 <= c as int < 0x1_0000
    ensures EncodeChar(c) == [0xE0 + x2, 0x80 + x1, 0x80 + x0]
  {
    SixBitGroups(c as int, 0, x2, x1, x0);
  }

  lemma EncodeCharFour(c: char, x3: int, x2: int, x1: int, x0: int)
    requires 0 <= x3 && 0 <= x2 < 0x40 && 0 <= x1 < 0x40 && 0 <= x0 < 0x40
    requires c as int == x3 * 0x4_0000 + x2 * 0x1000 + x1 * 0x40 + x0 && 0x1_0000 <= c as int
    ensures EncodeChar(c) == [0xF0 + x3, 0x80 + x2, 0x80 + x1, 0x80 + x0]
  {
    SixBitGroups(c as int, x3, x2, x1, x0);
  }

  // ---------------------------------------------------------------------
  // Decoding an encoding

  /** The leading bytes of a character's encoding decode to that character. */
  lemma DecodeEncodeChar(c: char, rest: Bytes)
    ensures DecodeChar(EncodeChar(c) + rest) == Some((c, |EncodeChar(c)|))
  {
    var cp := c as int;
    SplitSixBits(cp);
    var b := EncodeChar(c) + rest;
    if cp < 0x80 {
    } else if cp < 0x800 {
      EncodeCharTwo(c, cp / 0x40, cp % 0x40);
      assert b[0] == 0xC0 + cp / 0x40 && b[1] == 0x80 + cp % 0x40;
    } else if cp < 0x1_0000 {
      EncodeCharThree(c, cp / 0x1000, cp / 0x40 % 0x40, cp % 0x40);
      assert b[0] == 0xE0 + cp / 0x1000 && b[1] == 0x80 + cp / 0x40 % 0x40 && b[2] == 0x80 + cp % 0x40;
    } else {
      EncodeCharFour(c, cp / 0x4_0000, cp / 0x1000 % 0x40, cp / 0x40 % 0x40, cp % 0x40);
      assert b[0] == 0xF0 + cp / 0x4_0000 && b[1] == 0x80 + cp / 0x1000 % 0x40;
      assert b[2] == 0x80 + cp / 0x40 % 0x40 && b[3] == 0x80 + cp % 0x40;
    }
  }

  /** Decoding an encoded string gives the string back. */
  lemma {:induction false} DecodeEncode(s: string)
    ensures Decode(Encode(s)) == Some(s)
  {
    if s != [] {
      var head := EncodeChar(s[0]);
      var tail := Encode(s[1..]);
      DecodeEncodeChar(s[0], tail);
      assert (head + tail)[|head|..] == tail;
      DecodeEncode(s[1..]);
      assert [s[0]] + s[1..] == s;
    }
  }

  /** Two strings with the same bytes are the same string. */
  lemma EncodeInjective(s: string, t: string)
    ensures Encode(s) == Encode(t) ==> s == t
  {
    DecodeEncode(s);
    DecodeEncode(t);
  }

  /** Every character takes between one and four bytes. */
  lemma {:induction false} EncodeLength(s: string)
    ensures |s| <= |Encode(s)| <= 4 * |s|
  {
    if s != [] {
      EncodeLength(s[1..]);
    }
  }

  // ---------------------------------------------------------------------
  // Encoding a decoding

  /** Whatever the decoder reads as one character is that character's
      encoding: it accepts no overlong or other alternative form. */
  lemma EncodeDecodeChar(b: Bytes)
    requires DecodeChar(b).Some?
    ensures EncodeChar(DecodeChar(b).value.0) == b[..DecodeChar(b).value.1]
  {
    var (c, width) := DecodeChar(b).value;
    if b[0] < 0x80 {
    } else if width == 2 {
      EncodeCharTwo(c, b[0] as int - 0xC0, b[1] as int - 0x80);
    } else if width == 3 {
      EncodeCharThree(c, b[0] as int - 0xE0, b[1] as int - 0x80, b[2] as int - 0x80);
    } else {
      EncodeCharFour(c, b[0] as int - 0xF0, b[1] as int - 0x80, b[2] as int - 0x80, b[3] as int - 0x80);
    }
  }

  /** The only bytes that decode to a string are its encoding. */
  lemma {:induction false} EncodeDecode(b: Bytes)
    requires Decode(b).Some?
    ensures Encode(Decode(b).value) == b
  {
    if b != [] {
      var (c, width) := DecodeChar(b).value;
      var head, rest := b[..width], b[width..];
      EncodeDecodeChar(b);
      EncodeDecode(rest);
      var tail := Decode(rest).value;
      assert Decode(b).value == [c] + tail;
      assert ([c] + tail)[1..] == tail;
      assert head + rest == b;
    }
  }

  /** A string has exactly one UTF-8 form: its encoding. */
  lemma DecodeUnique(s: string)
    ensures forall b :: Decode(b) == Some(s) ==> b == Encode(s)
  {
    forall b | Decode(b) == Some(s)
      ensures b == Encode(s)
    {
      EncodeDecode(b);
    }
  }

  /** The two-byte overlong form of U+0000 is rejected, and so is any byte
      string that starts with it. */
  lemma OverlongRejected(rest: Bytes)
    ensures DecodeChar([0xC0, 0x80] + rest) == None
    ensures Decode([0xC0, 0x80] + rest) == None
  {
    var b: Bytes := [0xC0, 0x80] + rest;
    assert b[0] == 0xC0 && b[1] == 0x80;
  }
}
