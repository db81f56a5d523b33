/**
 * The text conversions the binary streams rely on: `String.length()` (a count
 * of UTF-16 code units), `String.getBytes(UTF_8)` and `new String(bytes, UTF_8)`.
 * A Java string is modelled as its sequence of Unicode scalar values.
 */
module Utf {
  import opened JavaInts

  /** U+FFFD, which the decoder puts in place of each malformed unit. */
  const Replacement: char := '\U{FFFD}'

  /** The number of UTF-16 code units of one character: two for a supplementary character. */
  function Utf16Width(c: char): (w: nat)
    ensures w == 1 || w == 2
  {
    if c as int < 0x1_0000 then 1 else 2
  }

  /** `String.length()` */
  function Utf16Length(s: string): (n: nat)
    ensures n >= |s|
  {
    if s == [] then 0 else Utf16Width(s[0]) + Utf16Length(s[1..])
  }

  /** The UTF-8 form of one character: one to four bytes, by code point range. */
  function EncodeChar(c: char): (bs: seq<u8>)
    ensures 1 <= |bs| <= 4
    ensures |bs| == 1 <==> c as int < 0x80
  {
    var x := c as int;
    if x < 0x80 then [x]
    else if x < 0x800 then [0xC0 + x / 0x40, 0x80 + x % 0x40]
    else if x < 0x1_0000 then [0xE0 + x / 0x1000, 0x80 + (x / 0x40) % 0x40, 0x80 + x % 0x40]
    else [0xF0 + x / 0x4_0000, 0x80 + (x / 0x1000) % 0x40, 0x80 + (x / 0x40) % 0x40, 0x80 + x % 0x40]
  }

  /** `String.getBytes(StandardCharsets.UTF_8)` */
  function Encode(s: string): (bs: seq<u8>)
    ensures |bs| >= |s|
  {
    if s == [] then [] else EncodeChar(s[0]) + Encode(s[1..])
  }

  predicate IsContinuation(b: u8)
  {
    0x80 <= b < 0xC0
  }

  /** A Unicode scalar value: a code point that is not a surrogate. */
  predicate IsScalar(x: int)
  {
    0 <= x < 0xD800 || 0xE000 <= x < 0x11_0000
  }

  /**
   * The second byte a three-byte lead accepts: a continuation byte, and at least
   * 0xA0 after 0xE0 (a shorter form is overlong). 0xED is not singled out here:
   * the surrogate it may start is rejected after decoding.
   */
  predicate SecondOf3(b0: u8, b1: u8)
  {
    IsContinuation(b1) && !(b0 == 0xE0 && b1 < 0xA0)
  }

  /** The second byte a four-byte lead accepts: 0x90..0xBF after 0xF0, 0x80..0x8F after 0xF4. */
  predicate SecondOf4(b0: u8, b1: u8)
  {
    IsContinuation(b1) && !(b0 == 0xF0 && b1 < 0x90) && !(b0 == 0xF4 && b1 >= 0x90)
  }

  /**
   * How many bytes a lead byte and the continuation bytes it accepts so far span,
   * up to `width`: the unit the decoder replaces by one U+FFFD when the sequence
   * is cut short or broken.
   */
  function Span(bs: seq<u8>, width: nat, second: bool): (k: nat)
    requires |bs| > 0 && 2 <= width <= 4
    ensures 1 <= k <= width && k <= |bs|
    ensures k > 1 ==> second
    ensures forall j :: 2 <= j < k ==> IsContinuation(bs[j])
    ensures k < width && k < |bs| && k >= 2 ==> !IsContinuation(bs[k])
  {
    if |bs| < 2 || !second then 1
    else if |bs| < 3 || width < 3 || !IsContinuation(bs[2]) then 2
    else if |bs| < 4 || width < 4 || !IsContinuation(bs[3]) then 3
    else 4
  }

  /**
   * One step of `new String(bytes, UTF_8)` as the JDK's decoder takes it: a
   * well-formed, shortest-form sequence of one to four bytes gives its character.
   * Otherwise a byte 0x80..0xC1 or 0xF5..0xFF is replaced by U+FFFD alone, and a
   * lead byte 0xC2..0xF4 together with the continuation bytes it accepts so far is
   * replaced by one U+FFFD; a three-byte sequence that decodes to a surrogate is
   * replaced as a whole.
   */
  function DecodeOne(bs: seq<u8>): (r: (char, nat))
    requires |bs| > 0
    ensures 1 <= r.1 <= |bs| && r.1 <= 4
    ensures r.0 != Replacement ==> r.1 == |EncodeChar(r.0)|
  {
    var b0 := bs[0];
    if b0 < 0x80 then
      (b0 as char, 1)
    else if 0xC2 <= b0 < 0xE0 then
      var k := Span(bs, 2, |bs| >= 2 && IsContinuation(bs[1]));
      if k == 2 then (Value2(bs) as char, 2) else (Replacement, k)
    else if 0xE0 <= b0 < 0xF0 then
      var k := Span(bs, 3, |bs| >= 2 && SecondOf3(b0, bs[1]));
      if k == 3 && IsScalar(Value3(bs)) then (Value3(bs) as char, 3) else (Replacement, k)
    else if 0xF0 <= b0 <= 0xF4 then
      var k := Span(bs, 4, |bs| >= 2 && SecondOf4(b0, bs[1]));
      if k == 4 then (Value4(bs) as char, 4) else (Replacement, k)
    else
      (Replacement, 1)
  }

  /** The code point bits carried by a two-, three- and four-byte sequence. */
  function Value2(bs: seq<u8>): int
    requires |bs| >= 2
  {
    (bs[0] as int - 0xC0) * 0x40 + (bs[1] as int - 0x80)
  }

  function Value3(bs: seq<u8>): int
    requires |bs| >= 3
  {
    (bs[0] as int - 0xE0) * 0x1000 + (bs[1] as int - 0x80) * 0x40 + (bs[2] as int - 0x80)
  }

  function Value4(bs: seq<u8>): int
    requires |bs| >= 4
  {
    (bs[0] as int - 0xF0) * 0x4_0000 + (bs[1] as int - 0x80) * 0x1000 + (bs[2] as int - 0x80) * 0x40 + (bs[3] as int - 0x80)
  }

  /** `new String(bytes, StandardCharsets.UTF_8)` */
  function Decode(bs: seq<u8>): (s: string)
    ensures |s| <= |bs|
    decreases |bs|
  {
    if bs == [] then []
    else
      var (c, n) := DecodeOne(bs);
      [c] + Decode(bs[n..])
  }

  /**
   * A three-byte lead followed by one accepted continuation byte and then a byte
   * that continues nothing: the first two bytes are one malformed unit, replaced
   * by a single U+FFFD, and the third is read on its own.
   */
  lemma CutSequenceOneReplacement()
    ensures Decode([0xE2, 0x82, 0x41]) == [Replacement, 'A']
  {
    var bs: seq<u8> := [0xE2, 0x82, 0x41];
    assert DecodeOne(bs) == (Replacement, 2);
    assert bs[2..] == [0x41];
    assert DecodeOne(bs[2..]) == ('A', 1);
    assert bs[2..][1..] == [];
  }

  /** The three-byte form of a surrogate decodes, and is then replaced as one unit. */
  lemma EncodedSurrogateOneReplacement()
    ensures Decode([0xED, 0xA0, 0x80]) == [Replacement]
  {
    var bs: seq<u8> := [0xED, 0xA0, 0x80];
    assert Value3(bs) == 0xD800;
    assert DecodeOne(bs) == (Replacement, 3);
    assert bs[3..] == [];
  }

  /** Decoding reads back the character that starts the byte sequence. */
  lemma DecodeOneOfEncoded(c: char, rest: seq<u8>)
    ensures DecodeOne(EncodeChar(c) + rest) == (c, |EncodeChar(c)|)
  {
    var x := c as int;
    var bs := EncodeChar(c) + rest;
    if x < 0x80 {
    } else if x < 0x800 {
      assert Value2(bs) == x;
    } else if x < 0x1_0000 {
      Digits3(x);
      assert Value3(bs) == x;
    } else {
      Digits4(x);
      assert Value4(bs) == x;
    }
  }

  /** A code point below 0x10000 is its three 6-bit digits. */
  lemma Digits3(x: int)
    requires 0 <= x
    ensures (x / 0x1000) * 0x1000 + ((x / 0x40) % 0x40) * 0x40 + x % 0x40 == x
  {
    var q := x / 0x40;
    assert x == q * 0x40 + x % 0x40;
    DivDiv(x, 0x40, 0x40);
    assert q == (q / 0x40) * 0x40 + q % 0x40;
  }

  /** A code point is its four 6-bit digits. */
  lemma Digits4(x: int)
    requires 0 <= x
    ensures (x / 0x4_0000) * 0x4_0000 + ((x / 0x1000) % 0x40) * 0x1000 + ((x / 0x40) % 0x40) * 0x40 + x % 0x40 == x
  {
    var q := x / 0x40;
    Digits3(q);
    DivDiv(x, 0x40, 0x40);
    DivDiv(x, 0x40, 0x1000);
    DivDiv(q, 0x40, 0x40);
    assert x == q * 0x40 + x % 0x40;
  }

  /** Decoding undoes encoding for every string. */
  lemma {:induction false} DecodeEncode(s: string)
    ensures Decode(Encode(s)) == s
  {
    if s != [] {
      var head, tail := EncodeChar(s[0]), Encode(s[1..]);
      DecodeOneOfEncoded(s[0], tail);
      assert (head + tail)[|head|..] == tail;
      DecodeEncode(s[1..]);
      assert s == [s[0]] + s[1..];
    }
  }

  predicate IsAscii(s: string)
  {
    forall i :: 0 <= i < |s| ==> s[i] as int < 0x80
  }

  /** For ASCII text the UTF-16 length, the UTF-8 length and the character count agree. */
  lemma {:induction false} AsciiLengths(s: string)
    requires IsAscii(s)
    ensures |Encode(s)| == |s| == Utf16Length(s)
  {
    if s != [] {
      AsciiLengths(s[1..]);
    }
  }

  /** Any non-ASCII character makes the UTF-8 form longer than the UTF-16 length. */
  lemma {:induction false} NonAsciiLonger(s: string)
    requires !IsAscii(s)
    ensures |Encode(s)| > Utf16Length(s)
  {
    if s[0] as int < 0x80 {
      assert !IsAscii(s[1..]) by {
        var i :| 0 <= i < |s| && s[i] as int >= 0x80;
        assert s[1..][i - 1] == s[i];
      }
      NonAsciiLonger(s[1..]);
    } else {
      NotLonger(s[1..]);
    }
  }

  /** The UTF-8 form is never shorter than the UTF-16 length. */
  lemma {:induction false} NotLonger(s: string)
    ensures |Encode(s)| >= Utf16Length(s)
  {
    if s != [] {
      NotLonger(s[1..]);
    }
  }
}
