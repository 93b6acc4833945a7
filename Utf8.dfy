/**
 * UTF-8 as Python's codec handles it: `str.encode('utf-8')` and
 * `bytes.decode('utf-8', 'replace')`. Decoding replaces each maximal
 * ill-formed subpart of the input by one U+FFFD, the policy of
 * section 3.9 of the Unicode Standard that CPython's decoder follows.
 */
module Utf8 {

  type Byte = b: int | 0 <= b < 0x100

  const REPLACEMENT_CHARACTER: char := '\U{FFFD}'

  predicate IsContinuation(b: Byte)
  {
    0x80 <= b <= 0xBF
  }

  /** How many bytes a sequence led by `lead` has; 0 when `lead` cannot start one. */
  function SequenceLength(lead: Byte): (n: nat)
    ensures n <= 4
    ensures n == 1 <==> lead < 0x80
  {
    if lead < 0x80 then 1
    else if 0xC2 <= lead <= 0xDF then 2
    else if 0xE0 <= lead <= 0xEF then 3
    else if 0xF0 <= lead <= 0xF4 then 4
    else 0
  }

  /**
   * The second byte's range depends on the lead: these bounds exclude
   * overlong forms (E0, F0), surrogates (ED) and code points above
   * U+10FFFF (F4).
   */
  predicate SecondByteOk(lead: Byte, b: Byte)
  {
    if lead == 0xE0 then 0xA0 <= b <= 0xBF
    else if lead == 0xED then 0x80 <= b <= 0x9F
    else if lead == 0xF0 then 0x90 <= b <= 0xBF
    else if lead == 0xF4 then 0x80 <= b <= 0x8F
    else IsContinuation(b)
  }

  /**
   * The length of the longest prefix of `bs` that can begin a well-formed
   * sequence led by `bs[0]`: the part an error, if there is one, covers.
   */
  function ValidPrefix(bs: seq<Byte>): (m: nat)
    requires |bs| > 0 && SequenceLength(bs[0]) > 0
    ensures 1 <= m <= SequenceLength(bs[0]) && m <= |bs|
    ensures m >= 2 ==> SecondByteOk(bs[0], bs[1])
    ensures m >= 3 ==> IsContinuation(bs[2])
    ensures m >= 4 ==> IsContinuation(bs[3])
  {
    var n := SequenceLength(bs[0]);
    if n == 1 || |bs| < 2 || !SecondByteOk(bs[0], bs[1]) then 1
    else if n == 2 || |bs| < 3 || !IsContinuation(bs[2]) then 2
    else if n == 3 || |bs| < 4 || !IsContinuation(bs[3]) then 3
    else 4
  }

  /** `bs` is exactly one well-formed sequence. */
  predicate WellFormed(bs: seq<Byte>)
  {
    |bs| > 0 && SequenceLength(bs[0]) == |bs| && ValidPrefix(bs) == |bs|
  }

  /** The code point a well-formed sequence stands for; never a surrogate. */
  function ScalarValue(bs: seq<Byte>): (v: int)
    requires WellFormed(bs)
    ensures 0 <= v < 0xD800 || 0xE000 <= v < 0x11_0000
    ensures |bs| == 1 <==> v < 0x80
  {
    var b0: int := bs[0];
    if |bs| == 1 then b0
    else
      var b1: int := bs[1];
      if |bs| == 2 then (b0 - 0xC0) * 0x40 + (b1 - 0x80)
      else
        var b2: int := bs[2];
        if |bs| == 3 then (b0 - 0xE0) * 0x1000 + (b1 - 0x80) * 0x40 + (b2 - 0x80)
        else
          var b3: int := bs[3];
          (b0 - 0xF0) * 0x4_0000 + (b1 - 0x80) * 0x1000 + (b2 - 0x80) * 0x40 + (b3 - 0x80)
  }

  /**
   * One decoding step: the character the bytes at the front of `bs` stand
   * for and how many bytes it takes; an ill-formed subpart gives U+FFFD.
   */
  function DecodeStep(bs: seq<Byte>): (r: (char, nat))
    requires |bs| > 0
    ensures 1 <= r.1 <= |bs| && r.1 <= 4
    ensures bs[0] < 0x80 ==> r == (bs[0] as char, 1)
    ensures r.0 != REPLACEMENT_CHARACTER ==> WellFormed(bs[..r.1])
  {
    var n := SequenceLength(bs[0]);
    if n == 0 then (REPLACEMENT_CHARACTER, 1)
    else
      var m := ValidPrefix(bs);
      if m < n then (REPLACEMENT_CHARACTER, m)
      else
        (ScalarValue(bs[..n]) as char, n)
  }

  /** `bytes.decode('utf-8', 'replace')`: one character per step. */
  function Decode(bs: seq<Byte>): (s: string)
    ensures |s| <= |bs| <= 4 * |s|
    decreases |bs|
  {
    if bs == [] then []
    else
      var (c, n) := DecodeStep(bs);
      [c] + Decode(bs[n..])
  }

  /** `str.encode('utf-8')` of one character. */
  function EncodeChar(c: char): (bs: seq<Byte>)
    ensures 1 <= |bs| <= 4
    ensures (|bs| == 1) == (c as int < 0x80)
  {
    var v := c as int;
    if v < 0x80 then [v]
    else if v < 0x800 then [0xC0 + v / 0x40, 0x80 + v % 0x40]
    else if v < 0x1_0000 then [0xE0 + v / 0x1000, 0x80 + (v / 0x40) % 0x40, 0x80 + v % 0x40]
    else [0xF0 + v / 0x4_0000, 0x80 + (v / 0x1000) % 0x40, 0x80 + (v / 0x40) % 0x40, 0x80 + v % 0x40]
  }

  /** `str.encode('utf-8')`. */
  function Encode(s: string): (bs: seq<Byte>)
    ensures |s| <= |bs| <= 4 * |s|
  {
    if s == [] then [] else EncodeChar(s[0]) + Encode(s[1..])
  }

  /** The encoding of a character is one well-formed sequence standing for it. */
  lemma EncodeCharWellFormed(c: char)
    ensures WellFormed(EncodeChar(c))
    ensures ScalarValue(EncodeChar(c)) == c as int
  {
    var v := c as int;
    var bs := EncodeChar(c);
    if v < 0x80 {
      assert bs == [v];
    } else if v < 0x800 {
      assert bs == [0xC0 + v / 0x40, 0x80 + v % 0x40];
      EncodeTwo(v);
    } else if v < 0x1_0000 {
      assert bs == [0xE0 + v / 0x1000, 0x80 + (v / 0x40) % 0x40, 0x80 + v % 0x40];
      EncodeThree(v);
    } else {
      assert bs == [0xF0 + v / 0x4_0000, 0x80 + (v / 0x1000) % 0x40, 0x80 + (v / 0x40) % 0x40, 0x80 + v % 0x40];
      EncodeFour(v);
    }
  }

  lemma EncodeTwo(v: int)
    requires 0x80 <= v < 0x800
    ensures var bs: seq<Byte> := [0xC0 + v / 0x40, 0x80 + v % 0x40];
      WellFormed(bs) && ScalarValue(bs) == v
  {
    assert v == (v / 0x40) * 0x40 + v % 0x40;
  }

  lemma EncodeThree(v: int)
    requires 0x800 <= v < 0x1_0000 && !(0xD800 <= v < 0xE000)
    ensures var bs: seq<Byte> := [0xE0 + v / 0x1000, 0x80 + (v / 0x40) % 0x40, 0x80 + v % 0x40];
      WellFormed(bs) && ScalarValue(bs) == v
  {
    var hi, mid, lo := v / 0x1000, (v / 0x40) % 0x40, v % 0x40;
    assert v / 0x40 == hi * 0x40 + mid;
    assert v == hi * 0x1000 + mid * 0x40 + lo;
    assert hi == 0 ==> mid >= 0x20;
    assert hi == 0xD ==> mid < 0x20;
  }

  lemma EncodeFour(v: int)
    requires 0x1_0000 <= v < 0x11_0000
    ensures var bs: seq<Byte> := [0xF0 + v / 0x4_0000, 0x80 + (v / 0x1000) % 0x40, 0x80 + (v / 0x40) % 0x40, 0x80 + v % 0x40];
      WellFormed(bs) && ScalarValue(bs) == v
  {
    var top, hi, mid, lo := v / 0x4_0000, (v / 0x1000) % 0x40, (v / 0x40) % 0x40, v % 0x40;
    assert v / 0x1000 == top * 0x40 + hi;
    assert v / 0x40 == (v / 0x1000) * 0x40 + mid;
    assert v == top * 0x4_0000 + hi * 0x1000 + mid * 0x40 + lo;
    assert top == 0 ==> hi >= 0x10;
    assert top == 4 ==> hi < 0x10;
  }

  /** Decoding sees the first character's bytes and nothing after them. */
  lemma DecodeStepEncodeChar(c: char, rest: seq<Byte>)
    ensures DecodeStep(EncodeChar(c) + rest) == (c, |EncodeChar(c)|)
  {
    var e := EncodeChar(c);
    var bs := e + rest;
    EncodeCharWellFormed(c);
    assert bs[..|e|] == e;
    assert bs[0] == e[0];
    assert |e| >= 2 ==> bs[1] == e[1];
    assert |e| >= 3 ==> bs[2] == e[2];
    assert |e| >= 4 ==> bs[3] == e[3];
    assert ValidPrefix(bs) == ValidPrefix(e);
  }

  /** Decoding undoes encoding: `s.encode('utf-8').decode('utf-8', 'replace') == s`. */
  lemma {:induction false} DecodeEncode(s: string)
    ensures Decode(Encode(s)) == s
  {
    if s != [] {
      var e := EncodeChar(s[0]);
      DecodeStepEncodeChar(s[0], Encode(s[1..]));
      assert (e + Encode(s[1..]))[|e|..] == Encode(s[1..]);
      DecodeEncode(s[1..]);
    }
  }

  /** A string of ASCII characters. */
  predicate IsAscii(s: string)
  {
    forall i :: 0 <= i < |s| ==> s[i] as int < 0x80
  }

  /** Bytes below 0x80, read as the characters with those codes. */
  function AsciiChars(bs: seq<Byte>): (s: string)
    requires forall i :: 0 <= i < |bs| ==> bs[i] < 0x80
    ensures |s| == |bs| && IsAscii(s)
    ensures forall i :: 0 <= i < |bs| ==> s[i] as int == bs[i]
  {
    seq(|bs|, i requires 0 <= i < |bs| => bs[i] as char)
  }

  /** An ASCII string encodes to its own character codes, one byte each. */
  lemma {:induction false} EncodeAscii(s: string)
    requires IsAscii(s)
    ensures |Encode(s)| == |s|
    ensures forall i :: 0 <= i < |s| ==> Encode(s)[i] == s[i] as int
  {
    if s != [] {
      EncodeAscii(s[1..]);
    }
  }

  /** Bytes below 0x80, read as characters, encode back to themselves. */
  lemma EncodeAsciiChars(bs: seq<Byte>)
    requires forall i :: 0 <= i < |bs| ==> bs[i] < 0x80
    ensures Encode(AsciiChars(bs)) == bs
  {
    EncodeAscii(AsciiChars(bs));
  }

  /** ASCII bytes decode to the characters with those codes. */
  lemma {:induction false} DecodeAscii(bs: seq<Byte>)
    requires forall i :: 0 <= i < |bs| ==> bs[i] < 0x80
    ensures Decode(bs) == AsciiChars(bs)
  {
    if bs != [] {
      DecodeAscii(bs[1..]);
      assert AsciiChars(bs) == [bs[0] as char] + AsciiChars(bs[1..]);
    }
  }

  /** A two-byte sequence decodes to its character: `b'\xc3\xa9'` is U+00E9. */
  lemma DecodeTwoByteExample()
    ensures Decode([0xC3, 0xA9]) == "\U{E9}"
  {
    assert DecodeStep([0xC3, 0xA9]) == ('\U{E9}', 2);
    assert [0xC3, 0xA9][2..] == [];
  }

  /** A lead byte with its sequence cut short is one U+FFFD. */
  lemma DecodeTruncatedExample()
    ensures Decode([0xC3]) == [REPLACEMENT_CHARACTER]
  {
    assert DecodeStep([0xC3]) == (REPLACEMENT_CHARACTER, 1);
    assert [0xC3][1..] == [];
  }

  /**
   * A valid prefix followed by a byte that cannot continue it is one U+FFFD,
   * and decoding resumes at that byte.
   */
  lemma DecodeMaximalSubpartExample()
    ensures Decode([0xE2, 0x82, 0x41]) == [REPLACEMENT_CHARACTER, 'A']
  {
    assert DecodeStep([0xE2, 0x82, 0x41]) == (REPLACEMENT_CHARACTER, 2);
    assert [0xE2, 0x82, 0x41][2..] == [0x41];
    assert DecodeStep([0x41]) == ('A', 1);
    assert [0x41][1..] == [];
  }
}
