/**
 * `urllib.parse.unquote_plus(key, encoding='utf-8')`, the decoding the
 * handler applies to the S3 object key of the notification, and its
 * inverse `urllib.parse.quote_plus`.
 */
module UrlQuoting {
  import opened Utf8

  const PERCENT: Byte := 0x25
  const PLUS: Byte := 0x2B
  const SPACE: Byte := 0x20

  predicate IsHexDigit(b: Byte)
  {
    (0x30 <= b <= 0x39) || (0x41 <= b <= 0x46) || (0x61 <= b <= 0x66)
  }

  /** The value of a hexadecimal digit of either case. */
  function HexValue(b: Byte): (v: nat)
    requires IsHexDigit(b)
    ensures v < 16
  {
    if b <= 0x39 then b - 0x30 else if b <= 0x46 then b - 0x41 + 10 else b - 0x61 + 10
  }

  /**
   * `unquote_to_bytes` on bytes: each `%` followed by two hexadecimal
   * digits becomes the byte they spell; any other byte, including a `%`
   * that does not start such an escape, is kept.
   */
  function PercentDecode(bs: seq<Byte>): (r: seq<Byte>)
    ensures |r| <= |bs|
    ensures PERCENT !in bs ==> r == bs
  {
    if bs == [] then []
    else if |bs| >= 3 && bs[0] == PERCENT && IsHexDigit(bs[1]) && IsHexDigit(bs[2]) then
      [HexValue(bs[1]) * 16 + HexValue(bs[2])] + PercentDecode(bs[3..])
    else
      [bs[0]] + PercentDecode(bs[1..])
  }

  /** `unquote_to_bytes` on a string: encode it as UTF-8, then undo the escapes. */
  function UnquoteToBytes(s: string): (bs: seq<Byte>)
    ensures |bs| <= |Encode(s)|
    ensures '%' !in s ==> bs == Encode(s)
  {
    EncodeWithoutPercent(s);
    PercentDecode(Encode(s))
  }

  /** Only the character `%` encodes to a byte 0x25. */
  lemma {:induction false} EncodeWithoutPercent(s: string)
    ensures '%' !in s ==> PERCENT !in Encode(s)
  {
    if s != [] && '%' !in s {
      EncodeWithoutPercent(s[1..]);
      var c := s[0];
      assert PERCENT !in EncodeChar(c) by {
        if c as int >= 0x80 {
          var bs := EncodeChar(c);
          assert forall i :: 0 <= i < |bs| ==> bs[i] >= 0x80;
        }
      }
      assert Encode(s) == EncodeChar(c) + Encode(s[1..]);
    }
  }

  /** The length of the longest ASCII prefix of `s`. */
  function AsciiRunLength(s: string): (n: nat)
    ensures n <= |s| && IsAscii(s[..n])
    ensures n < |s| ==> s[n] as int >= 0x80
  {
    if s == [] || s[0] as int >= 0x80 then 0
    else
      var n := 1 + AsciiRunLength(s[1..]);
      assert s[..n] == [s[0]] + s[1..][..n - 1];
      n
  }

  /**
   * Each maximal ASCII run is unescaped to bytes and decoded as UTF-8
   * with replacement; characters outside ASCII are kept as they are.
   */
  function UnquoteRuns(s: string): (r: string)
    ensures |r| <= |s|
    decreases |s|
  {
    if s == [] then []
    else if s[0] as int >= 0x80 then [s[0]] + UnquoteRuns(s[1..])
    else
      var n := AsciiRunLength(s);
      var run := s[..n];
      EncodeAscii(run);
      Decode(UnquoteToBytes(run)) + UnquoteRuns(s[n..])
  }

  /** `unquote(s, 'utf-8', 'replace')`: a string without `%` is returned as it is. */
  function Unquote(s: string): (r: string)
    ensures |r| <= |s|
    ensures '%' !in s ==> r == s
  {
    if '%' !in s then s else UnquoteRuns(s)
  }

  /** `s.replace('+', ' ')`. */
  function ReplacePlus(s: string): (r: string)
    ensures |r| == |s|
    ensures forall i :: 0 <= i < |s| ==> r[i] == (if s[i] == '+' then ' ' else s[i])
  {
    if s == [] then [] else [if s[0] == '+' then ' ' else s[0]] + ReplacePlus(s[1..])
  }

  /** `unquote_plus(s, encoding='utf-8')`. */
  function UnquotePlus(s: string): (r: string)
    ensures |r| <= |s|
  {
    Unquote(ReplacePlus(s))
  }

  // The inverse: `quote_plus(s)` with its defaults (UTF-8, nothing extra safe).

  /** ASCII letters, digits and `_.-~` are never escaped. */
  predicate AlwaysSafe(b: Byte)
  {
    || (0x41 <= b <= 0x5A) || (0x61 <= b <= 0x7A) || (0x30 <= b <= 0x39)
    || b == 0x5F || b == 0x2E || b == 0x2D || b == 0x7E
  }

  /** The upper-case hexadecimal digit for `d`. */
  function HexDigit(d: nat): (b: Byte)
    requires d < 16
    ensures IsHexDigit(b) && HexValue(b) == d
  {
    if d < 10 then 0x30 + d else 0x41 + d - 10
  }

  /** One byte of `quote(s, safe=' ')`: kept when safe or a space, otherwise `%XY`. */
  function QuoteByte(b: Byte): (q: seq<Byte>)
    ensures forall i :: 0 <= i < |q| ==> q[i] < 0x80 && q[i] != PLUS
  {
    if AlwaysSafe(b) || b == SPACE then [b] else [PERCENT, HexDigit(b / 16), HexDigit(b % 16)]
  }

  function QuoteBytes(bs: seq<Byte>): (q: seq<Byte>)
    ensures forall i :: 0 <= i < |q| ==> q[i] < 0x80 && q[i] != PLUS
  {
    if bs == [] then [] else QuoteByte(bs[0]) + QuoteBytes(bs[1..])
  }

  /** `quote_plus(s)`: escapes as `quote` does, with spaces written as `+`. */
  function QuotePlus(s: string): (q: string)
    ensures IsAscii(q) && ' ' !in q
  {
    var quoted := AsciiChars(QuoteBytes(Encode(s)));
    seq(|quoted|, i requires 0 <= i < |quoted| => if quoted[i] == ' ' then '+' else quoted[i])
  }

  /** Undoing the escapes of one quoted byte. */
  lemma PercentDecodeQuoteByte(b: Byte, rest: seq<Byte>)
    ensures PercentDecode(QuoteByte(b) + rest) == [b] + PercentDecode(rest)
  {
    var q := QuoteByte(b) + rest;
    if AlwaysSafe(b) || b == SPACE {
      assert q[1..] == rest;
    } else {
      assert b == HexValue(HexDigit(b / 16)) * 16 + HexValue(HexDigit(b % 16));
      assert q[3..] == rest;
    }
  }

  /** `unquote_to_bytes` undoes the escapes of `quote`. */
  lemma {:induction false} PercentDecodeQuoteBytes(bs: seq<Byte>)
    ensures PercentDecode(QuoteBytes(bs)) == bs
  {
    if bs != [] {
      PercentDecodeQuoteByte(bs[0], QuoteBytes(bs[1..]));
      PercentDecodeQuoteBytes(bs[1..]);
    }
  }

  /** On an ASCII string the runs are the whole string. */
  lemma UnquoteRunsAscii(s: string)
    requires IsAscii(s) && s != []
    ensures UnquoteRuns(s) == Decode(UnquoteToBytes(s))
  {
    var n := AsciiRunLength(s);
    assert n == |s|;
    assert s[..n] == s;
  }

  /**
   * For a key encoded with `quote_plus`, `unquote_plus` gives the key back,
   * whatever characters it has.
   */
  lemma UnquotePlusQuotePlus(key: string)
    ensures UnquotePlus(QuotePlus(key)) == key
  {
    var bytes := QuoteBytes(Encode(key));
    var quoted := AsciiChars(bytes);
    var q := QuotePlus(key);
    var r := ReplacePlus(q);
    assert r == quoted by {
      forall i | 0 <= i < |r|
        ensures r[i] == quoted[i]
      {
        assert quoted[i] as int == bytes[i] && bytes[i] != PLUS;
      }
    }
    EncodeAsciiChars(bytes);
    PercentDecodeQuoteBytes(Encode(key));
    assert UnquoteToBytes(r) == Encode(key);
    DecodeEncode(key);
    if '%' in r {
      UnquoteRunsAscii(r);
    } else {
      assert PERCENT !in Encode(r) by {
        EncodeAscii(r);
        assert forall i :: 0 <= i < |r| ==> Encode(r)[i] != PERCENT;
      }
      DecodeEncode(r);
    }
  }

  lemma PercentDecodeKeep(b: Byte, rest: seq<Byte>)
    requires b != PERCENT
    ensures PercentDecode([b] + rest) == [b] + PercentDecode(rest)
  {
    assert ([b] + rest)[1..] == rest;
  }

  lemma PercentDecodeEscape(hi: Byte, lo: Byte, rest: seq<Byte>)
    requires IsHexDigit(hi) && IsHexDigit(lo)
    ensures PercentDecode([PERCENT, hi, lo] + rest) == [HexValue(hi) * 16 + HexValue(lo)] + PercentDecode(rest)
  {
    assert ([PERCENT, hi, lo] + rest)[3..] == rest;
  }

  /** The unescaped bytes of `" %2B"`: a space, then the `+` the escape spells. */
  lemma UnquoteToBytesExample()
    ensures UnquoteToBytes(" %2B") == [0x20, 0x2B]
  {
    var bs: seq<Byte> := [0x20, 0x25, 0x32, 0x42];
    assert Encode(" %2B") == bs by {
      EncodeAscii(" %2B");
    }
    assert bs == [0x20] + [PERCENT, 0x32, 0x42] + [];
    PercentDecodeEscape(0x32, 0x42, []);
    PercentDecodeKeep(0x20, [PERCENT, 0x32, 0x42] + []);
  }

  /** When the unescaped bytes of an ASCII string are ASCII, they are the result, character for character. */
  lemma UnquoteAsciiBytes(s: string, bs: seq<Byte>)
    requires IsAscii(s) && '%' in s && UnquoteToBytes(s) == bs
    requires forall i :: 0 <= i < |bs| ==> bs[i] < 0x80
    ensures Unquote(s) == AsciiChars(bs)
  {
    UnquoteRunsAscii(s);
    DecodeAscii(bs);
  }

  /**
   * `unquote_plus("+%2B")`: the `+` becomes a space before any escape is
   * read, so the escape `%2B` yields a literal `+`.
   */
  lemma UnquotePlusExample()
    ensures var r := ReplacePlus("+%2B");
      r == " %2B" && IsAscii(r) && '%' in r && UnquoteToBytes(r) == [0x20, 0x2B]
  {
    var r := ReplacePlus("+%2B");
    assert r == " %2B";
    assert r[1] == '%';
    UnquoteToBytesExample();
  }

  /** `unquote(" %2B")` keeps the space and turns the escape into a plus sign. */
  lemma UnquoteSpaceEscape()
    ensures Unquote(" %2B") == " +"
  {
    var bs: seq<Byte> := [0x20, 0x2B];
    assert IsAscii(" %2B") && '%' in " %2B" && UnquoteToBytes(" %2B") == bs by {
      UnquoteToBytesExample();
    }
    UnquoteAsciiBytes(" %2B", bs);
    assert AsciiChars(bs) == " +";
  }

  /** So `unquote_plus("+%2B")` is a space followed by a plus sign. */
  lemma UnquotePlusSpacePlus()
    ensures UnquotePlus("+%2B") == " +"
  {
    UnquotePlusExample();
    UnquoteSpaceEscape();
  }
}
