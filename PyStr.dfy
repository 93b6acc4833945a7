/**
 * The Python string primitives the transform relies on: `str.split` with a
 * one-character separator, and `int()` on a base-10 literal.
 */
module PyStr {
  import opened Wrappers
  import opened Exceptions

  /** `sep.join(parts)`: the inverse of `Split`. */
  function Join(parts: seq<string>, sep: char): (s: string)
    requires |parts| >= 1
    ensures parts[0] <= s
    ensures |parts| > 1 ==> sep in s
    decreases |parts|
  {
    if |parts| == 1 then parts[0] else parts[0] + [sep] + Join(parts[1..], sep)
  }

  /**
   * `s.split(sep)` for a one-character separator: every separator ends a
   * field, empty fields are kept, so the result is never empty and
   * `"a//b"` gives `["a", "", "b"]`.
   */
  function Split(s: string, sep: char): (parts: seq<string>)
    ensures |parts| >= 1
    ensures forall i :: 0 <= i < |parts| ==> sep !in parts[i]
    decreases |s|
  {
    if s == [] then [""]
    else
      var rest := Split(s[1..], sep);
      if s[0] == sep then [""] + rest
      else [[s[0]] + rest[0]] + rest[1..]
  }

  /** Splitting and joining again gives back the original text. */
  lemma {:induction false} JoinSplit(s: string, sep: char)
    ensures Join(Split(s, sep), sep) == s
    decreases |s|
  {
    if s != [] {
      var rest := Split(s[1..], sep);
      JoinSplit(s[1..], sep);
      if s[0] == sep {
        assert ([""] + rest)[1..] == rest;
      } else {
        var parts := [[s[0]] + rest[0]] + rest[1..];
        if |rest| == 1 {
          assert parts == [[s[0]] + rest[0]];
        } else {
          assert parts[1..] == rest[1..];
          assert Join(rest, sep) == rest[0] + [sep] + Join(rest[1..], sep);
        }
      }
    }
  }

  /** A field with no separator in it is glued onto the first field of what follows. */
  lemma {:induction false} SplitSeparatorFree(p: string, r: string, sep: char)
    requires sep !in p
    ensures Split(p + r, sep) == [p + Split(r, sep)[0]] + Split(r, sep)[1..]
    decreases |p|
  {
    if p != [] {
      assert (p + r)[0] == p[0];
      assert (p + r)[1..] == p[1..] + r;
      SplitSeparatorFree(p[1..], r, sep);
      assert [p[0]] + (p[1..] + Split(r, sep)[0]) == p + Split(r, sep)[0];
    } else {
      var rs := Split(r, sep);
      assert p + r == r;
      assert p + rs[0] == rs[0];
      assert rs == [rs[0]] + rs[1..];
    }
  }

  /** Joining separator-free fields and splitting again gives back the fields. */
  lemma {:induction false} SplitJoin(parts: seq<string>, sep: char)
    requires |parts| >= 1
    requires forall i :: 0 <= i < |parts| ==> sep !in parts[i]
    ensures Split(Join(parts, sep), sep) == parts
    decreases |parts|
  {
    if |parts| == 1 {
      SplitSeparatorFree(parts[0], [], sep);
      assert parts[0] + [] == parts[0];
    } else {
      var r := Join(parts[1..], sep);
      SplitJoin(parts[1..], sep);
      assert Join(parts, sep) == parts[0] + ([sep] + r);
      SplitSeparatorFree(parts[0], [sep] + r, sep);
      assert ([sep] + r)[1..] == r;
      assert Split([sep] + r, sep) == [""] + parts[1..];
      assert parts[0] + "" == parts[0];
    }
  }

  /** There is one more field than there are separators. */
  lemma {:induction false} SplitCount(s: string, sep: char)
    ensures |Split(s, sep)| == multiset(s)[sep] + 1
    decreases |s|
  {
    if s != [] {
      SplitCount(s[1..], sep);
      assert s == [s[0]] + s[1..];
      assert multiset(s) == multiset([s[0]]) + multiset(s[1..]);
    }
  }

  /**
   * The characters `int()` skips around a literal: the ASCII whitespace
   * tab, line feed, vertical tab, form feed, carriage return and space, and
   * the non-ASCII characters `str.isspace` accepts, which `int()` first
   * turns into spaces. The ASCII separators U+001C to U+001F count for
   * `str.isspace` but not for `int()`.
   */
  function IsSpace(c: char): (space: bool)
    ensures space ==> !IsDigit(c) && c != '+' && c != '-'
  {
    var n := c as int;
    || 0x09 <= n <= 0x0D || n == 0x20 || n == 0x85 || n == 0xA0 || n == 0x1680
    || 0x2000 <= n <= 0x200A || n == 0x2028 || n == 0x2029 || n == 0x202F || n == 0x205F
    || n == 0x3000
  }

  function StripStart(s: string): (r: string)
    ensures |r| <= |s| && r == s[|s| - |r|..]
    ensures r != [] ==> !IsSpace(r[0])
    ensures forall i :: 0 <= i < |s| - |r| ==> IsSpace(s[i])
  {
    if s != [] && IsSpace(s[0]) then StripStart(s[1..]) else s
  }

  function StripEnd(s: string): (r: string)
    ensures |r| <= |s| && r == s[..|r|]
    ensures r != [] ==> !IsSpace(r[|r| - 1])
    ensures forall i :: |r| <= i < |s| ==> IsSpace(s[i])
  {
    if s != [] && IsSpace(s[|s| - 1]) then StripEnd(s[..|s| - 1]) else s
  }

  predicate IsDigit(c: char) {
    '0' <= c <= '9'
  }

  predicate AllDigits(s: string) {
    forall i :: 0 <= i < |s| ==> IsDigit(s[i])
  }

  /** The value of a string of decimal digits, most significant first. */
  function DigitsValue(ds: string): (v: nat)
    requires AllDigits(ds)
    ensures ds != [] && ds[0] != '0' ==> v > 0
  {
    if ds == [] then 0 else DigitsValue(ds[..|ds| - 1]) * 10 + (ds[|ds| - 1] as int - '0' as int)
  }

  /**
   * The most digits `int()` reads from a decimal literal, leading zeros
   * included: the default of `sys.get_int_max_str_digits()`.
   */
  const MAX_STR_DIGITS := 4300

  /**
   * Python's `int(literal)`: surrounding whitespace is ignored, an optional
   * sign is followed by one to `MAX_STR_DIGITS` decimal digits, leading
   * zeros are allowed; anything else raises `ValueError`.
   */
  function ParseInt(literal: string): (r: Result<int, Exception>)
    requires '_' !in literal
    ensures r.Err? ==> r.error == InvalidIntLiteral(literal)
  {
    ParseSigned(StripEnd(StripStart(literal)), literal)
  }

  /** The stripped text `t` of `literal`: an optional sign, then one or more digits. */
  function ParseSigned(t: string, literal: string): (r: Result<int, Exception>)
    ensures r.Err? ==> r.error == InvalidIntLiteral(literal)
  {
    var signed := |t| > 0 && (t[0] == '+' || t[0] == '-');
    var digits := if signed then t[1..] else t;
    if 0 < |digits| <= MAX_STR_DIGITS && AllDigits(digits) then
      var magnitude: int := DigitsValue(digits);
      Ok(if signed && t[0] == '-' then -magnitude else magnitude)
    else
      Err(InvalidIntLiteral(literal))
  }

  function DigitChar(d: nat): (c: char)
    requires d < 10
    ensures IsDigit(c) && c as int - '0' as int == d
  {
    ('0' as int + d) as char
  }

  /** `str(n)` for a natural number: its shortest decimal representation. */
  function FormatNat(n: nat): (s: string)
    ensures |s| >= 1 && AllDigits(s)
  {
    if n < 10 then [DigitChar(n)] else FormatNat(n / 10) + [DigitChar(n % 10)]
  }

  /** `str(n)` for any integer. */
  function FormatInt(n: int): string {
    if n < 0 then "-" + FormatNat(-n) else FormatNat(n)
  }

  lemma {:induction false} DigitsValueFormat(n: nat)
    ensures DigitsValue(FormatNat(n)) == n
  {
    if n >= 10 {
      var s := FormatNat(n);
      assert s[..|s| - 1] == FormatNat(n / 10);
      DigitsValueFormat(n / 10);
    }
  }

  /** Leading zeros do not change the value of a digit string. */
  lemma {:induction false} DigitsValueLeadingZeros(zeros: string, ds: string)
    requires forall i :: 0 <= i < |zeros| ==> zeros[i] == '0'
    requires AllDigits(ds)
    ensures AllDigits(zeros + ds) && DigitsValue(zeros + ds) == DigitsValue(ds)
    decreases |zeros| + |ds|
  {
    var s := zeros + ds;
    assert AllDigits(s);
    if ds == [] {
      assert s == zeros;
      if zeros != [] {
        assert s[..|s| - 1] == zeros[..|zeros| - 1] + [];
        DigitsValueLeadingZeros(zeros[..|zeros| - 1], []);
      }
    } else {
      assert s[..|s| - 1] == zeros + ds[..|ds| - 1];
      DigitsValueLeadingZeros(zeros, ds[..|ds| - 1]);
    }
  }

  /** Text that neither starts nor ends with whitespace is left alone by stripping. */
  lemma StripUnspaced(s: string)
    requires s != [] && !IsSpace(s[0]) && !IsSpace(s[|s| - 1])
    ensures StripEnd(StripStart(s)) == s
  {
  }

  /**
   * A stripped text holding a character that is neither a digit nor a
   * leading sign does not parse.
   */
  lemma ParseSignedRejects(t: string, literal: string, j: nat)
    requires j < |t| && !IsDigit(t[j])
    requires j == 0 ==> t[j] != '+' && t[j] != '-'
    ensures ParseSigned(t, literal) == Err(InvalidIntLiteral(literal))
  {
    if t[0] == '+' || t[0] == '-' {
      assert t[1..][j - 1] == t[j];
    }
  }

  /**
   * `int()` raises `ValueError` on a literal holding a character that is
   * not a digit, a sign or whitespace, wherever it stands.
   */
  lemma NonDigitFails(literal: string, i: nat)
    requires '_' !in literal
    requires i < |literal| && !IsDigit(literal[i]) && !IsSpace(literal[i])
    requires literal[i] != '+' && literal[i] != '-'
    ensures ParseInt(literal) == Err(InvalidIntLiteral(literal))
  {
    var s := StripStart(literal);
    var t := StripEnd(s);
    var k := |literal| - |s|;
    assert i - k < |t| && t[i - k] == literal[i] by {
      assert k <= i;
      assert s[i - k] == literal[i];
    }
    ParseSignedRejects(t, literal, i - k);
  }

  /** The ASCII separator U+001C is not whitespace to `int()`: `int("\x1c1")` raises. */
  lemma FileSeparatorRejected()
    ensures ParseInt("\U{1C}1") == Err(InvalidIntLiteral("\U{1C}1"))
  {
    NonDigitFails("\U{1C}1", 0);
  }

  /** An optional sign followed by digits reads as the digits' value, negated after `-`. */
  lemma ParseSignedDigits(t: string, literal: string, m: nat)
    requires t != []
    requires t[0] == '-' || t[0] == '+' ==>
      1 < |t| <= MAX_STR_DIGITS + 1 && AllDigits(t[1..]) && DigitsValue(t[1..]) == m
    requires !(t[0] == '-' || t[0] == '+') ==> |t| <= MAX_STR_DIGITS && AllDigits(t) && DigitsValue(t) == m
    ensures ParseSigned(t, literal) == Ok(if t[0] == '-' then -(m as int) else m)
  {
  }

  /** An unpadded literal, optionally signed, parses to its digits' value. */
  lemma ParseUnpadded(s: string, m: nat)
    requires '_' !in s
    requires s != [] && !IsSpace(s[0]) && !IsSpace(s[|s| - 1])
    requires s[0] == '-' || s[0] == '+' ==>
      1 < |s| <= MAX_STR_DIGITS + 1 && AllDigits(s[1..]) && DigitsValue(s[1..]) == m
    requires !(s[0] == '-' || s[0] == '+') ==> |s| <= MAX_STR_DIGITS && AllDigits(s) && DigitsValue(s) == m
    ensures ParseInt(s) == Ok(if s[0] == '-' then -(m as int) else m)
  {
    StripUnspaced(s);
    ParseSignedDigits(s, s, m);
  }

  /** `int(str(n)) == n` for every integer of at most `MAX_STR_DIGITS` digits. */
  lemma ParseFormatRoundTrip(n: int)
    requires |FormatNat(if n < 0 then -n else n)| <= MAX_STR_DIGITS
    ensures '_' !in FormatInt(n) && ParseInt(FormatInt(n)) == Ok(n)
  {
    var m := if n < 0 then -n else n;
    var ds := FormatNat(m);
    DigitsValueFormat(m);
    var s := FormatInt(n);
    assert IsDigit(ds[|ds| - 1]) && IsDigit(ds[0]);
    assert forall i :: 0 <= i < |ds| ==> ds[i] != '_';
    if n < 0 {
      assert s == ['-'] + ds && s[1..] == ds;
      assert s[|s| - 1] == ds[|ds| - 1];
    } else {
      assert s == ds;
    }
    ParseUnpadded(s, m);
  }

  /**
   * A literal of zeros followed by digits, `MAX_STR_DIGITS` of them at
   * most, parses to the digits' value: `int("0001") == 1`.
   */
  lemma ParseZeroPadded(zeros: string, n: nat)
    requires forall i :: 0 <= i < |zeros| ==> zeros[i] == '0'
    requires |zeros| + |FormatNat(n)| <= MAX_STR_DIGITS
    ensures '_' !in zeros + FormatNat(n) && ParseInt(zeros + FormatNat(n)) == Ok(n)
  {
    var ds := FormatNat(n);
    var s := zeros + ds;
    DigitsValueFormat(n);
    DigitsValueLeadingZeros(zeros, ds);
    assert IsDigit(s[0]) && IsDigit(s[|s| - 1]);
    assert forall i :: 0 <= i < |s| ==> s[i] != '_';
    ParseUnpadded(s, n);
  }

  /** What `int()` accepts once the whitespace is stripped: an optional sign, then one to `MAX_STR_DIGITS` digits. */
  ghost predicate IntLiteralText(t: string) {
    || (1 <= |t| <= MAX_STR_DIGITS && AllDigits(t))
    || (2 <= |t| <= MAX_STR_DIGITS + 1 && (t[0] == '+' || t[0] == '-') && AllDigits(t[1..]))
  }

  /** `int()` succeeds exactly on the literals whose stripped text `IntLiteralText` describes. */
  lemma ParseIntOkIff(literal: string)
    requires '_' !in literal
    ensures ParseInt(literal).Ok? <==> IntLiteralText(StripEnd(StripStart(literal)))
  {
    var t := StripEnd(StripStart(literal));
    if |t| > 0 && (t[0] == '+' || t[0] == '-') {
      assert !AllDigits(t);
    }
  }

  /** A literal without a digit, such as an empty, blank or lone-sign one, raises `ValueError`. */
  lemma NoDigitFails(literal: string)
    requires '_' !in literal
    requires forall i :: 0 <= i < |literal| ==> !IsDigit(literal[i])
    ensures ParseInt(literal) == Err(InvalidIntLiteral(literal))
  {
    var s := StripStart(literal);
    var t := StripEnd(s);
    var k := |literal| - |s|;
    if t != [] {
      assert t[0] == s[0] == literal[k];
      if t[0] == '+' || t[0] == '-' {
        if |t| > 1 {
          assert t[1..][0] == literal[k + 1];
        }
      }
    }
  }

  /** A stripped literal with more than `MAX_STR_DIGITS` characters after its sign raises `ValueError`. */
  lemma DigitLimitFails(literal: string)
    requires '_' !in literal
    requires var t := StripEnd(StripStart(literal));
      |t| > MAX_STR_DIGITS && (t[0] == '+' || t[0] == '-' ==> |t| > MAX_STR_DIGITS + 1)
    ensures ParseInt(literal) == Err(InvalidIntLiteral(literal))
  {
  }

  /** 4300 zeros and a `7` are one digit too many: `int("0" * 4300 + "7")` raises. */
  lemma DigitLimitExample()
    ensures ParseInt(seq(MAX_STR_DIGITS, _ => '0') + "7").Err?
  {
    var s := seq(MAX_STR_DIGITS, _ => '0') + "7";
    assert s[0] == '0' && s[|s| - 1] == '7';
    StripUnspaced(s);
  }
}
