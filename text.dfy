/** The handful of .NET string operations the application relies on, on `seq<char>`.
    Comparisons are ordinal (code point by code point); lowercasing is ASCII only. */
module Text {

  /** char.IsWhiteSpace: the Unicode White_Space characters of categories Zs, Zl, Zp and
      the control characters U+0009..U+000D, U+0085. */
  predicate IsWhiteSpace(c: char) {
    var n := c as int;
    (0x09 <= n <= 0x0D) || n == 0x20 || n == 0x85 || n == 0xA0 || n == 0x1680 ||
    (0x2000 <= n <= 0x200A) || n == 0x2028 || n == 0x2029 || n == 0x202F ||
    n == 0x205F || n == 0x3000
  }

  /** string.IsNullOrWhiteSpace for a non-null string: empty or only white space. */
  predicate IsBlank(s: string) {
    forall i :: 0 <= i < |s| ==> IsWhiteSpace(s[i])
  }

  /** string.StartsWith(prefix) with ordinal comparison. */
  predicate StartsWith(s: string, prefix: string) {
    |prefix| <= |s| && s[..|prefix|] == prefix
  }

  /** string.Contains(part) with ordinal comparison. */
  predicate Contains(s: string, part: string)
    decreases |s|
  {
    StartsWith(s, part) || (|s| > 0 && Contains(s[1..], part))
  }

  /** The text `part` occurs inside `a + part + b`. */
  lemma {:induction false} ContainsMiddle(a: string, part: string, b: string)
    ensures Contains(a + part + b, part)
    decreases |a|
  {
    if |a| == 0 {
      assert a + part + b == part + b;
      assert (part + b)[..|part|] == part;
    } else {
      assert (a + part + b)[1..] == a[1..] + part + b;
      ContainsMiddle(a[1..], part, b);
    }
  }

  /** Text found in `s` is found in `a + s`. */
  lemma {:induction false} ContainsAfter(a: string, s: string, part: string)
    requires Contains(s, part)
    ensures Contains(a + s, part)
    decreases |a|
  {
    if |a| > 0 {
      assert (a + s)[1..] == a[1..] + s;
      ContainsAfter(a[1..], s, part);
    } else {
      assert a + s == s;
    }
  }

  /** Every string contains the empty string. */
  lemma ContainsEmpty(s: string)
    ensures Contains(s, "")
  {
    assert s[..0] == "";
  }

  /** ASCII lowercasing of one character. */
  function LowerChar(c: char): char {
    if 'A' <= c <= 'Z' then (c as int + 32) as char else c
  }

  /** string.ToLower, restricted to ASCII letters. */
  function ToLower(s: string): (r: string)
    ensures |r| == |s|
    ensures forall i :: 0 <= i < |s| ==> r[i] == LowerChar(s[i])
  {
    seq(|s|, i requires 0 <= i < |s| => LowerChar(s[i]))
  }

  /** string.Replace(c.ToString(), ""): every occurrence of `c` removed. */
  function RemoveChar(s: string, c: char): string
    decreases |s|
  {
    if |s| == 0 then ""
    else if s[0] == c then RemoveChar(s[1..], c)
    else [s[0]] + RemoveChar(s[1..], c)
  }

  /** string.TrimEnd(c): every trailing `c` removed. */
  function TrimEnd(s: string, c: char): string
    decreases |s|
  {
    if |s| > 0 && s[|s| - 1] == c then TrimEnd(s[..|s| - 1], c) else s
  }

  /** The decimal digit `d` as a character. */
  function DigitChar(d: int): char
    requires 0 <= d < 10
  {
    ('0' as int + d) as char
  }

  predicate IsDigit(c: char) {
    '0' <= c <= '9'
  }

  /** Digits of a natural number, most significant first, without leading zeros. */
  function NatToString(n: nat): (s: string)
    ensures |s| > 0
    decreases n
  {
    if n < 10 then [DigitChar(n)] else NatToString(n / 10) + [DigitChar(n % 10)]
  }

  /** int.ToString(): decimal text with a leading '-' for negative values. */
  function IntToString(n: int): (s: string)
    ensures |s| > 0
  {
    if n < 0 then "-" + NatToString(-n) else NatToString(n)
  }

  /** The value of a string of decimal digits (the inverse of NatToString). */
  function DigitsValue(s: string): int
    decreases |s|
  {
    if |s| == 0 then 0
    else 10 * DigitsValue(s[..|s| - 1]) + (s[|s| - 1] as int - '0' as int)
  }

  lemma {:induction false} NatToStringDigits(n: nat)
    ensures forall i :: 0 <= i < |NatToString(n)| ==> IsDigit(NatToString(n)[i])
    ensures DigitsValue(NatToString(n)) == n
    decreases n
  {
    if n >= 10 {
      NatToStringDigits(n / 10);
      var s := NatToString(n);
      assert s[..|s| - 1] == NatToString(n / 10);
    }
  }

  /** The decimal text starts with '-' exactly for negative values. */
  lemma SignOfIntToString(n: int)
    ensures (IntToString(n)[0] == '-') <==> n < 0
  {
    if n >= 0 {
      NatToStringDigits(n);
    }
  }

  /** Distinct integers have distinct decimal texts. */
  lemma IntToStringInjective(a: int, b: int)
    requires IntToString(a) == IntToString(b)
    ensures a == b
  {
    SignOfIntToString(a);
    SignOfIntToString(b);
    if a < 0 && b < 0 {
      NatToStringDigits(-a);
      NatToStringDigits(-b);
      assert IntToString(a)[1..] == NatToString(-a);
      assert IntToString(b)[1..] == NatToString(-b);
    } else if a >= 0 && b >= 0 {
      NatToStringDigits(a);
      NatToStringDigits(b);
    }
  }

  /** The decimal text of an integer is never blank. */
  lemma IntToStringNotBlank(n: int)
    ensures !IsBlank(IntToString(n))
  {
    if n >= 0 {
      NatToStringDigits(n);
      assert IsDigit(IntToString(n)[0]);
    }
    assert !IsWhiteSpace(IntToString(n)[0]) by {
      if n >= 0 { NatToStringDigits(n); }
    }
  }
}
