/** The few java.lang.String operations the core relies on, on sequences of characters. */
module JavaStrings {

  /** String.startsWith */
  predicate StartsWith(s: string, prefix: string)
  {
    |prefix| <= |s| && s[..|prefix|] == prefix
  }

  /** String.contains: `sub` occurs somewhere in `s`. */
  predicate Contains(s: string, sub: string)
    decreases |s|
  {
    |sub| <= |s| && (s[..|sub|] == sub || (|s| > 0 && Contains(s[1..], sub)))
  }

  lemma {:induction false} ContainsIsLongEnough(s: string, sub: string)
    requires Contains(s, sub)
    ensures |sub| <= |s|
  {
  }

  /** An occurrence of `sub` at any position makes `s` contain it. */
  lemma {:induction false} OccurrenceContains(s: string, sub: string, i: nat)
    requires i + |sub| <= |s| && s[i..i + |sub|] == sub
    ensures Contains(s, sub)
    decreases i
  {
    if i > 0 {
      assert s[1..][i - 1..i - 1 + |sub|] == s[i..i + |sub|];
      OccurrenceContains(s[1..], sub, i - 1);
    } else {
      assert s[..|sub|] == s[0..|sub|];
    }
  }

  /** Every string Contains reports holds `sub` at some position. */
  lemma {:induction false} ContainsHasOccurrence(s: string, sub: string) returns (i: nat)
    requires Contains(s, sub)
    ensures i + |sub| <= |s| && s[i..i + |sub|] == sub
    decreases |s|
  {
    if s[..|sub|] == sub {
      i := 0;
    } else {
      var j := ContainsHasOccurrence(s[1..], sub);
      assert s[1..][j..j + |sub|] == s[j + 1..j + 1 + |sub|];
      i := j + 1;
    }
  }

  lemma {:induction false} PrefixContains(s: string, prefix: string)
    requires StartsWith(s, prefix)
    ensures Contains(s, prefix)
  {
    OccurrenceContains(s, prefix, 0);
  }

  /** Character.isWhitespace restricted to the ASCII range: space, the controls
      TAB..CR and the separators FS, GS, RS, US. */
  predicate IsWhitespace(c: char)
  {
    c == ' ' || ('\t' <= c <= '\r') || ('\U{1C}' <= c <= '\U{1F}')
  }

  /** String.strip: drop leading and trailing whitespace. The result is the infix of `s`
      that is left once every leading and every trailing whitespace character is removed,
      and those alone. */
  function Strip(s: string): (r: string)
    ensures |r| <= |s|
    ensures r == [] || (!IsWhitespace(r[0]) && !IsWhitespace(r[|r| - 1]))
    ensures exists i, j :: 0 <= i <= j <= |s| && r == s[i..j]
              && (forall k :: 0 <= k < i ==> IsWhitespace(s[k]))
              && (forall k :: j <= k < |s| ==> IsWhitespace(s[k]))
  {
    var l := StripLeading(s);
    var r := StripTrailing(l);
    InfixCut(s, l, r);
    r
  }

  /** A suffix `l` of `s` and a prefix `r` of `l` cut `s` at i = |s| - |l| and j = i + |r|;
      whitespace after `r` in `l` is whitespace after j in `s`. */
  lemma InfixCut(s: string, l: string, r: string)
    requires |l| <= |s| && l == s[|s| - |l|..]
    requires |r| <= |l| && r == l[..|r|]
    requires forall k :: |r| <= k < |l| ==> IsWhitespace(l[k])
    ensures r == s[|s| - |l|..|s| - |l| + |r|]
    ensures forall k :: |s| - |l| + |r| <= k < |s| ==> IsWhitespace(s[k])
  {
    var i := |s| - |l|;
    forall k | i + |r| <= k < |s|
      ensures IsWhitespace(s[k])
    {
      assert s[k] == l[k - i];
    }
  }

  /** String.stripLeading: the suffix left once the leading whitespace is removed. */
  function StripLeading(s: string): (r: string)
    ensures |r| <= |s| && r == s[|s| - |r|..]
    ensures forall i :: 0 <= i < |s| - |r| ==> IsWhitespace(s[i])
    ensures r == [] || !IsWhitespace(r[0])
    ensures (s == [] || !IsWhitespace(s[0])) ==> r == s
    decreases |s|
  {
    if s != [] && IsWhitespace(s[0]) then
      var r := StripLeading(s[1..]);
      assert s[1..][|s| - 1 - |r|..] == s[|s| - |r|..];
      assert forall i :: 0 < i < |s| - |r| ==> s[i] == s[1..][i - 1];
      r
    else
      s
  }

  /** String.stripTrailing: the prefix left once the trailing whitespace is removed. */
  function StripTrailing(s: string): (r: string)
    ensures |r| <= |s| && r == s[..|r|]
    ensures forall i :: |r| <= i < |s| ==> IsWhitespace(s[i])
    ensures r == [] || !IsWhitespace(r[|r| - 1])
    ensures (s == [] || !IsWhitespace(s[|s| - 1])) ==> r == s
    ensures s != [] && !IsWhitespace(s[0]) ==> r != [] && r[0] == s[0]
    decreases |s|
  {
    if s != [] && IsWhitespace(s[|s| - 1]) then
      var r := StripTrailing(s[..|s| - 1]);
      assert s[..|s| - 1][..|r|] == s[..|r|];
      assert forall i :: |r| <= i < |s| - 1 ==> s[i] == s[..|s| - 1][i];
      r
    else
      s
  }

  /** A string that neither starts nor ends with whitespace is its own strip. */
  lemma StripOfTrimmed(s: string)
    requires s == [] || (!IsWhitespace(s[0]) && !IsWhitespace(s[|s| - 1]))
    ensures Strip(s) == s
  {
    assert StripLeading(s) == s;
    assert StripTrailing(s) == s;
  }

  /** Long.toString for a non-negative digit. */
  function DigitChar(d: nat): (c: char)
    requires d < 10
    ensures '0' <= c <= '9'
  {
    ('0' as int + d) as char
  }

  /** Decimal digits of a natural number, most significant first, no leading zero. */
  function NatToString(n: nat): (r: string)
    ensures |r| > 0 && forall i :: 0 <= i < |r| ==> '0' <= r[i] <= '9'
    ensures |r| > 1 ==> r[0] != '0'
    decreases n
  {
    if n < 10 then [DigitChar(n)] else NatToString(n / 10) + [DigitChar(n % 10)]
  }

  /** Long.toString: decimal, with a leading minus sign for negative values. */
  function LongToString(n: int): (r: string)
    ensures |r| > 0
    ensures (r[0] == '-') <==> n < 0
    ensures var d := if n < 0 then r[1..] else r;
      |d| > 0 && (|d| > 1 ==> d[0] != '0')
  {
    if n < 0 then "-" + NatToString(-n) else NatToString(n)
  }

  /** The value of a digit character. */
  function DigitValue(c: char): (d: nat)
    requires '0' <= c <= '9'
    ensures d < 10 && DigitChar(d) == c
  {
    c as int - '0' as int
  }

  /** A string of decimal digits only. */
  predicate IsDigits(s: string)
  {
    forall i :: 0 <= i < |s| ==> '0' <= s[i] <= '9'
  }

  /** The number a string of decimal digits denotes, most significant digit first. */
  function DecimalValue(s: string): nat
    requires IsDigits(s)
  {
    if s == [] then 0 else DecimalValue(s[..|s| - 1]) * 10 + DigitValue(s[|s| - 1])
  }

  /** Long.toString writes exactly `n` in canonical form: the digits of |n| without a
      leading zero, after a minus sign when n < 0. */
  lemma {:induction false} LongToStringValue(n: int)
    ensures n >= 0 ==> IsDigits(LongToString(n)) && DecimalValue(LongToString(n)) == n
                       && (|LongToString(n)| > 1 ==> LongToString(n)[0] != '0')
    ensures n < 0 ==> LongToString(n)[0] == '-' && IsDigits(LongToString(n)[1..])
                      && DecimalValue(LongToString(n)[1..]) == -n
                      && (|LongToString(n)| > 2 ==> LongToString(n)[1] != '0')
  {
    if n < 0 {
      var digits := NatToString(-n);
      NatToStringValue(-n);
      assert LongToString(n)[1..] == digits;
    } else {
      NatToStringValue(n);
    }
  }

  /** NatToString writes the decimal digits of exactly `n`. */
  lemma {:induction false} NatToStringValue(n: nat)
    ensures IsDigits(NatToString(n)) && DecimalValue(NatToString(n)) == n
    decreases n
  {
    var r := NatToString(n);
    if n >= 10 {
      NatToStringValue(n / 10);
      assert r[..|r| - 1] == NatToString(n / 10);
    }
  }
}
