/** Decimal rendering of integers, as C# string interpolation renders an `int`
    (`$"... {index} ..."`), and the reverse reading of a digit run, as
    `string.Format` reads a placeholder index. */
module Numerals {

  predicate IsDigit(c: char) {
    '0' <= c <= '9'
  }

  predicate AllDigits(s: string) {
    forall i | 0 <= i < |s| :: IsDigit(s[i])
  }

  /** Characters that can appear in a rendered integer. */
  predicate IsNumeral(c: char) {
    IsDigit(c) || c == '-'
  }

  function DigitChar(d: nat): (c: char)
    requires d < 10
    ensures IsDigit(c)
  {
    ('0' as int + d) as char
  }

  function DigitValue(c: char): (d: nat)
    requires IsDigit(c)
    ensures d < 10
  {
    c as int - '0' as int
  }

  /** The value of a run of decimal digits (the empty run reads as 0). */
  function DigitsValue(s: string): nat
    requires AllDigits(s)
  {
    if s == [] then 0 else DigitsValue(s[..|s| - 1]) * 10 + DigitValue(s[|s| - 1])
  }

  /** The shortest decimal representation of `n`. */
  function NatToString(n: nat): (s: string)
    ensures |s| > 0 && AllDigits(s)
  {
    if n < 10 then [DigitChar(n)] else NatToString(n / 10) + [DigitChar(n % 10)]
  }

  /** `int.ToString()` with the invariant culture's "-" as negative sign. */
  function IntToString(i: int): (s: string)
    ensures |s| > 0
    ensures forall k | 0 <= k < |s| :: IsNumeral(s[k])
    ensures s[0] == '-' <==> i < 0
  {
    if i < 0 then "-" + NatToString(-i) else NatToString(i)
  }

  /** Reading back a rendered natural number gives the number. */
  lemma {:induction false} NatToStringRoundTrip(n: nat)
    ensures DigitsValue(NatToString(n)) == n
  {
    if n >= 10 {
      var s := NatToString(n);
      assert s[..|s| - 1] == NatToString(n / 10);
      NatToStringRoundTrip(n / 10);
    }
  }

  /** Distinct integers render as distinct text. */
  lemma IntToStringInjective(i: int, j: int)
    requires IntToString(i) == IntToString(j)
    ensures i == j
  {
    var s := IntToString(i);
    if i < 0 && j >= 0 {
      assert false;
    } else if i >= 0 && j < 0 {
      assert false;
    } else if i < 0 {
      assert s[1..] == NatToString(-i) == NatToString(-j);
      NatToStringRoundTrip(-i);
      NatToStringRoundTrip(-j);
    } else {
      NatToStringRoundTrip(i);
      NatToStringRoundTrip(j);
    }
  }

  lemma ConcatAt(a: string, b: string, k: int)
    ensures 0 <= k < |a| ==> (a + b)[k] == a[k]
    ensures |a| <= k < |a| + |b| ==> (a + b)[k] == b[k - |a|]
  {
  }

  /** A run of numerals followed by a non-numeral splits uniquely. */
  lemma SplitAtNonNumeral(x1: string, y1: string, x2: string, y2: string)
    requires forall k | 0 <= k < |x1| :: IsNumeral(x1[k])
    requires forall k | 0 <= k < |x2| :: IsNumeral(x2[k])
    requires |y1| > 0 && !IsNumeral(y1[0])
    requires |y2| > 0 && !IsNumeral(y2[0])
    requires x1 + y1 == x2 + y2
    ensures x1 == x2 && y1 == y2
  {
    if |x1| == |x2| {
      assert x1 == (x1 + y1)[..|x1|] == (x2 + y2)[..|x2|] == x2;
      assert y1 == (x1 + y1)[|x1|..] == (x2 + y2)[|x2|..] == y2;
    } else if |x1| < |x2| {
      ConcatAt(x1, y1, |x1|);
      ConcatAt(x2, y2, |x1|);
      assert false;
    } else {
      ConcatAt(x1, y1, |x2|);
      ConcatAt(x2, y2, |x2|);
      assert false;
    }
  }
}
