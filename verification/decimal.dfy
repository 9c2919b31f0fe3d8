/** Decimal text of natural numbers: Python's `str(n)` for n >= 0 and `int(s)`
    on a string of ASCII digits. */
module Decimal {

  predicate IsDigit(c: char) {
    '0' <= c <= '9'
  }

  predicate IsDigits(s: string) {
    forall k :: 0 <= k < |s| ==> IsDigit(s[k])
  }

  /** No leading zero, except for the single digit "0": the form `str` produces. */
  predicate IsCanonical(s: string) {
    |s| > 0 && IsDigits(s) && (|s| > 1 ==> s[0] != '0')
  }

  function DigitValue(c: char): (d: nat)
    requires IsDigit(c)
    ensures d < 10
  {
    (c as int) - ('0' as int)
  }

  function DigitChar(d: nat): (c: char)
    requires d < 10
    ensures IsDigit(c) && DigitValue(c) == d
  {
    (('0' as int) + d) as char
  }

  function Pow10(k: nat): (p: nat)
    ensures p >= 1
  {
    if k == 0 then 1 else 10 * Pow10(k - 1)
  }

  /** `int(s)` for a string of digits (leading zeros allowed, as in "05"):
      k digits never name a number of k + 1 digits. */
  function ParseNat(s: string): (n: nat)
    requires IsDigits(s)
    ensures n < Pow10(|s|)
  {
    if |s| == 0 then 0
    else
      var prefix := ParseNat(s[..|s| - 1]);
      assert prefix * 10 <= (Pow10(|s| - 1) - 1) * 10;
      prefix * 10 + DigitValue(s[|s| - 1])
  }

  /** `str(n)` for a natural number. */
  function NatToString(n: nat): (s: string)
    ensures IsCanonical(s)
    ensures ':' !in s
  {
    if n < 10 then [DigitChar(n)] else NatToString(n / 10) + [DigitChar(n % 10)]
  }

  lemma ParseNatAppend(s: string, c: char)
    requires IsDigits(s) && IsDigit(c)
    ensures IsDigits(s + [c]) && ParseNat(s + [c]) == ParseNat(s) * 10 + DigitValue(c)
  {
    assert (s + [c])[..|s|] == s;
  }

  /** Reading back what `str` wrote gives the number. */
  lemma {:induction false} ParseNatToString(n: nat)
    ensures ParseNat(NatToString(n)) == n
  {
    if n < 10 {
    } else {
      ParseNatToString(n / 10);
      ParseNatAppend(NatToString(n / 10), DigitChar(n % 10));
    }
  }

  /** A canonical digit string with a nonzero leading digit has a value of at least that digit. */
  lemma {:induction false} ParseNatLeading(s: string)
    requires |s| > 0 && IsDigits(s)
    ensures ParseNat(s) >= DigitValue(s[0])
  {
    if |s| > 1 {
      var p := s[..|s| - 1];
      assert p[0] == s[0];
      ParseNatLeading(p);
    }
  }

  /** Writing back what was read from a canonical digit string gives the string. */
  lemma {:induction false} NatToStringOfParse(s: string)
    requires IsCanonical(s)
    ensures NatToString(ParseNat(s)) == s
  {
    if |s| > 1 {
      var p, c := s[..|s| - 1], s[|s| - 1];
      assert s == p + [c];
      assert p[0] == s[0];
      ParseNatLeading(p);
      NatToStringOfParse(p);
      var n := ParseNat(s);
      assert n == ParseNat(p) * 10 + DigitValue(c);
      assert n >= 10;
      assert n / 10 == ParseNat(p) && n % 10 == DigitValue(c);
      assert DigitChar(DigitValue(c)) == c;
    }
  }
}
