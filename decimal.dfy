/** Decimal text of integers: Python's `'{}'.format(n)`, `'{:02d}'.format(n)` and `int(token)`. */
module Decimal {
  import opened Wrappers

  predicate IsDigit(c: char) { '0' <= c <= '9' }

  predicate AllDigits(s: string) { forall i :: 0 <= i < |s| ==> IsDigit(s[i]) }

  /** The text `'{}'.format(n)` produces for a non-negative n: no sign, no leading zero. */
  predicate Canonical(s: string) { |s| > 0 && AllDigits(s) && (|s| > 1 ==> s[0] != '0') }

  function DigitChar(d: nat): (c: char)
    requires d < 10
    ensures IsDigit(c) && DigitValue(c) == d
  {
    ['0', '1', '2', '3', '4', '5', '6', '7', '8', '9'][d]
  }

  function DigitValue(c: char): nat
    requires IsDigit(c)
  {
    c as nat - '0' as nat
  }

  /** `'{}'.format(n)` for n >= 0. */
  function NatToString(n: nat): (s: string)
    ensures Canonical(s)
    ensures n < 10 <==> |s| == 1
  {
    if n < 10 then [DigitChar(n)] else NatToString(n / 10) + [DigitChar(n % 10)]
  }

  /** The value of a non-empty string of decimal digits. */
  function DigitsValue(s: string): nat
    requires AllDigits(s)
  {
    if s == [] then 0 else DigitsValue(s[..|s| - 1]) * 10 + DigitValue(s[|s| - 1])
  }

  /** Reads a string of decimal digits; None when it is empty or holds a non-digit. */
  function ParseNat(s: string): (r: Option<nat>)
    ensures r.Some? <==> |s| > 0 && AllDigits(s)
  {
    if |s| > 0 && AllDigits(s) then Some(DigitsValue(s)) else None
  }

  /** `int(token)` for a token without white space: an optional sign, then decimal digits. */
  function ParseInt(s: string): (r: Option<int>)
    ensures |s| > 0 && AllDigits(s) ==> r == Some(DigitsValue(s) as int)
    ensures r.Some? ==> |s| > 0
  {
    if |s| > 0 && s[0] == '-' then
      match ParseNat(s[1..]) case Some(v) => Some(-(v as int)) case None => None
    else if |s| > 0 && s[0] == '+' then
      match ParseNat(s[1..]) case Some(v) => Some(v as int) case None => None
    else
      match ParseNat(s) case Some(v) => Some(v as int) case None => None
  }

  /** `'{:02d}'.format(n)` for n >= 0: zero-padded on the left to at least two characters. */
  function ZeroPad2(n: nat): (s: string)
    ensures |s| >= 2 && AllDigits(s)
    ensures n < 10 ==> s == ['0', DigitChar(n)]
    ensures n >= 10 ==> s == NatToString(n)
  {
    var d := NatToString(n);
    if |d| < 2 then "0" + d else d
  }

  lemma DigitsValueAppend(s: string, c: char)
    requires AllDigits(s) && IsDigit(c)
    ensures AllDigits(s + [c]) && DigitsValue(s + [c]) == DigitsValue(s) * 10 + DigitValue(c)
  {
    assert (s + [c])[..|s + [c]| - 1] == s;
  }

  /** Reading back what `'{}'.format(n)` wrote gives n. */
  lemma {:induction false} ParseNatToString(n: nat)
    ensures ParseNat(NatToString(n)) == Some(n)
    ensures ParseInt(NatToString(n)) == Some(n as int)
  {
    if n >= 10 {
      ParseNatToString(n / 10);
      DigitsValueAppend(NatToString(n / 10), DigitChar(n % 10));
      assert NatToString(n) == NatToString(n / 10) + [DigitChar(n % 10)];
      assert DigitsValue(NatToString(n)) == (n / 10) * 10 + n % 10;
    }
  }
}
