/**
 Decimal text of integers, as Python's format specifications write it:
 `{n}` (plain decimal, a '-' sign for negatives) and `{n:02d}` (at least two
 digits, zero-padded on the left). Each writer has a reader that inverts it.
 */
module Decimal {

  predicate IsDigit(c: char)
  {
    '0' <= c <= '9'
  }

  predicate AllDigits(s: string)
  {
    forall i :: 0 <= i < |s| ==> IsDigit(s[i])
  }

  function DigitChar(d: int): (c: char)
    requires 0 <= d < 10
    ensures IsDigit(c)
  {
    (('0' as int) + d) as char
  }

  function DigitValue(c: char): (d: int)
    requires IsDigit(c)
    ensures 0 <= d < 10
  {
    (c as int) - ('0' as int)
  }

  /** The value of a string of decimal digits, the last digit the least significant. */
  function ParseNat(s: string): nat
    requires AllDigits(s)
  {
    if s == [] then 0 else 10 * ParseNat(s[..|s| - 1]) + DigitValue(s[|s| - 1])
  }

  /** `str(n)` for a non-negative integer: digits only, and no leading zero. */
  function NatToString(n: nat): (s: string)
    ensures |s| >= 1 && AllDigits(s)
    ensures |s| > 1 ==> s[0] != '0'
    ensures ParseNat(s) == n
  {
    if n < 10 then [DigitChar(n)]
    else
      var s := NatToString(n / 10) + [DigitChar(n % 10)];
      assert s[..|s| - 1] == NatToString(n / 10);
      s
  }

  /** Text of the shape `str` gives an integer: an optional '-' then at least one digit. */
  predicate IsIntText(s: string)
  {
    if |s| > 0 && s[0] == '-' then |s| > 1 && AllDigits(s[1..]) else |s| > 0 && AllDigits(s)
  }

  function ParseInt(s: string): int
    requires IsIntText(s)
  {
    var magnitude: int := if s[0] == '-' then ParseNat(s[1..]) else ParseNat(s);
    if s[0] == '-' then -magnitude else magnitude
  }

  /** `str(n)` for any integer: a '-' only for negatives, no leading zero, and never a '/'. */
  function IntToString(n: int): (s: string)
    ensures IsIntText(s)
    ensures (s[0] == '-') <==> n < 0
    ensures var digits := if n < 0 then s[1..] else s; |digits| > 1 ==> digits[0] != '0'
    ensures '/' !in s
    ensures ParseInt(s) == n
  {
    if n < 0 then
      var s := "-" + NatToString(-n);
      assert s[1..] == NatToString(-n);
      s
    else NatToString(n)
  }

  /** `f"{n:02d}"` for a non-negative integer: zero-padded to two digits, wider when it must be. */
  function Pad2(n: nat): (s: string)
    ensures AllDigits(s) && '/' !in s
    ensures n < 100 ==> |s| == 2
    ensures ParseNat(s) == n
  {
    if n < 10 then
      var s := "0" + NatToString(n);
      assert s == ['0', DigitChar(n)] && DigitValue(DigitChar(n)) == n;
      assert s[..|s| - 1] == "0" && ParseNat("0") == 0;
      assert ParseNat(s) == 10 * ParseNat(s[..|s| - 1]) + DigitValue(s[|s| - 1]);
      assert ParseNat(s) == n;
      s
    else
      assert n < 100 ==> NatToString(n) == [DigitChar(n / 10), DigitChar(n % 10)];
      NatToString(n)
  }
}
