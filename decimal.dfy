/** Decimal rendering of naturals, as produced by fmt's "{:d}" and Python f-strings. */
module Decimal {
  function DigitChar(d: nat): (c: char)
    requires d < 10
  {
    "0123456789"[d]
  }

  function ToDecimal(n: nat): (r: string)
    ensures |r| >= 1
    ensures forall i :: 0 <= i < |r| ==> '0' <= r[i] <= '9'
    decreases n
  {
    if n < 10 then [DigitChar(n)] else ToDecimal(n / 10) + [DigitChar(n % 10)]
  }

  lemma {:induction false} ToDecimalLength(n: nat)
    ensures n < 10 <==> |ToDecimal(n)| == 1
  {
    if n >= 10 {
      assert |ToDecimal(n)| == |ToDecimal(n / 10)| + 1;
    }
  }

  /** Different numbers have different renderings. */
  lemma {:induction false} ToDecimalInjective(a: nat, b: nat)
    requires ToDecimal(a) == ToDecimal(b)
    ensures a == b
    decreases a
  {
    ToDecimalLength(a);
    ToDecimalLength(b);
    if a >= 10 {
      var ra, rb := ToDecimal(a), ToDecimal(b);
      assert ra[|ra| - 1] == DigitChar(a % 10) && rb[|rb| - 1] == DigitChar(b % 10);
      assert ra[..|ra| - 1] == ToDecimal(a / 10);
      assert rb[..|rb| - 1] == ToDecimal(b / 10);
      ToDecimalInjective(a / 10, b / 10);
    }
  }
}
