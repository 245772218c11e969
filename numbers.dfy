/** std::from_chars for unsigned decimal integers. */
module FromChars {
  import opened Wrappers
  import Decimal

  datatype Errc = InvalidArgument | ResultOutOfRange

  predicate IsDigit(c: char) { '0' <= c <= '9' }

  /** Number of leading decimal digits. */
  function DigitCount(s: string): (r: nat)
    ensures r <= |s|
    ensures forall i :: 0 <= i < r ==> IsDigit(s[i])
    ensures r < |s| ==> !IsDigit(s[r])
  {
    if s == [] || !IsDigit(s[0]) then 0 else 1 + DigitCount(s[1..])
  }

  /** Value of a string made only of decimal digits. */
  function DigitsValue(s: string): nat
    requires forall i :: 0 <= i < |s| ==> IsDigit(s[i])
  {
    if s == [] then 0
    else
      assert IsDigit(s[|s| - 1]);
      DigitsValue(s[..|s| - 1]) * 10 + (s[|s| - 1] as int - '0' as int)
  }

  /**
   * Parses the longest prefix of decimal digits into a value no larger than max.
   * No leading digit (a sign included) is an invalid argument; a value above max is
   * out of range. Characters after the digits are not examined.
   */
  function Parse(s: string, max: nat): (r: Result<nat, Errc>)
    ensures r == Err(InvalidArgument) <==> s == [] || !IsDigit(s[0])
    ensures r.Ok? ==> r.value <= max && r.value == DigitsValue(s[..DigitCount(s)])
    ensures r == Err(ResultOutOfRange) <==> DigitCount(s) > 0 && DigitsValue(s[..DigitCount(s)]) > max
  {
    var n := DigitCount(s);
    if n == 0 then Err(InvalidArgument)
    else if DigitsValue(s[..n]) > max then Err(ResultOutOfRange)
    else Ok(DigitsValue(s[..n]))
  }

  lemma {:induction false} ValueOfDecimal(n: nat)
    ensures forall i :: 0 <= i < |Decimal.ToDecimal(n)| ==> IsDigit(Decimal.ToDecimal(n)[i])
    ensures DigitsValue(Decimal.ToDecimal(n)) == n
    decreases n
  {
    var d := Decimal.ToDecimal(n);
    if n >= 10 {
      ValueOfDecimal(n / 10);
      assert d[..|d| - 1] == Decimal.ToDecimal(n / 10);
    }
  }

  lemma {:induction false} DigitCountOfDigitsThen(d: string, rest: string)
    requires forall i :: 0 <= i < |d| ==> IsDigit(d[i])
    requires rest == [] || !IsDigit(rest[0])
    ensures DigitCount(d + rest) == |d|
  {
    if d != [] {
      assert (d + rest)[1..] == d[1..] + rest;
      DigitCountOfDigitsThen(d[1..], rest);
    }
  }

  /** Rendering a number in decimal and parsing it back yields the number, whatever
    * non-digit text follows it. */
  lemma RoundTrip(n: nat, max: nat, rest: string)
    requires n <= max
    requires rest == [] || !IsDigit(rest[0])
    ensures Parse(Decimal.ToDecimal(n) + rest, max) == Ok(n)
  {
    var d := Decimal.ToDecimal(n);
    ValueOfDecimal(n);
    DigitCountOfDigitsThen(d, rest);
    assert (d + rest)[..|d|] == d;
  }
}
