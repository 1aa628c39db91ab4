/** How JavaScript prints the numbers the action puts in its texts: counts
    are non-negative integers, rates are numbers with at most two decimals,
    here given exactly in hundredths. Each printer has a parser that undoes it. */
module Decimal {
  import opened Wrappers

  predicate IsDigit(c: char) { '0' <= c <= '9' }

  predicate IsDigits(s: string) { forall i :: 0 <= i < |s| ==> IsDigit(s[i]) }

  function DigitValue(c: char): (d: nat)
    requires IsDigit(c)
    ensures d < 10
  {
    c as int - '0' as int
  }

  function DigitChar(d: nat): (c: char)
    requires d < 10
    ensures IsDigit(c) && DigitValue(c) == d
  {
    ('0' as int + d) as char
  }

  /** The decimal digits of `n`, without leading zeros (what `${n}` gives for
      an integer below 10^21). */
  function NatToString(n: nat): (s: string)
    ensures |s| >= 1 && IsDigits(s)
    ensures s[0] == '0' <==> n == 0
  {
    if n < 10 then [DigitChar(n)] else NatToString(n / 10) + [DigitChar(n % 10)]
  }

  /** The number a string of digits denotes. */
  function ParseNat(s: string): nat
    requires IsDigits(s)
  {
    if s == [] then 0 else ParseNat(s[..|s| - 1]) * 10 + DigitValue(s[|s| - 1])
  }

  lemma {:induction false} ParseNatToString(n: nat)
    ensures ParseNat(NatToString(n)) == n
  {
    if n >= 10 {
      var s := NatToString(n);
      assert s[..|s| - 1] == NatToString(n / 10);
      ParseNatToString(n / 10);
    }
  }

  /** A number given in hundredths, printed as JavaScript prints the result of
      `Number(x.toFixed(2))`: the integer part, then a point and the fraction
      only when the fraction is not zero, with a trailing zero dropped. */
  function HundredthsToString(h: nat): (s: string)
    ensures forall i :: 0 <= i < |s| ==> IsDigit(s[i]) || s[i] == '.'
  {
    var whole := NatToString(h / 100);
    var f := h % 100;
    if f == 0 then whole
    else if f % 10 == 0 then whole + "." + [DigitChar(f / 10)]
    else whole + "." + [DigitChar(f / 10), DigitChar(f % 10)]
  }

  /** A signed number in hundredths, printed with a leading minus when negative. */
  function NumberToString(h: int): (s: string)
    ensures |s| >= 1
    ensures forall i :: 0 <= i < |s| ==> IsDigit(s[i]) || s[i] == '.' || s[i] == '-'
    ensures h >= 0 ==> s[0] != '-' && s == HundredthsToString(h)
  {
    if h < 0 then "-" + HundredthsToString(-h) else HundredthsToString(h)
  }

  /** Reads back a number printed by `HundredthsToString`: digits, optionally
      followed by a point and one or two digits, the last of them not zero. */
  function ParseHundredths(s: string): Option<nat>
  {
    if |s| >= 2 && s[|s| - 2] == '.' then
      var whole := s[..|s| - 2];
      var d := s[|s| - 1];
      if |whole| > 0 && IsDigits(whole) && IsDigit(d) && d != '0'
      then Some(ParseNat(whole) * 100 + DigitValue(d) * 10)
      else None
    else if |s| >= 3 && s[|s| - 3] == '.' then
      var whole := s[..|s| - 3];
      var d1, d2 := s[|s| - 2], s[|s| - 1];
      if |whole| > 0 && IsDigits(whole) && IsDigit(d1) && IsDigit(d2) && d2 != '0'
      then Some(ParseNat(whole) * 100 + DigitValue(d1) * 10 + DigitValue(d2))
      else None
    else if |s| > 0 && IsDigits(s) then Some(ParseNat(s) * 100)
    else None
  }

  /** A whole number of percent prints without a point. */
  lemma ParseWhole(h: nat)
    requires h % 100 == 0
    ensures ParseHundredths(HundredthsToString(h)) == Some(h)
  {
    ParseNatToString(h / 100);
    var s := HundredthsToString(h);
    assert s == NatToString(h / 100);
    assert s[|s| - 1] != '.';
    if |s| >= 2 { assert s[|s| - 2] != '.'; }
    if |s| >= 3 { assert s[|s| - 3] != '.'; }
  }

  /** A rate with one decimal prints one digit after the point. */
  lemma ParseOneDecimal(h: nat)
    requires h % 100 != 0 && h % 100 % 10 == 0
    ensures ParseHundredths(HundredthsToString(h)) == Some(h)
  {
    var whole, f := NatToString(h / 100), h % 100;
    ParseNatToString(h / 100);
    var s := HundredthsToString(h);
    assert s == whole + "." + [DigitChar(f / 10)];
    assert s[..|s| - 2] == whole;
    assert s[|s| - 2] == '.';
    assert DigitChar(f / 10) != '0';
  }

  /** A rate with two decimals prints two digits after the point. */
  lemma ParseTwoDecimals(h: nat)
    requires h % 100 % 10 != 0
    ensures ParseHundredths(HundredthsToString(h)) == Some(h)
  {
    var whole, f := NatToString(h / 100), h % 100;
    ParseNatToString(h / 100);
    var s := HundredthsToString(h);
    assert s == whole + "." + [DigitChar(f / 10), DigitChar(f % 10)];
    assert s[..|s| - 3] == whole;
    assert s[|s| - 2] == DigitChar(f / 10);
    assert s[|s| - 3] == '.';
    assert DigitChar(f % 10) != '0';
  }

  /** Printing a rate loses nothing: the printed text determines the number. */
  lemma ParseHundredthsToString(h: nat)
    ensures ParseHundredths(HundredthsToString(h)) == Some(h)
  {
    if h % 100 == 0 {
      ParseWhole(h);
    } else if h % 100 % 10 == 0 {
      ParseOneDecimal(h);
    } else {
      ParseTwoDecimals(h);
    }
  }

  /** Two different rates never print alike. */
  lemma HundredthsToStringInjective(a: nat, b: nat)
    requires HundredthsToString(a) == HundredthsToString(b)
    ensures a == b
  {
    ParseHundredthsToString(a);
    ParseHundredthsToString(b);
  }
}
