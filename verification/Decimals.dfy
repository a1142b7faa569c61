/** Decimal strings, as PHP converts between numbers and strings. */
module Decimals {

  predicate IsDigit(c: char) {
    '0' <= c <= '9'
  }

  ghost predicate Digits(s: string) {
    forall i :: 0 <= i < |s| ==> IsDigit(s[i])
  }

  function DigitValue(c: char): nat
    requires IsDigit(c)
  {
    (c - '0') as nat
  }

  function Digit(d: nat): (c: char)
    requires d < 10
    ensures IsDigit(c) && DigitValue(c) == d
  {
    '0' + d as char
  }

  /** The number a string of digits stands for. */
  function FromDecimal(s: string): nat
    requires Digits(s)
  {
    if s == "" then 0 else 10 * FromDecimal(s[..|s| - 1]) + DigitValue(s[|s| - 1])
  }

  /** A number in decimal, without leading zeros. */
  function ToDecimal(n: nat): (s: string)
    ensures Digits(s) && |s| > 0
  {
    if n < 10 then [Digit(n)] else ToDecimal(n / 10) + [Digit(n % 10)]
  }

  lemma {:induction false} FromToDecimal(n: nat)
    ensures FromDecimal(ToDecimal(n)) == n
  {
    if n >= 10 {
      FromToDecimal(n / 10);
      assert ToDecimal(n)[..|ToDecimal(n)| - 1] == ToDecimal(n / 10);
    }
  }

  lemma {:induction false} Leading(s: string)
    requires Digits(s) && s != "" && s[0] != '0'
    ensures FromDecimal(s) > 0
  {
    if |s| > 1 {
      Leading(s[..|s| - 1]);
    }
  }

  /** A string of digits that does not start with zero is the decimal form of its number. */
  lemma {:induction false} ToFromDecimal(s: string)
    requires Digits(s) && s != "" && s[0] != '0'
    ensures ToDecimal(FromDecimal(s)) == s
  {
    var last := |s| - 1;
    if last > 0 {
      var front, digit := s[..last], DigitValue(s[last]);
      ToFromDecimal(front);
      Leading(front);
      assert s == front + [s[last]];
      assert Digit(digit) == s[last];
      assert FromDecimal(s) == FromDecimal(front) * 10 + digit;
      hide FromDecimal, DigitValue, Digit;
    } else {
      assert s == [s[0]];
      assert Digit(DigitValue(s[0])) == s[0];
    }
  }
}
