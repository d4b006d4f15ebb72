/**
 * Decimal numerals: the digit strings a titer's magnitude is written in,
 * their value, and the canonical rendering of a natural number.
 */
module Decimal {

  /** The set of characters the validator treats as numeric. */
  const DigitChars: string := "0123456789"

  predicate IsDigit(c: char) {
    '0' <= c <= '9'
  }

  predicate AllDigits(s: string) {
    forall i :: 0 <= i < |s| ==> IsDigit(s[i])
  }

  /** A numeral in the titer grammar: non-empty, all digits, no leading zero. */
  predicate IsNumeral(s: string) {
    |s| > 0 && s[0] != '0' && AllDigits(s)
  }

  function DigitValue(c: char): (d: nat)
    requires IsDigit(c)
    ensures d < 10
    ensures DigitChar(d) == c
  {
    (c as int) - ('0' as int)
  }

  function DigitChar(d: nat): (c: char)
    requires d < 10
    ensures IsDigit(c)
    ensures c == '0' <==> d == 0
  {
    (('0' as int) + d) as char
  }

  lemma DigitCharsAreDigits(c: char)
    ensures c in DigitChars <==> IsDigit(c)
  {
  }

  /** The value of a digit string, most significant digit first. */
  function Value(s: string): nat
    requires AllDigits(s)
  {
    if |s| == 0 then 0 else Value(s[..|s| - 1]) * 10 + DigitValue(s[|s| - 1])
  }

  /** The shortest decimal rendering of n (`"0"` for zero). */
  function ToDecimal(n: nat): (s: string)
    ensures |s| > 0
  {
    if n < 10 then [DigitChar(n)] else ToDecimal(n / 10) + [DigitChar(n % 10)]
  }

  lemma {:induction false} ToDecimalIsNumeral(n: nat)
    requires n >= 1
    ensures IsNumeral(ToDecimal(n))
  {
    if n >= 10 {
      ToDecimalIsNumeral(n / 10);
      var p := ToDecimal(n / 10);
      assert ToDecimal(n) == p + [DigitChar(n % 10)];
    }
  }

  lemma {:induction false} ValueOfToDecimal(n: nat)
    ensures AllDigits(ToDecimal(n))
    ensures Value(ToDecimal(n)) == n
  {
    if n >= 10 {
      ValueOfToDecimal(n / 10);
      var p := ToDecimal(n / 10);
      var s := ToDecimal(n);
      assert s == p + [DigitChar(n % 10)];
      assert s[..|s| - 1] == p;
    }
  }

  lemma {:induction false} NumeralValuePositive(s: string)
    requires IsNumeral(s)
    ensures Value(s) >= 1
  {
    if |s| > 1 {
      NumeralValuePositive(s[..|s| - 1]);
    }
  }

  /** Every numeral is the canonical rendering of its own value. */
  lemma {:induction false} ToDecimalOfValue(s: string)
    requires IsNumeral(s)
    ensures ToDecimal(Value(s)) == s
  {
    var last := s[|s| - 1];
    if |s| == 1 {
      assert Value(s) == DigitValue(last);
    } else {
      var p := s[..|s| - 1];
      assert IsNumeral(p);
      ToDecimalOfValue(p);
      NumeralValuePositive(p);
      var v := Value(s);
      assert v == Value(p) * 10 + DigitValue(last);
      assert v / 10 == Value(p) && v % 10 == DigitValue(last);
      assert s == p + [last];
    }
  }

  /** Two natural numbers have the same rendering only if they are equal. */
  lemma ToDecimalInjective(m: nat, n: nat)
    requires ToDecimal(m) == ToDecimal(n)
    ensures m == n
  {
    ValueOfToDecimal(m);
    ValueOfToDecimal(n);
  }
}
