/** Decimal numerals: writing a natural number and reading it back. */
module Decimals {

  predicate IsDigit(c: char) { '0' <= c <= '9' }

  function Digit(d: nat): (c: char)
    requires d < 10
    ensures IsDigit(c) && DigitValue(c) == d
  {
    '0' + d as char
  }

  function DigitValue(c: char): (d: int) { c as int - '0' as int }

  function Decimal(n: nat): (s: string)
    ensures s != []
  {
    if n < 10 then [Digit(n)] else Decimal(n / 10) + [Digit(n % 10)]
  }

  /** The number written by the first `n` characters. */
  function ValueTo(s: string, n: nat): (r: int)
    requires n <= |s|
  {
    if n == 0 then 0 else 10 * ValueTo(s, n - 1) + DigitValue(s[n - 1])
  }

  function Value(s: string): (r: int) { ValueTo(s, |s|) }

  lemma {:induction false} ValuePrefix(a: string, b: string, n: nat)
    requires n <= |a|
    ensures ValueTo(a + b, n) == ValueTo(a, n)
  {
    if n > 0 { ValuePrefix(a, b, n - 1); }
  }

  lemma {:induction false} ValueDecimal(n: nat)
    ensures Value(Decimal(n)) == n
  {
    if n < 10 {
      assert ValueTo([Digit(n)], 0) == 0;
    } else {
      ValueDecimal(n / 10);
      ValuePrefix(Decimal(n / 10), [Digit(n % 10)], |Decimal(n / 10)|);
    }
  }

  lemma {:induction false} DecimalDigits(n: nat)
    ensures forall c :: c in Decimal(n) ==> IsDigit(c)
  {
    if n >= 10 { DecimalDigits(n / 10); }
  }

  lemma DecimalInjective(m: nat, n: nat)
    requires Decimal(m) == Decimal(n)
    ensures m == n
  {
    ValueDecimal(m);
    ValueDecimal(n);
  }
}
