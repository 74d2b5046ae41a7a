/** Decimal numerals in text. */
module Digits {

  predicate IsDigit(c: char) { '0' <= c <= '9' }

  function DigitValue(c: char): nat
    requires IsDigit(c)
  {
    (c - '0') as nat
  }

  function Digit(d: nat): (c: char)
    requires d < 10
    ensures IsDigit(c) && DigitValue(c) == d
  {
    '0' + d as char
  }

  /** What "%d" prints for a number that is not negative. */
  function Decimal(n: nat): string {
    if n < 10 then [Digit(n)] else Decimal(n / 10) + [Digit(n % 10)]
  }

  lemma {:induction false} DecimalDigits(n: nat)
    ensures |Decimal(n)| > 0 && forall i :: 0 <= i < |Decimal(n)| ==> IsDigit(Decimal(n)[i])
  {
    if n >= 10 {
      DecimalDigits(n / 10);
    }
  }

  function PowerOfTen(k: nat): nat { if k == 0 then 1 else 10 * PowerOfTen(k - 1) }

  lemma {:induction false} DecimalIsShort(n: nat, k: nat)
    requires k > 0 && n < PowerOfTen(k)
    ensures |Decimal(n)| <= k
  {
    if n >= 10 {
      DecimalIsShort(n / 10, k - 1);
    }
  }

  /** The number a text spells in decimal; -1 for any other text. */
  function ReadNumber(s: string): (n: int)
    ensures n >= -1
  {
    if s == "" || !IsDigit(s[|s| - 1]) then -1
    else
      var before := if |s| == 1 then 0 else ReadNumber(s[..|s| - 1]);
      if before < 0 then -1 else before * 10 + (s[|s| - 1] - '0') as int
  }

  /** What "%d" prints reads back. */
  lemma {:induction false} DecimalReadsBack(n: nat)
    ensures ReadNumber(Decimal(n)) == n
  {
    var s := Decimal(n);
    if n < 10 {
      assert s[0] == Digit(n) && DigitValue(Digit(n)) == n;
    } else {
      DecimalReadsBack(n / 10);
      DecimalDigits(n / 10);
      assert s[..|s| - 1] == Decimal(n / 10);
      assert DigitValue(Digit(n % 10)) == n % 10;
      assert n == (n / 10) * 10 + n % 10;
    }
  }
}
