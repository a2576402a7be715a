/**
 Numbers as the scripts handle them: the smaller and larger of two, and decimal texts.
 */
module Numbers {

  function Min(a: int, b: int): int {
    if a < b then a else b
  }

  function Max(a: int, b: int): int {
    if a < b then b else a
  }

  function Digit(n: nat): (c: char)
    requires n < 10
    ensures IsDigit(c) && DigitValue(c) == n
  {
    ('0' as int + n) as char
  }

  predicate IsDigit(c: char) {
    '0' <= c <= '9'
  }

  function DigitValue(c: char): nat
    requires IsDigit(c)
  {
    c as int - '0' as int
  }

  function Decimal(n: nat): (s: string)
    ensures |s| >= 1
  {
    if n < 10 then [Digit(n)] else Decimal(n / 10) + [Digit(n % 10)]
  }

  // The last l characters of the number with three zeros in front.
  function Padded(n: nat, l: nat): (s: string)
    requires l <= 4
    ensures |s| == l
  {
    var z := "000" + Decimal(n);
    z[|z| - l..]
  }
}
