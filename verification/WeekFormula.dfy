/**
 The closed week-number formula of date.js, over exact reals: its month term has a fractional part that
 the last subtraction cancels. Months count from 1 here, as they do in the formula.
 */
module WeekFormula {
  import opened Calendar

  // Conversion to an integer by `|0`: towards zero.
  function Trunc(x: real): int {
    if x >= 0.0 then x.Floor else -((-x).Floor)
  }

  // The remainder operator of JavaScript: its sign is that of the dividend.
  function Rem(x: real, n: real): real
    requires n > 0.0
  {
    x - n * Trunc(x / n) as real
  }

  function LeapCount(a: real): int {
    Trunc(a / 4.0) - Trunc(a / 100.0) + Trunc(a / 400.0)
  }

  function WeekNumber(y: int, m: int, d: int): int {
    var a := if m <= 2 then y - 1 else y;
    var b := LeapCount(a as real);
    var c := LeapCount((a - 1) as real);
    var s := b - c;
    var e := if m <= 2 then 0 else s + 1;
    var f := if m <= 2 then (d - 1 + 31 * (m - 1)) as real
             else d as real + MonthTerm(m) + (58 + s) as real;
    WeekFromTerms(s, e, f, Rem((a + b) as real, 7.0))
  }

  // The days since 1 March before month m, up to a fraction of a day.
  function MonthTerm(m: int): real {
    (153 * (m - 3) + 2) as real / 5.0
  }

  function WeekFromTerms(s: int, e: int, f: real, g: real): int {
    var d := Rem(f + g - e as real, 7.0);
    var n := Trunc(f + 3.0 - d);
    if n < 0 then 53 - Trunc((g - s as real) / 5.0)
    else if n > 364 + s then 1
    else Trunc(n as real / 7.0) + 1
  }

  lemma TruncIsDiv(x: int)
    requires x >= 0
    ensures Trunc(x as real / 4.0) == x / 4 && Trunc(x as real / 100.0) == x / 100
    ensures Trunc(x as real / 400.0) == x / 400 && Trunc(x as real / 7.0) == x / 7
    ensures Rem(x as real, 7.0) == (x % 7) as real
  {
    Quotient(x, x / 4, x % 4, 4.0);
    Quotient(x, x / 100, x % 100, 100.0);
    Quotient(x, x / 400, x % 400, 400.0);
    Quotient(x, x / 7, x % 7, 7.0);
  }

  lemma Quotient(x: int, q: nat, r: nat, k: real)
    requires 0 <= x && r as real < k && x as real == q as real * k + r as real
    ensures Trunc(x as real / k) == q
  {
    var z := x as real / k;
    SharePart(r as real, k);
    assert z == q as real + r as real / k;
  }

  lemma SharePart(r: real, k: real)
    requires 0.0 <= r < k
    ensures 0.0 <= r / k < 1.0
  {
    var z := r / k;
    assert z * k == r;
    Scaled(z, k);
  }

  lemma Scaled(z: real, k: real)
    requires 0.0 < k
    ensures z >= 1.0 ==> z * k >= k
    ensures z < 0.0 ==> z * k < 0.0
  {
    if z >= 1.0 {
      assert (z - 1.0) * k >= 0.0;
    } else if z < 0.0 {
      assert (-z) * k > 0.0;
    }
  }

  // A remainder by 7 keeps the fractional part.
  lemma RemOfFraction(x: int, r: real)
    requires x >= 0 && 0.0 <= r < 1.0
    ensures Rem(x as real + r, 7.0) == (x % 7) as real + r
  {
    var q := x / 7;
    var z := (x as real + r) / 7.0;
    assert x as real == 7.0 * q as real + (x % 7) as real && (x % 7) as real <= 6.0;
    assert 7.0 * z < 7.0 * q as real + 7.0;
    assert q as real <= z < q as real + 1.0;
    assert Trunc(z) == q;
  }

  lemma MonthTermFloor(y: int, m: int) returns (days: int, r: real)
    requires 3 <= m <= 12
    ensures MonthTerm(m) == days as real + r && 0.0 <= r < 1.0
    ensures MonthStart(y, m - 1) == 59 + days + (if IsLeap(y) then 1 else 0)
  {
    days := MonthStart(y, m - 1) - 59 - (if IsLeap(y) then 1 else 0);
    r := MonthTerm(m) - days as real;
  }

  lemma LeapDifference(a: int)
    requires a >= 1
    ensures LeapCount(a as real) == Leaps(a) && LeapCount((a - 1) as real) == Leaps(a - 1)
    ensures Leaps(a) - Leaps(a - 1) == if IsLeap(a) then 1 else 0
  {
    TruncIsDiv(a);
    TruncIsDiv(a - 1);
    DivStep(a);
    LeapNesting(a);
  }

  // The last steps of the formula in whole numbers, for a day term with a fraction.
  lemma WeekFromTermsInDays(s: int, e: int, day: int, r: real, g: int)
    requires 0 <= day + g - e && 0.0 <= r < 1.0
    ensures var n := day + 3 - (day + g - e) % 7;
            WeekFromTerms(s, e, day as real + r, g as real) ==
              if n < 0 then 53 - Trunc((g - s) as real / 5.0)
              else if n > 364 + s then 1
              else n / 7 + 1
  {
    var n := day + 3 - (day + g - e) % 7;
    RemOfFraction(day + g - e, r);
    TruncOfInt(n);
    if 0 <= n {
      TruncIsDiv(n);
    }
  }

  // The formula in whole numbers: n is the day of the year, from 0, of the week's Thursday.
  lemma WeekNumberInDays(y: int, m: int, d: int)
    requires y >= 2 && IsDate(y, m - 1, d)
    ensures var n := Thursday(DayNumber(y, m - 1, d)) - YearStart(y);
            var a := if m <= 2 then y - 1 else y;
            var s := if IsLeap(a) then 1 else 0;
            WeekNumber(y, m, d) ==
              if n < 0 then 53 - Trunc(((a + Leaps(a)) % 7 - s) as real / 5.0)
              else if n > 364 + s then 1
              else n / 7 + 1
  {
    hide Trunc, Rem, WeekFromTerms, LeapCount, YearStart, Leaps;
    var a := if m <= 2 then y - 1 else y;
    var s := if IsLeap(a) then 1 else 0;
    var e := if m <= 2 then 0 else s + 1;
    var g := (a + Leaps(a)) % 7;
    LeapsNonNegative(a);
    LeapDifference(a);
    TruncIsDiv(a + Leaps(a));
    var day := MonthStart(y, m - 1) + d - 1;
    MonthStep(y, m - 1);
    WeekdayTerm(y, m, day);
    var r := 0.0;
    if m > 2 {
      var days, fraction := MonthTermFloor(y, m);
      r := fraction;
    }
    WeekFromTermsInDays(s, e, day, r, g);
  }

  lemma LeapsNonNegative(a: int)
    requires a >= 0
    ensures Leaps(a) >= 0
  {
  }

  lemma TruncOfInt(n: int)
    ensures Trunc(n as real) == n
  {
  }

  lemma WeekdayTerm(y: int, m: int, day: int)
    requires y >= 2 && 0 <= day && 1 <= m <= 12 && (m > 2 ==> day >= 59)
    ensures var a := if m <= 2 then y - 1 else y;
            var s := if IsLeap(a) then 1 else 0;
            var g := (a + Leaps(a)) % 7;
            var e := if m <= 2 then 0 else s + 1;
            0 <= day + g - e && (day + g - e) % 7 == (YearStart(y) + day - 1) % 7
  {
    var a := if m <= 2 then y - 1 else y;
    LeapDifference(a);
    var x := a + Leaps(a);
    if m <= 2 {
      Mod7(YearStart(y) + day - 1, (day + x % 7) / 7 + x / 7 + 52 * y, (day + x % 7) % 7);
    } else {
      var s := if IsLeap(a) then 1 else 0;
      var z := day + x % 7 - s - 1;
      Mod7(YearStart(y) + day - 1, z / 7 + x / 7 + 52 * y, z % 7);
    }
  }

  // For every date from the year 2 on, the formula gives the ISO week.
  lemma WeekNumberIsIsoWeek(y: int, m: int, d: int)
    requires y >= 2 && IsDate(y, m - 1, d)
    ensures WeekNumber(y, m, d) == IsoWeek(DayNumber(y, m - 1, d))
  {
    hide WeekNumber, YearStart, Leaps, Trunc, IsLeap;
    var t := DayNumber(y, m - 1, d);
    var n := Thursday(t) - YearStart(y);
    WeekNumberInDays(y, m, d);
    MonthStep(y, m - 1);
    YearStep(y);
    YearStep(y - 1);
    if n < 0 {
      YearUnique(Thursday(t), y - 1);
      LastWeekOfPreviousYear(y, m, d);
    } else if n >= YearLength(y) {
      YearStep(y + 1);
      YearUnique(Thursday(t), y + 1);
    } else {
      YearUnique(Thursday(t), y);
    }
  }

  // Days before the first Thursday's week close the previous year, whose last week is told from g and s.
  lemma LastWeekOfPreviousYear(y: int, m: int, d: int)
    requires y >= 2 && IsDate(y, m - 1, d)
    requires Thursday(DayNumber(y, m - 1, d)) < YearStart(y)
    ensures m == 1 && d <= 3
    ensures var s := if IsLeap(y - 1) then 1 else 0;
            var n := Thursday(DayNumber(y, m - 1, d)) - YearStart(y);
            (365 + s + n) / 7 + 1 == 53 - Trunc(((y - 1 + Leaps(y - 1)) % 7 - s) as real / 5.0)
  {
    var t := DayNumber(y, m - 1, d);
    MonthStep(y, m - 1);
    var day := t - YearStart(y);
    assert day <= 2;
    assert m == 1 by {
      if m > 1 { MonthStartMonotone(y, 1, m - 1); }
    }
    WeekdayTerm(y, m, day);
    var g := (y - 1 + Leaps(y - 1)) % 7;
    var s := if IsLeap(y - 1) then 1 else 0;
    assert day + 3 - (day + g) % 7 == Thursday(t) - YearStart(y);
    assert Trunc((g - s) as real / 5.0) == if g - s >= 5 then 1 else 0;
  }
}
