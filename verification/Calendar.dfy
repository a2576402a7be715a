/**
 The proleptic Gregorian calendar as day numbers, and the ISO week of a day (section 2.2.10 of ISO 8601:2004).
 Months count from 0 and weekdays from Sunday, as in JavaScript.
 */
module Calendar {

  predicate IsLeap(y: int) {
    (y % 4 == 0 && y % 100 != 0) || y % 400 == 0
  }

  function DaysInMonth(y: int, m: int): (n: int)
    requires 0 <= m < 12
    ensures 28 <= n <= 31
  {
    [31, if IsLeap(y) then 29 else 28, 31, 30, 31, 30, 31, 31, 30, 31, 30, 31][m]
  }

  function YearLength(y: int): int {
    if IsLeap(y) then 366 else 365
  }

  // Days of the year before month m; m == 12 gives the whole year.
  function MonthStart(y: int, m: int): int
    requires 0 <= m <= 12
  {
    [0, 31, 59, 90, 120, 151, 181, 212, 243, 273, 304, 334, 365][m] + (if m >= 2 && IsLeap(y) then 1 else 0)
  }

  // Leap years among the years 1 to y, extended to all integers.
  function Leaps(y: int): int {
    y / 4 - y / 100 + y / 400
  }

  // The day number of 1 January. The origin is chosen so that Sundays are the multiples of 7.
  function YearStart(y: int): int {
    365 * y + Leaps(y - 1)
  }

  lemma DivStep(y: int)
    ensures y / 4 - (y - 1) / 4 == if y % 4 == 0 then 1 else 0
    ensures y / 100 - (y - 1) / 100 == if y % 100 == 0 then 1 else 0
    ensures y / 400 - (y - 1) / 400 == if y % 400 == 0 then 1 else 0
  {
  }

  lemma LeapNesting(y: int)
    ensures y % 400 == 0 ==> y % 100 == 0
    ensures y % 100 == 0 ==> y % 4 == 0
  {
  }

  lemma YearStep(y: int)
    ensures YearStart(y + 1) == YearStart(y) + YearLength(y)
  {
    DivStep(y);
    LeapNesting(y);
  }

  lemma MonthStep(y: int, m: int)
    requires 0 <= m < 12
    ensures MonthStart(y, m + 1) == MonthStart(y, m) + DaysInMonth(y, m)
    ensures 0 <= MonthStart(y, m) && MonthStart(y, m + 1) <= YearLength(y)
  {
  }

  predicate IsDate(y: int, m: int, d: int) {
    0 <= m < 12 && 1 <= d <= DaysInMonth(y, m)
  }

  function DayNumber(y: int, m: int, d: int): int
    requires 0 <= m < 12
  {
    YearStart(y) + MonthStart(y, m) + d - 1
  }

  function Weekday(t: int): int {
    t % 7
  }

  // ---- from a day number back to year, month and day ----

  function YearNear(t: int, g: int): (y: int)
    ensures YearStart(y) <= t < YearStart(y + 1)
    decreases t < YearStart(g), if t < YearStart(g) then YearStart(g) - t else t - YearStart(g)
  {
    YearStep(g);
    YearStep(g - 1);
    if t < YearStart(g) then YearNear(t, g - 1)
    else if t >= YearStart(g + 1) then YearNear(t, g + 1)
    else g
  }

  function YearOf(t: int): (y: int)
    ensures YearStart(y) <= t < YearStart(y + 1)
  {
    YearNear(t, 1970)
  }

  function MonthFrom(y: int, n: int, m: int): (r: int)
    requires 0 <= m < 12 && MonthStart(y, m) <= n < YearLength(y)
    ensures m <= r < 12 && MonthStart(y, r) <= n < MonthStart(y, r + 1)
    decreases 12 - m
  {
    if n < MonthStart(y, m + 1) then m else MonthFrom(y, n, m + 1)
  }

  function MonthOf(t: int): (m: int)
    ensures 0 <= m < 12
    ensures MonthStart(YearOf(t), m) <= t - YearStart(YearOf(t)) < MonthStart(YearOf(t), m + 1)
  {
    YearStep(YearOf(t));
    MonthFrom(YearOf(t), t - YearStart(YearOf(t)), 0)
  }

  function DayOf(t: int): (d: int)
    ensures IsDate(YearOf(t), MonthOf(t), d) && DayNumber(YearOf(t), MonthOf(t), d) == t
  {
    MonthStep(YearOf(t), MonthOf(t));
    t - YearStart(YearOf(t)) - MonthStart(YearOf(t), MonthOf(t)) + 1
  }

  lemma {:induction false} YearStartMonotone(y: int, z: int)
    requires y < z
    ensures YearStart(y) + 365 * (z - y) <= YearStart(z)
    decreases z - y
  {
    YearStep(z - 1);
    if y == z - 1 {
    } else {
      YearStartMonotone(y, z - 1);
    }
  }

  lemma {:induction false} MonthStartMonotone(y: int, m: int, k: int)
    requires 0 <= m <= k <= 12
    ensures MonthStart(y, m) <= MonthStart(y, k)
    decreases k - m
  {
    if m == k {
    } else {
      MonthStep(y, m);
      MonthStartMonotone(y, m + 1, k);
    }
  }

  lemma YearUnique(t: int, y: int)
    requires YearStart(y) <= t < YearStart(y + 1)
    ensures YearOf(t) == y
  {
    if YearOf(t) < y {
      if YearOf(t) + 1 < y { YearStartMonotone(YearOf(t) + 1, y); }
    } else if y < YearOf(t) {
      if y + 1 < YearOf(t) { YearStartMonotone(y + 1, YearOf(t)); }
    }
  }

  // A day number names exactly one date, and a date exactly one day number.
  lemma DateUnique(y: int, m: int, d: int)
    requires IsDate(y, m, d)
    ensures var t := DayNumber(y, m, d); YearOf(t) == y && MonthOf(t) == m && DayOf(t) == d
  {
    var t := DayNumber(y, m, d);
    MonthStep(y, m);
    YearStep(y);
    YearUnique(t, y);
    var k := MonthOf(t);
    if k < m {
      MonthStartMonotone(y, k + 1, m);
    } else if m < k {
      MonthStartMonotone(y, m + 1, k);
    }
  }

  // ---- the ISO week, by its definition ----

  // The Thursday of the Monday-to-Sunday week that day t lies in.
  function Thursday(t: int): int {
    t - (t - 1) % 7 + 3
  }

  // The week's number is the index of its Thursday within that Thursday's year.
  function IsoWeek(t: int): (w: int)
    ensures 1 <= w <= 53
  {
    YearStep(YearOf(Thursday(t)));
    (Thursday(t) - YearStart(YearOf(Thursday(t)))) / 7 + 1
  }

  // The number of Thursdays, hence of ISO weeks, in a year.
  function WeeksIn(y: int): (n: int)
    ensures 52 <= n <= 53
  {
    YearStep(y);
    (YearLength(y) - 1 - FirstThursday(y)) / 7 + 1
  }

  lemma Mod7(x: int, q: int, r: int)
    requires x == 7 * q + r && 0 <= r < 7
    ensures x / 7 == q && x % 7 == r
  {
  }

  lemma WeekdayApart(x: int, y: int)
    requires x < y < x + 7
    ensures x % 7 != y % 7
  {
  }

  // The year's first Thursday is this many days into it.
  function FirstThursday(y: int): (f: int)
    ensures 0 <= f < 7
  {
    (4 - YearStart(y)) % 7
  }

  lemma ThursdayOfWeek(t: int)
    ensures var y := YearOf(Thursday(t));
            Thursday(t) == YearStart(y) + FirstThursday(y) + 7 * (IsoWeek(t) - 1)
  {
    hide YearStart;
    var y := YearOf(Thursday(t));
    var q, p := (t - 1) / 7, (4 - YearStart(y)) / 7;
    assert Thursday(t) == 7 * q + 4;
    assert 4 - YearStart(y) == 7 * p + FirstThursday(y);
    Mod7(Thursday(t) - YearStart(y), q + p, FirstThursday(y));
  }

  lemma WeekFromThursday(t: int, y: int, w: int)
    requires Thursday(t) == YearStart(y) + FirstThursday(y) + 7 * (w - 1)
    requires YearStart(y) <= Thursday(t) < YearStart(y + 1)
    ensures IsoWeek(t) == w
  {
    hide YearStart;
    YearUnique(Thursday(t), y);
    Mod7(Thursday(t) - YearStart(y), w - 1, FirstThursday(y));
  }

  lemma ThursdayShift(t: int, k: int)
    ensures Thursday(t + 7 * k) == Thursday(t) + 7 * k
  {
    Mod7(t + 7 * k - 1, (t - 1) / 7 + k, (t - 1) % 7);
  }

  // Going k weeks on from a day changes the week number by k exactly while it stays in the same ISO year.
  lemma IsoWeekShift(t: int, k: int)
    ensures IsoWeek(t + 7 * k) == IsoWeek(t) + k <==> 1 <= IsoWeek(t) + k <= WeeksIn(YearOf(Thursday(t)))
  {
    hide YearStart, Thursday;
    var y, w := YearOf(Thursday(t)), IsoWeek(t);
    ThursdayShift(t, k);
    ThursdayOfWeek(t);
    YearStep(y);
    if 1 <= w + k <= WeeksIn(y) {
      WeekFromThursday(t + 7 * k, y, w + k);
    } else if w + k == 53 {
      // The week after the last one opens the next year.
      YearStep(y + 1);
      YearUnique(Thursday(t) + 7 * k, y + 1);
    }
  }

  // The week after week w is w + 1, or week 1 of the next ISO year.
  lemma NextWeek(t: int)
    ensures IsoWeek(t + 7) == if IsoWeek(t) < WeeksIn(YearOf(Thursday(t))) then IsoWeek(t) + 1 else 1
    ensures IsoWeek(t + 7) != IsoWeek(t)
  {
    hide YearStart, Thursday, WeeksIn;
    var y, w := YearOf(Thursday(t)), IsoWeek(t);
    IsoWeekShift(t, 1);
    if w >= WeeksIn(y) {
      LastWeekThenFirst(t);
    }
  }

  lemma LastWeekThenFirst(t: int)
    requires IsoWeek(t) >= WeeksIn(YearOf(Thursday(t)))
    ensures IsoWeek(t + 7) == 1
  {
    hide YearStart, Thursday;
    var y := YearOf(Thursday(t));
    ThursdayShift(t, 1);
    ThursdayOfWeek(t);
    YearStep(y);
    YearStep(y + 1);
    YearUnique(Thursday(t) + 7, y + 1);
  }

  // Two days share their week when no Monday comes after the first up to the second.
  lemma SameWeek(t: int, u: int)
    requires t <= u < t - (t - 1) % 7 + 7
    ensures IsoWeek(t) == IsoWeek(u)
  {
    Mod7(u - 1, (t - 1) / 7, u - 1 - 7 * ((t - 1) / 7));
    assert Thursday(t) == Thursday(u);
  }
}
