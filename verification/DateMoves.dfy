/**
 Where the date operations of date.js land, as functions on day numbers.
 */
module DateMoves {
  import opened Wrappers
  import opened Numbers
  import opened Calendar

  // The remainder operator of JavaScript on integers.
  function JsRem(a: int, n: int): int
    requires n > 0
  {
    if a >= 0 then a % n else -((-a) % n)
  }

  // ---- months ----

  // Months counted from January of the year 0.
  function MonthIndex(t: int): int {
    12 * YearOf(t) + MonthOf(t)
  }

  function DaysInMonthAt(k: int): int {
    DaysInMonth(k / 12, k % 12)
  }

  // k months on, with the day cut to the length of the month reached.
  function AddMonths(t: int, k: int): (r: int)
    ensures MonthIndex(r) == MonthIndex(t) + k
    ensures DayOf(r) == Min(DayOf(t), DaysInMonthAt(MonthIndex(t) + k))
  {
    hide YearStart, MonthStart;
    var i := MonthIndex(t) + k;
    DateUnique(i / 12, i % 12, Min(DayOf(t), DaysInMonthAt(i)));
    DayNumber(i / 12, i % 12, Min(DayOf(t), DaysInMonthAt(i)))
  }

  lemma SameDate(t: int, u: int)
    requires MonthIndex(t) == MonthIndex(u) && DayOf(t) == DayOf(u)
    ensures t == u
  {
    hide YearStart, MonthStart, IsLeap;
    MonthIndexParts(t);
    MonthIndexParts(u);
  }

  lemma DayFits(t: int)
    ensures DayOf(t) <= DaysInMonthAt(MonthIndex(t))
  {
    hide YearStart, MonthStart, IsLeap;
    MonthIndexParts(t);
  }

  lemma MonthIndexParts(t: int)
    ensures MonthIndex(t) / 12 == YearOf(t) && MonthIndex(t) % 12 == MonthOf(t)
  {
    hide YearStart, MonthStart, IsLeap;
    var y, m := YearOf(t), MonthOf(t);
    assert (12 * y + m) / 12 == y;
  }

  // Going k months on and back again is the identity exactly when no day had to be cut.
  lemma AddMonthsThereAndBack(t: int, k: int)
    ensures AddMonths(AddMonths(t, k), -k) == t <==> DayOf(t) <= DaysInMonthAt(MonthIndex(t) + k)
  {
    hide AddMonths, MonthIndex, DaysInMonthAt, YearStart, MonthStart, IsLeap, YearOf, MonthOf, DayOf, DayNumber, IsDate;
    var there := AddMonths(t, k);
    DayFits(t);
    if DayOf(t) <= DaysInMonthAt(MonthIndex(t) + k) {
      SameDate(AddMonths(there, -k), t);
    }
  }

  // ---- set ----

  datatype Config = Config(month: Option<int>, year: Option<int>, day: Option<int>)

  // The fields are checked and applied one after the other: month, year, day. The second
  // component tells whether all checks passed; a failed check leaves the earlier fields applied.
  function SetFields(t: int, c: Config): (int, bool) {
    if c.month.Some? && !(0 <= c.month.value <= 11) then (t, false)
    else
      var t1 := if c.month.Some? then AddMonths(t, c.month.value - MonthOf(t)) else t;
      if c.year.Some? && !(0 <= c.year.value <= 9999) then (t1, false)
      else
        var t2 := if c.year.Some? then AddMonths(t1, 12 * (c.year.value - YearOf(t1))) else t1;
        if c.day.Some? && !(1 <= c.day.value <= DaysInMonth(YearOf(t2), MonthOf(t2))) then (t2, false)
        else (if c.day.Some? then t2 + c.day.value - DayOf(t2) else t2, true)
  }

  // Setting all three fields gives exactly that date, from whatever date it starts, and fails exactly
  // when there is no such date in the years 0 to 9999. Cut days on the way leave no trace.
  lemma SetIsExact(t: int, y: int, m: int, d: int)
    ensures SetFields(t, Config(Some(m), Some(y), Some(d))).1 <==> 0 <= y <= 9999 && IsDate(y, m, d)
    ensures SetFields(t, Config(Some(m), Some(y), Some(d))).1 ==>
      SetFields(t, Config(Some(m), Some(y), Some(d))).0 == DayNumber(y, m, d)
  {
    hide AddMonths, MonthIndex, DayNumber, YearStart, MonthStart, YearOf, MonthOf, DayOf, DaysInMonth, IsLeap;
    if 0 <= m <= 11 {
      MonthSet(t, m - MonthOf(t), YearOf(t), m);
      var t1 := AddMonths(t, m - MonthOf(t));
      if 0 <= y <= 9999 {
        MonthSet(t1, 12 * (y - YearOf(t1)), y, m);
        DaySet(AddMonths(t1, 12 * (y - YearOf(t1))), d);
      }
    }
  }

  lemma MonthSet(t: int, k: int, y: int, m: int)
    requires 0 <= m < 12 && 12 * YearOf(t) + MonthOf(t) + k == 12 * y + m
    ensures YearOf(AddMonths(t, k)) == y && MonthOf(AddMonths(t, k)) == m
  {
    hide AddMonths, YearOf, MonthOf, DayOf;
    var r := AddMonths(t, k);
    assert 12 * YearOf(r) + MonthOf(r) == 12 * y + m;
  }

  lemma DaySet(t: int, d: int)
    ensures t + d - DayOf(t) == DayNumber(YearOf(t), MonthOf(t), d)
  {
    hide YearStart, MonthStart, YearOf, MonthOf, DayOf;
    assert DayNumber(YearOf(t), MonthOf(t), DayOf(t)) == t;
  }

  // ---- weekdays ----

  function MoveToWeekday(t: int, w: int, orient: int): int {
    var diff := JsRem(w - Weekday(t) + 7 * orient, 7);
    t + (if diff == 0 then 7 * orient else diff)
  }

  // Forwards it reaches the nearest later day with that weekday, backwards the nearest earlier one.
  lemma MoveToWeekdayLands(t: int, w: int, orient: int)
    requires 0 <= w < 7 && (orient == 1 || orient == -1)
    ensures var r := MoveToWeekday(t, w, orient);
            && Weekday(r) == w
            && (orient == 1 ==> t < r <= t + 7)
            && (orient == -1 ==> t - 7 <= r < t)
  {
    var x := w - t % 7;
    var diff := JsRem(x + 7 * orient, 7);
    assert diff == if orient == 1 then (if x < 0 then x + 7 else x) else (if x > 0 then x - 7 else x);
    var q := t / 7;
    assert t == 7 * q + t % 7;
    var r := MoveToWeekday(t, w, orient);
    Mod7(r, (r - w) / 7, w);
  }

  // How many of the days a, ..., b - 1 fall on weekday w.
  function CountWeekday(a: int, b: int, w: int): nat
    decreases b - a
  {
    if b <= a then 0 else CountWeekday(a, b - 1, w) + (if Weekday(b - 1) == w then 1 else 0)
  }

  lemma CountStep(a: int, b: int, w: int)
    requires a < b
    ensures CountWeekday(a, b, w) == CountWeekday(a, b - 1, w) + (if Weekday(b - 1) == w then 1 else 0)
  {
  }

  lemma {:induction false} CountMonotone(a: int, b: int, c: int, w: int)
    requires b <= c
    ensures CountWeekday(a, b, w) <= CountWeekday(a, c, w)
    decreases c - b
  {
    if b == c {
    } else {
      CountMonotone(a, b, c - 1, w);
    }
  }

  // Between two days with that weekday there are none.
  lemma {:induction false} CountGap(a: int, b: int, c: int, w: int)
    requires a <= b <= c <= b + 6 && (b - 1) % 7 == w
    ensures CountWeekday(a, c, w) == CountWeekday(a, b, w)
    decreases c - b
  {
    if b == c {
    } else {
      CountGap(a, b, c - 1, w);
      Mod7(c - 1, (b - 1) / 7 + (w + c - b) / 7, (w + c - b) % 7);
    }
  }

  // With the first such day at f, the one k weeks later is number k + 1.
  lemma {:induction false} CountAtOccurrence(a: int, f: int, k: nat, w: int)
    requires a <= f < a + 7 && f % 7 == w
    ensures CountWeekday(a, f + 7 * k + 1, w) == k + 1
    ensures Weekday(f + 7 * k) == w
    decreases k
  {
    Mod7(f + 7 * k, f / 7 + k, w);
    if k == 0 {
      CountBefore(a, f, f, w);
    } else {
      CountAtOccurrence(a, f, k - 1, w);
      Mod7(f + 7 * (k - 1), f / 7 + k - 1, w);
      CountGap(a, f + 7 * (k - 1) + 1, f + 7 * k, w);
    }
  }

  lemma {:induction false} CountBefore(a: int, b: int, f: int, w: int)
    requires a <= b <= f < a + 7 && f % 7 == w
    ensures CountWeekday(a, b, w) == 0
    decreases b - a
  {
    if a == b {
    } else {
      CountBefore(a, b - 1, f, w);
      WeekdayApart(b - 1, f);
    }
  }

  function FirstOfMonth(t: int): int {
    t - DayOf(t) + 1
  }

  function LastOfMonth(t: int): int {
    t - DayOf(t) + DaysInMonth(YearOf(t), MonthOf(t))
  }

  function NthOccurrence(t: int, w: int, k: int): int {
    if k == -1 then
      if Weekday(LastOfMonth(t)) != w then MoveToWeekday(LastOfMonth(t), w, -1) else LastOfMonth(t)
    else
      MoveToWeekday(FirstOfMonth(t) - 1, w, 1) + 7 * (if k > 0 then k - 1 else 0)
  }

  // The k-th day with weekday w counted from the first of the month; it lies in the month exactly
  // when the month has that many.
  lemma NthOccurrenceLands(t: int, w: int, k: int)
    requires 0 <= w < 7 && 1 <= k
    ensures var r := NthOccurrence(t, w, k);
            && Weekday(r) == w && FirstOfMonth(t) <= r
            && CountWeekday(FirstOfMonth(t), r + 1, w) == k
            && (r <= LastOfMonth(t) <==> k <= CountWeekday(FirstOfMonth(t), LastOfMonth(t) + 1, w))
  {
    hide MoveToWeekday, CountWeekday, YearOf, MonthOf, DayOf, YearStart, MonthStart;
    var a, z := FirstOfMonth(t), LastOfMonth(t);
    MoveToWeekdayLands(a - 1, w, 1);
    var f := MoveToWeekday(a - 1, w, 1);
    CountAtOccurrence(a, f, k - 1, w);
    var r := f + 7 * (k - 1);
    if r <= z {
      CountMonotone(a, r + 1, z + 1, w);
    } else {
      CountMonotone(a, z + 1, r, w);
      CountStep(a, r + 1, w);
    }
  }

  // Any other count is taken for 1.
  lemma OtherOccurrence(t: int, w: int, k: int)
    requires k < -1 || k == 0
    ensures NthOccurrence(t, w, k) == NthOccurrence(t, w, 1)
  {
  }

  // With k = -1: the last day of the month with weekday w.
  lemma LastOccurrenceLands(t: int, w: int)
    requires 0 <= w < 7
    ensures var r := NthOccurrence(t, w, -1);
            && Weekday(r) == w && FirstOfMonth(t) <= r <= LastOfMonth(t)
            && forall u :: r < u <= LastOfMonth(t) ==> Weekday(u) != w
  {
    hide YearStart, MonthStart, YearOf, MonthOf, MoveToWeekday;
    var z := LastOfMonth(t);
    MoveToWeekdayLands(z, w, -1);
    var r := NthOccurrence(t, w, -1);
    forall u | r < u <= z ensures Weekday(u) != w {
      if u < r + 7 {
        WeekdayApart(r, u);
      }
    }
  }

  // ---- weeks ----

  function SetWeek(t: int, n: int): int {
    var monday := MoveToWeekday(t, 1, 1);
    monday + 7 * (n - IsoWeek(monday))
  }

  // It lands on a Monday, and in week n exactly when the ISO year of the next Monday has such a week;
  // every year has the weeks 1 to 52.
  lemma SetWeekLands(t: int, n: int)
    ensures Weekday(SetWeek(t, n)) == 1
    ensures IsoWeek(SetWeek(t, n)) == n <==> 1 <= n <= WeeksIn(YearOf(Thursday(MoveToWeekday(t, 1, 1))))
    ensures 1 <= n <= 52 ==> IsoWeek(SetWeek(t, n)) == n
  {
    var monday := MoveToWeekday(t, 1, 1);
    MoveToWeekdayLands(t, 1, 1);
    IsoWeekShift(monday, n - IsoWeek(monday));
    Mod7(SetWeek(t, n), monday / 7 + n - IsoWeek(monday), 1);
  }
}
