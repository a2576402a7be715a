/**
 The date object of date.js: every operation moves the object in place. The time of day is left out, so the
 state is a day number.
 */
module DateObject {
  import opened Wrappers
  import opened Numbers
  import opened Calendar
  import opened DateMoves
  import WeekFormula

  // The three variables getWeek shares with getISOWeek; 0 is the unset value.
  class WeekVars {
    var y: int
    var m: int
    var d: int

    ghost predicate Unset()
      reads this
    {
      y == m == d == 0
    }
  }

  class JsDate {
    var t: int

    constructor (day: int)
      ensures t == day
    {
      t := day;
    }

    method SetDate(n: int)
      modifies this
      ensures t == DayNumber(YearOf(old(t)), MonthOf(old(t)), n)
    {
      DaySet(t, n);
      t := t + n - DayOf(t);
    }

    // Months outside 0 to 11 carry into the year.
    method SetMonth(k: int)
      modifies this
      ensures t == DayNumber(YearOf(old(t)) + k / 12, k % 12, DayOf(old(t)))
    {
      t := DayNumber(YearOf(t) + k / 12, k % 12, DayOf(t));
    }

    method AddDays(n: int)
      modifies this
      ensures t == old(t) + n
    {
      DaySet(t, DayOf(t) + n);
      SetDate(DayOf(t) + n);
    }

    method AddWeeks(n: int)
      modifies this
      ensures t == old(t) + 7 * n
    {
      AddDays(7 * n);
    }

    method AddMonths(k: int)
      modifies this
      ensures t == DateMoves.AddMonths(old(t), k)
    {
      hide YearStart, MonthStart, DateMoves.AddMonths, YearOf, MonthOf, DayOf, IsLeap;
      var n := DayOf(t);
      SetDate(1);
      DateUnique(YearOf(old(t)), MonthOf(old(t)), 1);
      label first:
      SetMonth(MonthOf(t) + k);
      ghost var i := MonthIndex(old(t)) + k;
      MonthCarry(YearOf(old(t)), MonthOf(old(t)) + k);
      DateUnique(i / 12, i % 12, 1);
      SetDate(Min(n, DaysInMonth(YearOf(t), MonthOf(t))));
      AddMonthsIs(old(t), k);
    }

    method AddYears(k: int)
      modifies this
      ensures t == DateMoves.AddMonths(old(t), 12 * k)
    {
      AddMonths(12 * k);
    }

    // Returns false where the source throws; the fields before the bad one stay applied.
    method Set(c: Config) returns (ok: bool)
      modifies this
      ensures (t, ok) == SetFields(old(t), c)
    {
      hide YearOf, MonthOf, DayOf, DateMoves.AddMonths, DaysInMonth, YearStart, MonthStart, IsLeap, MonthIndex, DaysInMonthAt;
      if c.month.Some? {
        if !(0 <= c.month.value <= 11) {
          return false;
        }
        AddMonths(c.month.value - MonthOf(t));
      }
      if c.year.Some? {
        if !(0 <= c.year.value <= 9999) {
          return false;
        }
        AddYears(c.year.value - YearOf(t));
      }
      if c.day.Some? {
        if !(1 <= c.day.value <= DaysInMonth(YearOf(t), MonthOf(t))) {
          return false;
        }
        AddDays(c.day.value - DayOf(t));
      }
      ok := true;
    }

    method MoveToWeekday(w: int, orient: int)
      modifies this
      ensures t == DateMoves.MoveToWeekday(old(t), w, orient)
    {
      var diff := JsRem(w - Weekday(t) + 7 * orient, 7);
      AddDays(if diff == 0 then 7 * orient else diff);
    }

    method MoveToFirstDayOfMonth()
      modifies this
      ensures t == FirstOfMonth(old(t))
    {
      var _ := Set(Config(None, None, Some(1)));
    }

    method MoveToLastDayOfMonth()
      modifies this
      ensures t == LastOfMonth(old(t))
    {
      var _ := Set(Config(None, None, Some(DaysInMonth(YearOf(t), MonthOf(t)))));
    }

    method MoveToNthOccurrence(w: int, k: int)
      modifies this
      ensures t == NthOccurrence(old(t), w, k)
    {
      hide DateMoves.MoveToWeekday, FirstOfMonth, LastOfMonth;
      var shift := 0;
      if k > 0 {
        shift := k - 1;
      } else if k == -1 {
        MoveToLastDayOfMonth();
        if Weekday(t) != w {
          MoveToWeekday(w, -1);
        }
        return;
      }
      MoveToFirstDayOfMonth();
      AddDays(-1);
      MoveToWeekday(w, 1);
      AddWeeks(shift);
    }

    // Each variable, when set, takes the place of the date's own field, and is unset again afterwards.
    method GetWeek(v: WeekVars) returns (w: int)
      modifies v
      ensures v.Unset()
      ensures w == WeekFormula.WeekNumber(
        old(if v.y == 0 then YearOf(t) else v.y), old(if v.m == 0 then MonthOf(t) + 1 else v.m),
        old(if v.d == 0 then DayOf(t) else v.d))
      ensures old(v.Unset()) && YearOf(t) >= 2 ==> w == IsoWeek(t)
      ensures forall u :: old(v.y == YearOf(u) && v.m == MonthOf(u) + 1 && v.d == DayOf(u)) && YearOf(u) >= 2 ==>
        w == IsoWeek(u)
    {
      hide YearStart, MonthStart, WeekFormula.WeekNumber, IsoWeek;
      if v.y == 0 { v.y := YearOf(t); }
      if v.m == 0 { v.m := MonthOf(t) + 1; }
      if v.d == 0 { v.d := DayOf(t); }
      w := WeekFormula.WeekNumber(v.y, v.m, v.d);
      forall u | YearOf(u) == v.y && MonthOf(u) + 1 == v.m && DayOf(u) == v.d && YearOf(u) >= 2 ensures w == IsoWeek(u) {
        WeekFormula.WeekNumberIsIsoWeek(YearOf(u), MonthOf(u) + 1, DayOf(u));
      }
      v.y, v.m, v.d := 0, 0, 0;
    }

    // The week of the UTC day in two digits, whatever local day the object shows.
    method GetIsoWeek(v: WeekVars, utc: int) returns (text: string)
      requires YearOf(utc) >= 2
      modifies v
      ensures v.Unset() && text == Padded(IsoWeek(utc), 2)
    {
      hide YearStart, MonthStart, IsoWeek, Padded;
      v.y, v.m, v.d := YearOf(utc), MonthOf(utc) + 1, DayOf(utc);
      var w := GetWeek(v);
      text := Padded(w, 2);
    }

    // The week is read after the move to the next Monday.
    method SetWeek(n: int, v: WeekVars)
      requires v.Unset() && YearOf(t) >= 2
      modifies this, v
      ensures v.Unset() && t == DateMoves.SetWeek(old(t), n)
    {
      hide IsoWeek, YearStart, MonthStart;
      MoveToWeekday(1, 1);
      MoveToWeekdayLands(old(t), 1, 1);
      LaterYear(old(t), t);
      var w := GetWeek(v);
      AddWeeks(n - w);
    }
  }

  lemma MonthCarry(y: int, j: int)
    ensures (12 * y + j) / 12 == y + j / 12 && (12 * y + j) % 12 == j % 12
  {
  }

  lemma AddMonthsIs(t: int, k: int)
    ensures var i := MonthIndex(t) + k;
            DateMoves.AddMonths(t, k) == DayNumber(i / 12, i % 12, Min(DayOf(t), DaysInMonthAt(i)))
  {
  }

  lemma LaterYear(t: int, u: int)
    requires t <= u
    ensures YearOf(t) <= YearOf(u)
  {
    hide YearStart;
    if YearOf(u) < YearOf(t) {
      if YearOf(u) + 1 < YearOf(t) {
        YearStartMonotone(YearOf(u) + 1, YearOf(t));
      }
    }
  }
}
