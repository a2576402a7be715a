/**
 The month grid of the date range picker and the header above it.
 */
module CalendarGrid {
  import opened Wrappers
  import opened Calendar
  import opened DateMoves
  import opened DateObject

  // The day of the previous month that the grid starts with.
  function StartDay(daysInLastMonth: int, dayOfWeek: int, firstDay: int): int {
    if dayOfWeek == firstDay then daysInLastMonth - 6
    else
      var s := daysInLastMonth - dayOfWeek + firstDay + 1;
      if s > daysInLastMonth then s - 7 else s
  }

  // It lies one to seven days before the first of the month, on the weekday the columns start with.
  lemma StartDayFits(first: int, firstDay: int)
    requires DayOf(first) == 1 && 0 <= firstDay < 7
    ensures var last := first - 1;
            var n := DaysInMonth(YearOf(last), MonthOf(last));
            var s := StartDay(n, Weekday(first), firstDay);
            && 1 <= s <= n
            && first - 7 <= DayNumber(YearOf(last), MonthOf(last), s) < first
            && Weekday(DayNumber(YearOf(last), MonthOf(last), s)) == firstDay
            && DayOf(last) == n
  {
    hide YearStart, MonthStart, YearOf, MonthOf, DayOf, DaysInMonth;
    var last := first - 1;
    LastDayOfMonth(first);
    var n := DaysInMonth(YearOf(last), MonthOf(last));
    var s := StartDay(n, Weekday(first), firstDay);
    DaySet(last, s);
    var g := last + s - n;
    assert g == first - 1 + s - n;
    Mod7(g, first / 7 + (if Weekday(first) > firstDay then 0 else -1), firstDay);
  }

  // The day before the first of a month is the last of its own month.
  lemma LastDayOfMonth(first: int)
    requires DayOf(first) == 1
    ensures var last := first - 1; DayOf(last) == DaysInMonth(YearOf(last), MonthOf(last))
    ensures MonthIndex(first - 1) == MonthIndex(first) - 1
  {
    hide YearStart, YearOf, MonthOf, DayOf, DaysInMonth;
    var last := first - 1;
    var y, m := YearOf(last), MonthOf(last);
    MonthStep(y, m);
    if DayOf(last) < DaysInMonth(y, m) {
      DateUnique(y, m, DayOf(last) + 1);
      assert false;
    }
    if m < 11 {
      DateUnique(y, m + 1, 1);
    } else {
      YearStep(y);
      DateUnique(y + 1, 0, 1);
    }
  }

  // The day in row r and column c of a grid that starts with day `start`.
  function Cell(start: int, r: int, c: int): int {
    start + 7 * r + c
  }

  // Six rows of seven consecutive days around a month. The grid exists exactly for the months whose own
  // and whose previous year passes the checks of `set`.
  method BuildCalendar(today: int, month: int, year: int, firstDay: int) returns (ok: bool, grid: array2<int>)
    requires 0 <= firstDay < 7
    ensures ok <==> 0 <= month <= 11 && 0 <= year <= 9999 && !(year == 0 && month == 0)
    ensures grid.Length0 == 6 && grid.Length1 == 7
    ensures ok ==> forall r, c :: 0 <= r < 6 && 0 <= c < 7 ==> grid[r, c] == Cell(grid[0, 0], r, c)
    ensures ok ==> Weekday(grid[0, 0]) == firstDay
    ensures ok ==> grid[0, 0] < DayNumber(year, month, 1) <= grid[0, 0] + 7
  {
    hide YearStart, MonthStart, YearOf, MonthOf, DayOf, DayNumber, DaysInMonth, IsDate, SetFields, StartDay, MonthIndex;
    grid := new int[6, 7];
    var first := new JsDate(today);
    ok := first.Set(Config(Some(month), Some(year), Some(1)));
    SetIsExact(today, year, month, 1);
    FirstIsDate(year, month);
    if !ok {
      return;
    }
    DateUnique(year, month, 1);
    var last := first.t - 1;
    LastDayOfMonth(first.t);
    PreviousYear(first.t);
    StartDayFits(first.t, firstDay);
    var lastYear, lastMonth := YearOf(last), MonthOf(last);
    var startDay := StartDay(DaysInMonth(lastYear, lastMonth), Weekday(first.t), firstDay);
    var start := new JsDate(today);
    ok := start.Set(Config(Some(lastMonth), Some(lastYear), Some(startDay)));
    SetIsExact(today, lastYear, lastMonth, startDay);
    DateWithin(lastYear, lastMonth, startDay);
    if !ok {
      return;
    }
    ghost var grid0 := start.t;
    var curDate := start.t;
    var col, row := 0, 0;
    for i := 0 to 42
      invariant curDate == start.t + i
      invariant 7 * row + col == i && 0 <= col <= 7 && 0 <= row < 6
      invariant i == 0 <==> col == 0
      invariant start.t == grid0
      invariant forall r, c :: 0 <= r < 6 && 0 <= c < 7 && 7 * r + c < i ==> grid[r, c] == Cell(start.t, r, c)
    {
      if i > 0 && col % 7 == 0 {
        col := 0;
        row := row + 1;
      }
      grid[row, col] := curDate;
      col := col + 1;
      curDate := curDate + 1;
    }
  }

  lemma FirstIsDate(y: int, m: int)
    ensures IsDate(y, m, 1) <==> 0 <= m < 12
  {
  }

  lemma DateWithin(y: int, m: int, d: int)
    requires 0 <= m < 12
    ensures IsDate(y, m, d) <==> 1 <= d <= DaysInMonth(y, m)
  {
  }

  lemma PreviousYear(first: int)
    requires MonthIndex(first - 1) == MonthIndex(first) - 1
    ensures YearOf(first - 1) == if MonthOf(first) == 0 then YearOf(first) - 1 else YearOf(first)
  {
    hide YearOf, MonthOf;
  }

  // What the grid promises, for any month, year and first day: the columns carry the header's weekdays,
  // every day of the month is in exactly one cell, and cell [1][1] lies in the month.
  lemma GridCoversMonth(y: int, m: int, firstDay: int, start: int)
    requires 0 <= m < 12 && 0 <= firstDay < 7 && Weekday(start) == firstDay
    requires start < DayNumber(y, m, 1) <= start + 7
    ensures forall r, c :: 0 <= r < 6 && 0 <= c < 7 ==> Weekday(Cell(start, r, c)) == (firstDay + c) % 7
    ensures forall d :: 1 <= d <= DaysInMonth(y, m) ==>
      var i := DayNumber(y, m, d) - start;
      0 <= i / 7 < 6 && 0 <= i % 7 < 7 && Cell(start, i / 7, i % 7) == DayNumber(y, m, d)
    ensures YearOf(Cell(start, 1, 1)) == y && MonthOf(Cell(start, 1, 1)) == m
  {
    hide YearStart, MonthStart, YearOf, MonthOf;
    forall r, c | 0 <= r < 6 && 0 <= c < 7 ensures Weekday(Cell(start, r, c)) == (firstDay + c) % 7 {
      Mod7(Cell(start, r, c), start / 7 + r + (firstDay + c) / 7, (firstDay + c) % 7);
    }
    DateUnique(y, m, start + 8 - DayNumber(y, m, 1) + 1);
  }

  // Different cells hold different days.
  lemma CellsDistinct(start: int, r: int, c: int, r': int, c': int)
    requires 0 <= c < 7 && 0 <= c' < 7 && Cell(start, r, c) == Cell(start, r', c')
    ensures r == r' && c == c'
  {
  }

  // The week number shown for a row is that of its first cell. It is the week of the whole row exactly
  // when the columns start on Monday.
  lemma WeekColumn(start: int, firstDay: int)
    requires 0 <= firstDay < 7 && Weekday(start) == firstDay
    ensures (forall c :: 0 <= c < 7 ==> IsoWeek(Cell(start, 0, c)) == IsoWeek(start)) <==> firstDay == 1
  {
    hide IsoWeek;
    if firstDay == 1 {
      forall c | 0 <= c < 7 ensures IsoWeek(Cell(start, 0, c)) == IsoWeek(start) {
        SameWeek(start, start + c);
      }
    } else {
      // The Monday inside the row opens another week.
      var c := if firstDay == 0 then 1 else 8 - firstDay;
      var monday := Cell(start, 0, c);
      Mod7(monday, start / 7 + (if firstDay == 0 then 0 else 1), 1);
      Mod7(monday - 8, monday / 7 - 1, 0);
      SameWeek(monday - 7, start);
      NextWeek(monday - 7);
      assert IsoWeek(monday) != IsoWeek(start);
    }
  }

  // ---- the header ----

  // Seven names turned k places to the left.
  function Rotated<T>(s: seq<T>, k: nat): (r: seq<T>)
    requires |s| == 7
    ensures |r| == 7
  {
    seq(7, c requires 0 <= c < 7 => s[(k + c) % 7])
  }

  // The list of day names a picker's locale refers to. By default it is the one list all pickers share.
  class NameList {
    var names: seq<string>

    constructor (names: seq<string>)
      ensures this.names == names
    {
      this.names := names;
    }

    // Shifts the first name to the end, firstDay times.
    method Rotate(firstDay: int)
      requires |names| == 7
      modifies this
      ensures names == Rotated(old(names), if firstDay > 0 then firstDay else 0)
    {
      ghost var k := 0;
      var left := firstDay;
      RotateOnce(names, 0);
      while left > 0
        invariant k == if firstDay > 0 then firstDay - left else 0
        invariant left <= firstDay && (0 < firstDay ==> 0 <= left)
        invariant |names| == 7 && names == Rotated(old(names), k)
      {
        RotateOnce(old(names), k);
        names := names[1..] + [names[0]];
        k := k + 1;
        left := left - 1;
      }
    }
  }

  lemma RotateOnce<T>(s: seq<T>, k: nat)
    requires |s| == 7
    ensures Rotated(s, 0) == s
    ensures Rotated(s, k)[1..] + [Rotated(s, k)[0]] == Rotated(s, k + 1)
  {
    var r := Rotated(s, k);
    var t := r[1..] + [r[0]];
    forall c | 0 <= c < 7 ensures t[c] == Rotated(s, k + 1)[c] {
      if c < 6 {
        assert t[c] == r[c + 1];
      }
    }
  }

  lemma RotatedTwice<T>(s: seq<T>, j: nat, k: nat)
    requires |s| == 7
    ensures Rotated(Rotated(s, j), k) == Rotated(s, j + k)
  {
    forall c | 0 <= c < 7 ensures Rotated(Rotated(s, j), k)[c] == Rotated(s, j + k)[c] {
      SumMod7(j, k + c);
    }
  }

  lemma SumMod7(a: int, b: int)
    ensures (a + b % 7) % 7 == (a + b) % 7
  {
    Mod7(a + b, b / 7 + (a + b % 7) / 7, (a + b % 7) % 7);
  }

  // Two pickers that both turn the shared list: the header of the second is the one its first day asks
  // for exactly when the first one turned it by whole weeks.
  lemma SharedHeader(names: seq<string>, f1: nat, f2: nat)
    requires |names| == 7 && forall i, j :: 0 <= i < j < 7 ==> names[i] != names[j]
    ensures Rotated(Rotated(names, f1), f2) == Rotated(names, f2) <==> f1 % 7 == 0
  {
    RotatedTwice(names, f1, f2);
    if f1 % 7 == 0 {
      forall c | 0 <= c < 7 ensures Rotated(names, f1 + f2)[c] == Rotated(names, f2)[c] {
        Mod7(f1 + f2 + c, f1 / 7 + (f2 + c) / 7, (f2 + c) % 7);
      }
    } else {
      SumMod7(f2, f1);
      OffsetMod7(f2, f1 % 7);
      assert Rotated(names, f1 + f2)[0] == names[(f1 + f2) % 7] && Rotated(names, f2)[0] == names[f2 % 7];
    }
  }

  lemma OffsetMod7(a: int, b: int)
    requires 0 < b < 7
    ensures (a + b) % 7 != a % 7
  {
  }
}
