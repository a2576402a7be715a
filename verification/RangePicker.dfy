/**
 The text of the date range picker: what notify writes and what updateFromControl reads.
 */
module RangePicker {
  import opened Wrappers
  import opened Numbers
  import opened Calendar
  import opened DateMoves
  import opened DateFormat

  predicate OccursAt(s: string, sep: string, i: nat) {
    i + |sep| <= |s| && s[i..i + |sep|] == sep
  }

  // Where sep first occurs in s; |s| when it does not.
  function FirstAt(s: string, sep: string): (i: nat)
    requires sep != ""
    ensures i <= |s|
    ensures i < |s| ==> OccursAt(s, sep, i)
    ensures forall j :: 0 <= j < i ==> !OccursAt(s, sep, j)
  {
    if s == "" || OccursAt(s, sep, 0) then 0
    else
      OccursLater(s, sep);
      var i := FirstAt(s[1..], sep);
      assert OccursAt(s, sep, i + 1) <==> OccursAt(s[1..], sep, i);
      1 + i
  }

  lemma OccursLater(s: string, sep: string)
    requires s != ""
    ensures forall j: nat :: 0 < j ==> (OccursAt(s, sep, j) <==> OccursAt(s[1..], sep, j - 1))
  {
    forall j: nat | 0 < j ensures OccursAt(s, sep, j) <==> OccursAt(s[1..], sep, j - 1) {
      if j + |sep| <= |s| {
        assert s[1..][j - 1..j - 1 + |sep|] == s[j..j + |sep|];
      }
    }
  }

  // The pieces between separators; an empty separator cuts between all characters.
  function Split(s: string, sep: string): (r: seq<string>)
    decreases |s|
  {
    if sep == "" then seq(|s|, i requires 0 <= i < |s| => [s[i]])
    else
      var i := FirstAt(s, sep);
      if i == |s| then [s] else [s[..i]] + Split(s[i + |sep|..], sep)
  }

  // The range a text stands for, if both its parts are dates in order.
  function ReadRange(text: string, f: string, sep: string, now: int): Option<(int, int)> {
    var pieces := Split(text, sep);
    if |pieces| < 2 then None
    else
      match (ParseExact(pieces[0], f, now), ParseExact(pieces[1], f, now))
      case (Some(a), Some(b)) => if b < a then None else Some((a, b))
      case _ => None
  }

  function RangeText(a: int, b: int, f: string, sep: string): string
    requires YearOf(a) >= 0 && YearOf(b) >= 0
  {
    Print(f, a) + sep + Print(f, b)
  }

  // The picker's dates, its two calendar months, and the text of its input element.
  class Picker {
    const format: string
    const separator: string
    var startDate: int
    var endDate: int
    var leftMonth: int
    var rightMonth: int
    var text: string

    constructor (format: string, separator: string, startDate: int, endDate: int, today: int)
      ensures this.format == format && this.separator == separator
      ensures this.startDate == startDate && this.endDate == endDate && text == ""
      ensures 0 <= YearOf(startDate) <= 9999 ==> leftMonth == FirstOfMonth(startDate)
      ensures 0 <= YearOf(endDate) <= 9999 ==> rightMonth == FirstOfMonth(endDate)
    {
      hide SetFields, YearOf, MonthOf, DayOf, DayNumber, IsDate;
      FirstSet(today, startDate);
      FirstSet(today, endDate);
      this.format, this.separator := format, separator;
      this.startDate, this.endDate := startDate, endDate;
      leftMonth := SetFields(today, Config(Some(MonthOf(startDate)), Some(YearOf(startDate)), Some(1))).0;
      rightMonth := SetFields(today, Config(Some(MonthOf(endDate)), Some(YearOf(endDate)), Some(1))).0;
      text := "";
    }

    // Moves both calendars to the months of the dates.
    method UpdateView()
      requires 0 <= YearOf(startDate) <= 9999 && 0 <= YearOf(endDate) <= 9999
      modifies this`leftMonth, this`rightMonth
      ensures MonthIndex(leftMonth) == MonthIndex(startDate) && MonthIndex(rightMonth) == MonthIndex(endDate)
    {
      hide SetFields, YearOf, MonthOf, MonthIndex;
      MonthSetTo(leftMonth, startDate);
      MonthSetTo(rightMonth, endDate);
      leftMonth := SetFields(leftMonth, Config(Some(MonthOf(startDate)), Some(YearOf(startDate)), None)).0;
      rightMonth := SetFields(rightMonth, Config(Some(MonthOf(endDate)), Some(YearOf(endDate)), None)).0;
    }

    method Notify()
      requires 0 <= YearOf(startDate) <= 9999 && 0 <= YearOf(endDate) <= 9999
      modifies this`leftMonth, this`rightMonth, this`text
      ensures text == RangeText(startDate, endDate, format, separator)
      ensures MonthIndex(leftMonth) == MonthIndex(startDate) && MonthIndex(rightMonth) == MonthIndex(endDate)
    {
      hide YearOf, MonthIndex, Print;
      UpdateView();
      text := Print(format, startDate) + separator + Print(format, endDate);
    }

    // A text that does not hold two dates in order changes nothing.
    method UpdateFromControl(now: int)
      modifies this`startDate, this`endDate, this`leftMonth, this`rightMonth
      ensures match ReadRange(text, format, separator, now)
        case None =>
          startDate == old(startDate) && endDate == old(endDate) && leftMonth == old(leftMonth) && rightMonth == old(rightMonth)
        case Some((a, b)) =>
          startDate == a && endDate == b && (0 <= YearOf(a) <= 9999 && 0 <= YearOf(b) <= 9999 ==>
            MonthIndex(leftMonth) == MonthIndex(a) && MonthIndex(rightMonth) == MonthIndex(b))
    {
      hide YearOf, MonthOf, DayOf, DateFormat.ParseExact, MonthIndex, SetFields;
      var pieces := Split(text, separator);
      if |pieces| < 2 {
        return;
      }
      var start := RunParseExact(pieces[0], format, now);
      var end := RunParseExact(pieces[1], format, now);
      if start == None || end == None || end.value < start.value {
        return;
      }
      startDate, endDate := start.value, end.value;
      if 0 <= YearOf(startDate) <= 9999 && 0 <= YearOf(endDate) <= 9999 {
        UpdateView();
      }
    }
  }

  lemma FirstSet(today: int, t: int)
    ensures 0 <= YearOf(t) <= 9999 ==>
      SetFields(today, Config(Some(MonthOf(t)), Some(YearOf(t)), Some(1))).0 == FirstOfMonth(t)
  {
    hide SetFields, YearOf, MonthOf, DayOf, YearStart, MonthStart;
    SetIsExact(today, YearOf(t), MonthOf(t), 1);
    DaySet(t, 1);
  }

  lemma MonthSetTo(month: int, t: int)
    requires 0 <= YearOf(t) <= 9999
    ensures MonthIndex(SetFields(month, Config(Some(MonthOf(t)), Some(YearOf(t)), None)).0) == MonthIndex(t)
  {
    hide DateMoves.AddMonths, YearOf, MonthOf, DayOf, YearStart, MonthStart, DaysInMonth, DaysInMonthAt, IsLeap, DayNumber;
    var m1 := DateMoves.AddMonths(month, MonthOf(t) - MonthOf(month));
    MonthSet(month, MonthOf(t) - MonthOf(month), YearOf(month), MonthOf(t));
    MonthSet(m1, 12 * (YearOf(t) - YearOf(m1)), YearOf(t), MonthOf(t));
  }

  // The separator stands out in a text when it first occurs where it was put, and not again.
  ghost predicate StandsOut(x: string, sep: string, y: string) {
    sep != "" && FirstAt(x + sep + y, sep) == |x| && FirstAt(y, sep) == |y|
  }

  lemma FirstIsBefore(x: string, sep: string, y: string)
    requires sep != ""
    ensures FirstAt(x + sep + y, sep) <= |x|
  {
    assert OccursAt(x + sep + y, sep, |x|);
  }

  lemma SplitOnce(x: string, sep: string, y: string)
    requires sep != ""
    ensures var i := FirstAt(x + sep + y, sep);
            && |Split(x + sep + y, sep)| >= 2 && i <= |x|
            && Split(x + sep + y, sep)[0] == (x + sep + y)[..i]
            && (i == |x| ==> Split(x + sep + y, sep)[1] == y[..FirstAt(y, sep)])
  {
    FirstIsBefore(x, sep, y);
    var s := x + sep + y;
    var i := FirstAt(s, sep);
    assert s[|x| + |sep|..] == y;
    assert y[..|y|] == y;
  }

  // A range that is written with any numbers is read if and only if the separator stands out, both are dates, and
  // they are in order, for every plain format without a bitten separator.
  lemma RangeRead(m: Digits, n: Digits, f: string, sep: string, now: int)
    requires PlainFormat(f) && !HasBitten(Rules(f)) && 100 <= YearOf(now)
    requires Writable(m) && Writable(n) && m.suffix == n.suffix == ""
    ensures var x, y := RulesText(Rules(f), m), RulesText(Rules(f), n);
      ReadRange(x + sep + y, f, sep, now) ==
        if StandsOut(x, sep, y) && IsGiven(m, now) && IsGiven(n, now) && Meant(m, now).value <= Meant(n, now).value
        then Some((Meant(m, now).value, Meant(n, now).value)) else None
  {
    hide RulesText, YearOf, Rules, HasBitten, ParseExact, Meant, Writable, Split, StandsOut;
    DigitsRead(f, m, now);
    DigitsRead(f, n, now);
    TwoPieces(RulesText(Rules(f), m), RulesText(Rules(f), n), m, n, f, sep, now);
  }

  predicate IsGiven(n: Digits, now: int) {
    n.day <= 31 && n.month <= 12 && Meant(n, now).Some?
  }

  // The text is read by its two parts when the separator stands out, and not at all otherwise.
  lemma TwoPieces(x: string, y: string, m: Digits, n: Digits, f: string, sep: string, now: int)
    requires PlainFormat(f) && m.suffix == n.suffix == "" && x == RulesText(Rules(f), m) && y == RulesText(Rules(f), n)
    ensures ReadRange(x + sep + y, f, sep, now) ==
      if !StandsOut(x, sep, y) then None
      else
        match (ParseExact(x, f, now), ParseExact(y, f, now))
        case (Some(a), Some(b)) => if b < a then None else Some((a, b))
        case _ => None
  {
    hide RulesText, Rules, HasBitten, ParseExact, PlainFormat, FirstAt, Split, TotalWidth;
    var text := x + sep + y;
    if sep == "" {
      OneCharacterPieces(text);
      LongText(f, m);
      if |text| >= 2 {
        ShorterFails(f, Split(text, "")[0], m, now);
      }
    } else {
      SplitOnce(x, sep, y);
      var i := FirstAt(text, sep);
      if i < |x| {
        ShorterFails(f, text[..i], m, now);
      } else {
        assert text[..|x|] == x && y[..|y|] == y;
        if FirstAt(y, sep) < |y| {
          ShorterFails(f, y[..FirstAt(y, sep)], n, now);
        }
      }
    }
  }

  // What notify writes reads back as the same range exactly when the separator stands out in the text and the
  // dates are in order, and as no range otherwise, whatever the picker that reads it shows.
  lemma RangeReadsBack(a: int, b: int, f: string, sep: string, now: int)
    requires PlainFormat(f) && !HasBitten(Rules(f))
    requires 100 <= YearOf(a) <= 9999 && 100 <= YearOf(b) <= 9999
    ensures ReadRange(RangeText(a, b, f, sep), f, sep, now) ==
      if StandsOut(Print(f, a), sep, Print(f, b)) && a <= b then Some((a, b)) else None
  {
    hide ParseExact, Print, YearOf, Rules, HasBitten, StandsOut, DigitsOf, ReadRange, RulesText, PlainFormat;
    RoundTrip(f, a, now);
    RoundTrip(f, b, now);
    PlainPrints(f, a);
    PlainPrints(f, b);
    TwoPieces(Print(f, a), Print(f, b), DigitsOf(a), DigitsOf(b), f, sep, now);
  }

  lemma PlainPrints(f: string, t: int)
    requires PlainFormat(f) && 0 <= YearOf(t) < 10000
    ensures Print(f, t) == RulesText(Rules(f), DigitsOf(t)) && DigitsOf(t).suffix == ""
  {
    hide Rules, Print, YearOf, RulesText;
    PrintIsRulesText(f, t);
  }

  // A date that does not exist is no range's end: the picker leaves such a text alone.
  lemma NoSuchDay(now: int, t: int)
    requires 100 <= YearOf(now) && 100 <= YearOf(t) <= 9999
    ensures var f := "MM/dd/yyyy";
      PlainFormat(f) && ReadRange(RulesText(Rules(f), Digits(31, 2, 2013, "")) + " - " + Print(f, t), f, " - ", now) == None
  {
    hide *;
    SlashedFormat();
    AllFields("MM/dd/yyyy");
    PlainPrints("MM/dd/yyyy", t);
    WritableDigits(t);
    RangeRead(Digits(31, 2, 2013, ""), DigitsOf(t), "MM/dd/yyyy", " - ", now);
    NoThirtyFirst(now);
  }

  lemma WritableDigits(t: int)
    requires 0 <= YearOf(t) < 10000
    ensures Writable(DigitsOf(t)) && DigitsOf(t).suffix == "" && Writable(Digits(31, 2, 2013, ""))
  {
  }

  lemma NoThirtyFirst(now: int)
    ensures !IsGiven(Digits(31, 2, 2013, ""), now)
  {
  }

  lemma SlashedFormat()
    ensures var rules := Rules("MM/dd/yyyy");
      && (forall i :: 0 <= i < |rules| ==> PlainRule(rules[i]))
      && Field('d', 2) in rules && Field('M', 2) in rules && Field('y', 4) in rules && !HasBitten(rules)
  {
    SlashedRules();
    SlashedIsPlain(Rules("MM/dd/yyyy"));
  }

  lemma SlashedRules()
    ensures Rules("MM/dd/yyyy") == [Field('M', 2), Literal("/"), Field('d', 2), Literal("/"), Field('y', 4)]
  {
    hide Rules;
    var f3 := "/" + "yyyy";
    var f1 := "/" + ("dd" + f3);
    assert "MM/dd/yyyy" == "MM" + f1;
    Doubled('M', f1);
    LiteralThen("/", "dd" + f3);
    Doubled('d', f3);
    LiteralThen("/", "yyyy");
    LastYear();
  }

  lemma SlashedIsPlain(rules: seq<FormatRule>)
    requires rules == [Field('M', 2), Literal("/"), Field('d', 2), Literal("/"), Field('y', 4)]
    ensures forall i :: 0 <= i < |rules| ==> PlainRule(rules[i])
    ensures Field('d', 2) in rules && Field('M', 2) in rules && Field('y', 4) in rules
    ensures !HasBitten(rules)
  {
    hide SpaceLength;
    assert rules[0] == Field('M', 2) && rules[2] == Field('d', 2) && rules[4] == Field('y', 4);
    assert !Bitten("/");
  }

  lemma OneCharacterPieces(s: string)
    ensures |Split(s, "")| == |s| && forall i :: 0 <= i < |s| ==> |Split(s, "")[i]| == 1
  {
  }

  // The text of a plain format holds all of dd, MM and yyyy.
  lemma LongText(f: string, n: Digits)
    requires PlainFormat(f) && n.suffix == ""
    ensures |RulesText(Rules(f), n)| >= 4
  {
    hide Rules, RulesText;
    RulesArePlain(f);
    PrintedWidth(Rules(f), n);
    WideEnough(Rules(f));
  }

  lemma {:induction false} WideEnough(rules: seq<FormatRule>)
    requires Field('y', 4) in rules
    ensures TotalWidth(rules) >= 4
  {
    if rules[0] == Field('y', 4) {
    } else {
      WideEnough(rules[1..]);
    }
  }

  // Enough for a separator to stand out: its first character occurs in neither date.
  lemma ForeignSeparator(x: string, sep: string, y: string)
    requires sep != "" && sep[0] !in x && sep[0] !in y
    ensures StandsOut(x, sep, y)
  {
    var s := x + sep + y;
    FirstIsBefore(x, sep, y);
    var i := FirstAt(s, sep);
    if i < |x| {
      OccursStart(s, sep, i);
    }
    var k := FirstAt(y, sep);
    if k < |y| {
      OccursStart(y, sep, k);
    }
  }

  lemma OccursStart(s: string, sep: string, i: nat)
    requires sep != "" && OccursAt(s, sep, i)
    ensures s[i] == sep[0]
  {
    assert s[i..i + |sep|][0] == s[i];
  }

  // Not enough: that the separator occurs in neither date. A doubled character behind a date that ends with
  // it is found one place too early.
  lemma OverlappingSeparator(x: string, c: char, y: string)
    requires x != "" && x[|x| - 1] == c
    ensures !StandsOut(x, [c, c], y)
  {
    var s := x + [c, c] + y;
    assert OccursAt(s, [c, c], |x| - 1);
  }

  const HYPHENATED := "yyyy/MM/dd-"

  // It happens to printed dates: "--" occurs in no date of the format "yyyy/MM/dd-", yet no range written with
  // it reads back.
  lemma AbsentSeparatorFails(a: int, b: int, now: int)
    requires 100 <= YearOf(a) <= 9999 && 100 <= YearOf(b) <= 9999 && a <= b
    ensures FirstAt(Print(HYPHENATED, a), "--") == |Print(HYPHENATED, a)|
    ensures FirstAt(Print(HYPHENATED, b), "--") == |Print(HYPHENATED, b)|
    ensures ReadRange(RangeText(a, b, HYPHENATED, "--"), HYPHENATED, "--", now) == None
  {
    hide *;
    HyphenatedText(a);
    HyphenatedText(b);
    HyphenatedRules();
    HyphenatedIsPlain(Rules(HYPHENATED));
    AllFields(HYPHENATED);
    OverlappingSeparator(Print(HYPHENATED, a), '-', Print(HYPHENATED, b));
    assert ['-', '-'] == "--";
    RangeReadsBack(a, b, HYPHENATED, "--", now);
  }

  lemma HyphenatedRules()
    ensures Rules(HYPHENATED) ==
      [Field('y', 4), Literal("/"), Field('M', 2), Literal("/"), Field('d', 2), Literal("-")]
  {
    hide Rules;
    var f3 := "/" + ("dd" + "-");
    var f1 := "/" + ("MM" + f3);
    assert HYPHENATED == seq(4, _ => 'y') + f1;
    FieldThen('y', 4, f1);
    LiteralThen("/", "MM" + f3);
    Doubled('M', f3);
    LiteralThen("/", "dd" + "-");
    Doubled('d', "-");
    assert "-" + "" == "-";
    LiteralThen("-", "");
    NoRules();
  }

  lemma HyphenatedIsPlain(rules: seq<FormatRule>)
    requires rules == [Field('y', 4), Literal("/"), Field('M', 2), Literal("/"), Field('d', 2), Literal("-")]
    ensures forall i :: 0 <= i < |rules| ==> PlainRule(rules[i])
    ensures Field('d', 2) in rules && Field('M', 2) in rules && Field('y', 4) in rules
    ensures !HasBitten(rules)
  {
    hide SpaceLength;
    assert rules[0] == Field('y', 4) && rules[2] == Field('M', 2) && rules[4] == Field('d', 2);
    assert !Bitten("-");
  }

  // Such a date ends with its only hyphen.
  lemma HyphenatedText(t: int)
    requires 100 <= YearOf(t) <= 9999
    ensures var s := Print(HYPHENATED, t); s != "" && s[|s| - 1] == '-' && FirstAt(s, "--") == |s|
  {
    hide *;
    HyphenatedRules();
    HyphenatedIsPlain(Rules(HYPHENATED));
    AllFields(HYPHENATED);
    PlainPrints(HYPHENATED, t);
    WritableDigits(t);
    HyphenatedParts(Rules(HYPHENATED), DigitsOf(t));
    OneHyphen(Print(HYPHENATED, t));
  }

  lemma OneHyphen(s: string)
    requires |s| == 11 && forall i :: 0 <= i < 11 ==> (s[i] == '-' <==> i == 10)
    ensures FirstAt(s, "--") == |s|
  {
    var i := FirstAt(s, "--");
    if i < |s| {
      OccursStart(s, "--", i);
    }
  }

  lemma HyphenatedParts(rules: seq<FormatRule>, n: Digits)
    requires Writable(n) && n.suffix == ""
    requires rules == [Field('y', 4), Literal("/"), Field('M', 2), Literal("/"), Field('d', 2), Literal("-")]
    ensures var s := RulesText(rules, n); |s| == 11 && forall i :: 0 <= i < 11 ==> (s[i] == '-' <==> i == 10)
  {
    hide RulesText, RuleText, Writable;
    TextStep(rules, 0, n);
    TextStep(rules, 1, n);
    TextStep(rules, 2, n);
    TextStep(rules, 3, n);
    TextStep(rules, 4, n);
    TextStep(rules, 5, n);
    TextStep(rules, 6, n);
    FieldDigits(rules[0], n);
    FieldDigits(rules[2], n);
    FieldDigits(rules[4], n);
    TextOfLiteral("/", n);
    TextOfLiteral("-", n);
    HyphenPlace(RuleText(rules[0], n), RuleText(rules[2], n), RuleText(rules[4], n));
  }

  lemma HyphenPlace(y: string, m: string, d: string)
    requires |y| == 4 && |m| == 2 && |d| == 2
    requires '-' !in y && '-' !in m && '-' !in d
    ensures var s := y + ("/" + (m + ("/" + (d + ("-" + "")))));
      |s| == 11 && forall i :: 0 <= i < 11 ==> (s[i] == '-' <==> i == 10)
  {
    var s := y + ("/" + (m + ("/" + (d + ("-" + "")))));
    forall i | 0 <= i < 11 ensures s[i] == '-' <==> i == 10 {
      assert i < 4 ==> s[i] == y[i];
      assert 5 <= i < 7 ==> s[i] == m[i - 5];
      assert 8 <= i < 10 ==> s[i] == d[i - 8];
    }
  }

  // A field without a suffix is written with digits only.
  lemma FieldDigits(r: FormatRule, n: Digits)
    requires Writable(n) && n.suffix == ""
    requires r == Field('d', 2) || r == Field('M', 2) || r == Field('y', 4)
    ensures |RuleText(r, n)| == r.count && '-' !in RuleText(r, n)
  {
    hide Padded;
    if r.letter == 'y' {
      YearDigits(n.year);
    } else {
      PaddedDigits(if r.letter == 'd' then n.day else n.month);
    }
  }

  lemma TextStep(rules: seq<FormatRule>, i: nat, n: Digits)
    requires i <= |rules|
    ensures RulesText(rules[i..], n) == if i == |rules| then "" else RuleText(rules[i], n) + RulesText(rules[i + 1..], n)
    ensures rules[0..] == rules
  {
    hide RuleText;
    if i < |rules| {
      assert rules[i..][1..] == rules[i + 1..];
    }
  }
}
