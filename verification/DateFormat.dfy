/**
 Printing a date by a format string and reading it back by the rules built from the same string.
 */
module DateFormat {
  import opened Wrappers
  import opened Numbers
  import opened Calendar

  // ---- numbers ----

  lemma PaddedTwo(n: nat)
    requires n < 100
    ensures Padded(n, 2) == [Digit(n / 10), Digit(n % 10)]
  {
    if 10 <= n {
      assert Decimal(n) == [Digit(n / 10)] + [Digit(n % 10)];
    }
  }

  lemma DecimalStep(n: nat)
    ensures Decimal(n) == if n < 10 then [Digit(n)] else Decimal(n / 10) + [Digit(n % 10)]
  {
  }

  lemma LastFour(s: string, a: char, b: char, c: char, d: char)
    requires s == [a, b, c, d] || (s == [b, c, d] && a == '0') || (s == [c, d] && a == b == '0')
      || (s == [d] && a == b == c == '0')
    ensures var z := "000" + s; |z| >= 4 && z[|z| - 4..] == [a, b, c, d]
  {
  }

  lemma PaddedFour(n: nat)
    requires n < 10000
    ensures Padded(n, 4) == [Digit(n / 1000), Digit(n / 100 % 10), Digit(n / 10 % 10), Digit(n % 10)]
  {
    hide Decimal;
    DecimalStep(n);
    DecimalStep(n / 10);
    DecimalStep(n / 100);
    DecimalStep(n / 1000);
    assert n / 10 / 10 == n / 100 && n / 100 / 10 == n / 1000;
    LastFour(Decimal(n), Digit(n / 1000), Digit(n / 100 % 10), Digit(n / 10 % 10), Digit(n % 10));
  }

  // ---- printing ----

  const DAY_NAMES := ["Sunday", "Monday", "Tuesday", "Wednesday", "Thursday", "Friday", "Saturday"]
  const MONTH_NAMES := ["January", "February", "March", "April", "May", "June", "July", "August", "September",
                        "October", "November", "December"]
  const ABBREVIATED_DAYS := ["Sun", "Mon", "Tue", "Wed", "Thu", "Fri", "Sat"]
  const ABBREVIATED_MONTHS := ["Jan", "Feb", "Mar", "Apr", "May", "Jun", "Jul", "Aug", "Sep", "Oct", "Nov", "Dec"]

  predicate IsDateLetter(c: char) {
    c == 'd' || c == 'M' || c == 'y'
  }

  predicate IsTimeLetter(c: char) {
    c == 'h' || c == 'H' || c == 'm' || c == 's' || c == 't'
  }

  // The longest run of a letter that one match of the printer's pattern takes.
  function PrinterRun(c: char): nat {
    if IsDateLetter(c) then 4 else if IsTimeLetter(c) then 2 else if c == 'S' then 1 else 0
  }

  // The same for the pattern that turns a format into rules.
  function ParserRun(c: char): nat {
    if IsDateLetter(c) then 4 else if IsTimeLetter(c) then 2 else if c == 'z' then 3 else 0
  }

  // How many times the first letter of f repeats, up to a limit.
  function RunLength(f: string, limit: nat): (n: nat)
    requires f != "" && 1 <= limit
    ensures 1 <= n <= limit && n <= |f|
    ensures forall i :: 0 <= i < n ==> f[i] == f[0]
  {
    if 1 < limit && 1 < |f| && f[1] == f[0] then 1 + RunLength(f[1..], limit - 1) else 1
  }

  function OrdinalSuffix(n: int): string {
    if n == 1 || n == 21 || n == 31 then "st"
    else if n == 2 || n == 22 then "nd"
    else if n == 3 || n == 23 then "rd"
    else "th"
  }

  // The text of one field for the midnight of day t.
  function FieldText(c: char, n: nat, t: int): string
    requires YearOf(t) >= 0
  {
    var d, m, y := DayOf(t), MonthOf(t), YearOf(t);
    match (c, n)
    case ('d', 1) => Decimal(d)
    case ('d', 2) => Padded(d, 2)
    case ('d', 3) => ABBREVIATED_DAYS[Weekday(t)]
    case ('d', 4) => DAY_NAMES[Weekday(t)]
    case ('M', 1) => Decimal(m + 1)
    case ('M', 2) => Padded(m + 1, 2)
    case ('M', 3) => ABBREVIATED_MONTHS[m]
    case ('M', 4) => MONTH_NAMES[m]
    case ('y', 2) => Padded(y, 2)
    case ('y', 4) => Padded(y, 4)
    case ('h', _) => "12"
    case ('H', 1) => "0"
    case ('m', 1) => "0"
    case ('s', 1) => "0"
    case ('H', _) => "00"
    case ('m', _) => "00"
    case ('s', _) => "00"
    case ('t', 1) => "A"
    case ('t', _) => "AM"
    case ('S', _) => OrdinalSuffix(d)
    case _ => seq(n, _ => c)
  }

  // A backslash in front of a field drops out and keeps the field's letters as they are.
  function Print(f: string, t: int): string
    requires YearOf(t) >= 0
    decreases |f|
  {
    if f == "" then ""
    else if f[0] == '\\' && 1 < |f| && PrinterRun(f[1]) > 0 then
      var n := RunLength(f[1..], PrinterRun(f[1]));
      f[1..1 + n] + Print(f[1 + n..], t)
    else if PrinterRun(f[0]) > 0 then
      var n := RunLength(f, PrinterRun(f[0]));
      FieldText(f[0], n, t) + Print(f[n..], t)
    else [f[0]] + Print(f[1..], t)
  }

  // The suffix goes by the last digit, but for the teens.
  lemma OrdinalSuffixes(n: nat)
    requires 1 <= n <= 31
    ensures OrdinalSuffix(n) ==
      if n / 10 == 1 then "th" else if n % 10 == 1 then "st" else if n % 10 == 2 then "nd" else if n % 10 == 3 then "rd" else "th"
  {
  }

  // The short names are the first three letters of the long ones.
  lemma ShortNames(i: nat)
    requires i < 12
    ensures |MONTH_NAMES[i]| >= 3 && MONTH_NAMES[i][..3] == ABBREVIATED_MONTHS[i]
    ensures i < 7 ==> |DAY_NAMES[i]| >= 3 && DAY_NAMES[i][..3] == ABBREVIATED_DAYS[i]
  {
  }

  // The first day of 1970 was a Thursday, and the names go on from there day by day and month by month.
  lemma EpochNames(k: nat)
    requires k < 7
    ensures var t := DayNumber(1970, 0, 1 + k);
      && YearOf(t) == 1970 && FieldText('M', 4, t) == "January" && FieldText('y', 4, t) == "1970"
      && FieldText('d', 4, t) ==
           ["Thursday", "Friday", "Saturday", "Sunday", "Monday", "Tuesday", "Wednesday"][k]
  {
    hide YearOf, MonthOf, DayOf;
    DateUnique(1970, 0, 1 + k);
    PaddedFour(1970);
  }

  // ---- from a format to rules ----

  datatype FormatRule = Field(letter: char, count: nat) | Literal(text: string)

  // The longest stretch without a field letter.
  function LiteralLength(f: string): (n: nat)
    ensures n <= |f|
    ensures forall i :: 0 <= i < n ==> ParserRun(f[i]) == 0
    ensures n < |f| ==> ParserRun(f[n]) > 0
  {
    if f == "" || ParserRun(f[0]) > 0 then 0 else 1 + LiteralLength(f[1..])
  }

  function Rules(f: string): seq<FormatRule>
    decreases |f|
  {
    if f == "" then []
    else if ParserRun(f[0]) > 0 then
      var n := RunLength(f, ParserRun(f[0]));
      [Field(f[0], n)] + Rules(f[n..])
    else
      var n := LiteralLength(f);
      [Literal(f[..n])] + Rules(f[n..])
  }

  // ---- applying rules ----

  predicate IsSpace(c: char) {
    var n := c as int;
    9 <= n <= 13 || n == 32 || n == 0xA0 || n == 0x1680 || 0x2000 <= n <= 0x200A || n == 0x2028 || n == 0x2029
    || n == 0x202F || n == 0x205F || n == 0x3000 || n == 0xFEFF
  }

  predicate IsLineEnd(c: char) {
    var n := c as int;
    n == 10 || n == 13 || n == 0x2028 || n == 0x2029
  }

  function SpaceLength(s: string): (n: nat)
    ensures n <= |s|
    ensures forall i :: 0 <= i < n ==> IsSpace(s[i])
    ensures n < |s| ==> !IsSpace(s[n])
  {
    if s == "" || !IsSpace(s[0]) then 0 else 1 + SpaceLength(s[1..])
  }

  // The length of an optional ordinal suffix (st, nd, rd, th in either case) after optional space.
  function SuffixLength(s: string): (n: nat)
    ensures n <= |s|
  {
    var w := SpaceLength(s);
    if w + 1 < |s| && IsSuffix(s[w], s[w + 1]) then w + 2 else 0
  }

  predicate IsSuffix(a: char, b: char) {
    || ((a == 's' || a == 'S') && (b == 't' || b == 'T'))
    || (IsNR(a) && (b == 'd' || b == 'D'))
    || ((a == 't' || a == 'T') && (b == 'h' || b == 'H'))
  }

  predicate IsNR(a: char) {
    a == 'n' || a == 'N' || a == 'r' || a == 'R'
  }

  // A separator is used as a pattern. Its characters stand for themselves, except the dot.
  predicate MatchesChar(p: char, c: char) {
    if p == '.' then !IsLineEnd(c) else p == c
  }

  predicate MatchesLiteral(p: string, s: string) {
    |p| <= |s| && forall i :: 0 <= i < |p| ==> MatchesChar(p[i], s[i])
  }

  // What the rules collected so far.
  datatype Fields = Fields(day: Option<int>, month: Option<int>, year: Option<int>)

  predicate TwoDigits(s: string) {
    2 <= |s| && IsDigit(s[0]) && IsDigit(s[1])
  }

  function TwoDigitValue(s: string): nat
    requires TwoDigits(s)
  {
    10 * DigitValue(s[0]) + DigitValue(s[1])
  }

  // One rule: the new fields and the text left, or nothing when the rule does not apply. Only the fields
  // dd, MM and yyyy are modelled.
  function Apply(rule: FormatRule, s: string, x: Fields): Option<(Fields, string)> {
    match rule
    case Field('d', 2) =>
      if TwoDigits(s) && TwoDigitValue(s) <= 31 then
        Some((x.(day := Some(TwoDigitValue(s))), s[2 + SuffixLength(s[2..])..]))
      else None
    case Field('M', 2) =>
      if TwoDigits(s) && TwoDigitValue(s) <= 12 then Some((x.(month := Some(TwoDigitValue(s) - 1)), s[2..])) else None
    case Field('y', 4) =>
      if TwoDigits(s) && TwoDigits(s[2..]) then
        Some((x.(year := Some(100 * TwoDigitValue(s) + TwoDigitValue(s[2..]))), s[4..]))
      else None
    case Literal(p) =>
      if MatchesLiteral(p, s) then Some((x, s[|p|..])) else None
    case _ => None
  }

  function ApplyAll(rules: seq<FormatRule>, s: string, x: Fields): Option<(Fields, string)>
    decreases |rules|
  {
    if rules == [] then Some((x, s))
    else
      match Apply(rules[0], s, x)
      case None => None
      case Some((x', s')) => ApplyAll(rules[1..], s', x')
  }

  // The date the fields stand for; missing ones come from `now`. Falsy years and days count as missing, and
  // years below 100 fall into the twentieth century. A month that is not one of the twelve skips the check
  // of the day and carries into the year.
  function FinishExact(x: Fields, now: int): Option<int> {
    var y := if x.year.Some? && x.year.value != 0 then x.year.value else YearOf(now);
    var m := if x.month.Some? then x.month.value else MonthOf(now);
    var d := if x.day.Some? && x.day.value != 0 then x.day.value else 1;
    var year := if 0 <= y < 100 then 1900 + y else y;
    if m < 0 || 11 < m then Some(DayNumber(year + m / 12, m % 12, d))
    else if d > DaysInMonth(y, m) then None
    else Some(DayNumber(year, m, d))
  }

  function ParseExact(s: string, f: string, now: int): Option<int> {
    match ApplyAll(Rules(f), s, Fields(None, None, None))
    case None => None
    case Some((x, rest)) => if rest == "" then FinishExact(x, now) else None
  }

  // The parser as it runs: one loop cuts the format into rules, one applies them.
  method RunParseExact(s: string, f: string, now: int) returns (r: Option<int>)
    ensures r == ParseExact(s, f, now)
  {
    hide Apply, FinishExact, RunLength, LiteralLength, ParserRun, Rules;
    var rules, left := [], f;
    NoRules();
    assert [] + Rules(f) == Rules(f);
    while left != ""
      invariant rules + Rules(left) == Rules(f)
      decreases |left|
    {
      ghost var before := rules;
      if ParserRun(left[0]) > 0 {
        var n := RunLength(left, ParserRun(left[0]));
        RulesOfField(left);
        rules := rules + [Field(left[0], n)];
        assert before + Rules(left) == rules + Rules(left[n..]);
        left := left[n..];
      } else {
        var n := LiteralLength(left);
        RulesOfLiteral(left);
        rules := rules + [Literal(left[..n])];
        assert before + Rules(left) == rules + Rules(left[n..]);
        left := left[n..];
      }
    }
    assert rules == Rules(f);
    r := RunRules(rules, s, now);
  }

  lemma RulesOfField(f: string)
    requires f != "" && ParserRun(f[0]) > 0
    ensures var n := RunLength(f, ParserRun(f[0])); Rules(f) == [Field(f[0], n)] + Rules(f[n..])
  {
  }

  lemma RulesOfLiteral(f: string)
    requires f != "" && ParserRun(f[0]) == 0
    ensures LiteralLength(f) > 0 && Rules(f) == [Literal(f[..LiteralLength(f)])] + Rules(f[LiteralLength(f)..])
  {
  }

  method RunRules(rules: seq<FormatRule>, s: string, now: int) returns (r: Option<int>)
    ensures r == match ApplyAll(rules, s, Fields(None, None, None))
                 case None => None
                 case Some((x, rest)) => if rest == "" then FinishExact(x, now) else None
  {
    hide Apply, FinishExact;
    var x, rest := Fields(None, None, None), s;
    for i := 0 to |rules|
      invariant ApplyAll(rules, s, Fields(None, None, None)) == ApplyAll(rules[i..], rest, x)
    {
      assert rules[i..][1..] == rules[i + 1..];
      match Apply(rules[i], rest, x)
      case None => return None;
      case Some((x', rest')) => x, rest := x', rest';
    }
    r := if rest == "" then FinishExact(x, now) else None;
  }

  // ---- the round trip ----

  predicate IsPatternChar(c: char) {
    || c == '\\' || c == '^' || c == '$' || c == '*' || c == '+' || c == '?' || c == '(' || c == ')'
    || c == '[' || c == ']' || c == '{' || c == '}' || c == '|'
  }

  // Separator characters the printer leaves alone and the pattern takes literally (or as a dot).
  predicate PlainChar(c: char) {
    PrinterRun(c) == 0 && ParserRun(c) == 0 && !IsPatternChar(c)
  }

  predicate PlainRule(r: FormatRule) {
    match r
    case Field(c, n) => (c == 'd' && n == 2) || (c == 'M' && n == 2) || (c == 'y' && n == 4)
    case Literal(p) => p != "" && forall i :: 0 <= i < |p| ==> PlainChar(p[i])
  }

  // Plain rules in an order formats produce: two separators never follow each other.
  ghost predicate PlainRules(rules: seq<FormatRule>) {
    && (forall i :: 0 <= i < |rules| ==> PlainRule(rules[i]))
    && (forall i :: 0 < i < |rules| && rules[i].Literal? ==> rules[i - 1].Field?)
  }

  ghost predicate PlainFormat(f: string) {
    && (forall i :: 0 <= i < |Rules(f)| ==> PlainRule(Rules(f)[i]))
    && Field('d', 2) in Rules(f) && Field('M', 2) in Rules(f) && Field('y', 4) in Rules(f)
  }

  // What a text of a plain format says: the numbers in it, whether or not there is such a date, and the ordinal
  // suffix that may stand behind the day.
  datatype Digits = Digits(day: nat, month: nat, year: nat, suffix: string)

  predicate Writable(n: Digits) {
    n.day < 100 && n.month < 100 && n.year < 10000 && n.suffix in ["", "st", "nd", "rd", "th"]
  }

  function DigitsOf(t: int): (n: Digits)
    requires 0 <= YearOf(t) < 10000
    ensures Writable(n)
  {
    Digits(DayOf(t), MonthOf(t) + 1, YearOf(t), "")
  }

  function RuleText(r: FormatRule, n: Digits): string {
    match r
    case Field(c, _) => if c == 'd' then Padded(n.day, 2) + n.suffix else if c == 'M' then Padded(n.month, 2) else Padded(n.year, 4)
    case Literal(p) => p
  }

  function RulesText(rules: seq<FormatRule>, n: Digits): string {
    if rules == [] then "" else RuleText(rules[0], n) + RulesText(rules[1..], n)
  }

  // A separator directly behind dd that the optional ordinal suffix takes a bite of: space, then one of
  // n, N, r, R and a D.
  predicate Bitten(p: string) {
    var w := SpaceLength(p);
    w + 1 < |p| && IsNR(p[w]) && p[w + 1] == 'D'
  }

  ghost predicate HasBitten(rules: seq<FormatRule>) {
    exists i :: 0 < i < |rules| && rules[i - 1] == Field('d', 2) && rules[i].Literal? && Bitten(rules[i].text)
  }

  lemma PrintPlainChar(f: string, t: int)
    requires f != "" && YearOf(t) >= 0 && PlainChar(f[0])
    ensures Print(f, t) == [f[0]] + Print(f[1..], t)
  {
    hide FieldText, RunLength, YearOf;
  }

  lemma {:induction false} PrintLiteral(f: string, n: nat, t: int)
    requires n <= |f| && YearOf(t) >= 0 && forall i :: 0 <= i < n ==> PlainChar(f[i])
    ensures Print(f, t) == f[..n] + Print(f[n..], t)
  {
    hide Print, PlainChar, YearOf;
    if n == 0 {
      assert f[0..] == f;
    } else {
      PrintPlainChar(f, t);
      PrintLiteral(f[1..], n - 1, t);
      assert f[1..][n - 1..] == f[n..];
      assert f[..n] == [f[0]] + f[1..][..n - 1];
    }
  }

  lemma FieldFirst(f: string, t: int)
    requires f != "" && ParserRun(f[0]) > 0
    ensures var n := RunLength(f, ParserRun(f[0]));
            && Rules(f) == [Field(f[0], n)] + Rules(f[n..])
            && (YearOf(t) >= 0 && IsDateLetter(f[0]) ==> Print(f, t) == FieldText(f[0], n, t) + Print(f[n..], t))
  {
    hide FieldText;
  }

  lemma PlainCons(r: FormatRule, rules: seq<FormatRule>, n: Digits)
    requires forall i :: 0 <= i < |[r] + rules| ==> PlainRule(([r] + rules)[i])
    ensures PlainRule(r) && (r.Field? ==> IsDateLetter(r.letter))
    ensures forall i :: 0 <= i < |rules| ==> PlainRule(rules[i])
    ensures RulesText([r] + rules, n) == RuleText(r, n) + RulesText(rules, n)
  {
    hide RuleText, PlainChar;
    assert PlainRule(([r] + rules)[0]);
    assert ([r] + rules)[1..] == rules;
    forall i | 0 <= i < |rules| ensures PlainRule(rules[i]) {
      assert rules[i] == ([r] + rules)[i + 1];
    }
  }

  lemma PlainFieldText(c: char, k: nat, t: int)
    requires PlainRule(Field(c, k)) && 0 <= YearOf(t) < 10000
    ensures FieldText(c, k, t) == RuleText(Field(c, k), DigitsOf(t))
  {
    hide YearOf, MonthOf, DayOf, Padded;
    assert Padded(DayOf(t), 2) + "" == Padded(DayOf(t), 2);
  }

  lemma TextOfLiteral(p: string, n: Digits)
    ensures RuleText(Literal(p), n) == p
  {
  }

  // On plain formats the printer's one-character steps add up to the parser's rules.
  lemma {:induction false} PrintIsRulesText(f: string, t: int)
    requires 0 <= YearOf(t) < 10000 && forall i :: 0 <= i < |Rules(f)| ==> PlainRule(Rules(f)[i])
    ensures Print(f, t) == RulesText(Rules(f), DigitsOf(t))
    decreases |f|
  {
    if f == "" {
    } else {
      hide Print, FieldText, RunLength, LiteralLength, PlainChar, Rules, ParserRun, RulesText, RuleText, DigitsOf, IsDateLetter, YearOf;
      if ParserRun(f[0]) > 0 {
        var n := RunLength(f, ParserRun(f[0]));
        FieldFirst(f, t);
        PlainCons(Field(f[0], n), Rules(f[n..]), DigitsOf(t));
        PlainFieldText(f[0], n, t);
        PrintIsRulesText(f[n..], t);
      } else {
        var n := LiteralLength(f);
        RulesOfLiteral(f);
        PlainCons(Literal(f[..n]), Rules(f[n..]), DigitsOf(t));
        TextOfLiteral(f[..n], DigitsOf(t));
        PrintIsRulesText(f[n..], t);
        forall i | 0 <= i < n ensures PlainChar(f[i]) {
          assert f[i] == f[..n][i];
        }
        PrintLiteral(f, n, t);
      }
    }
  }

  // The first rule of a format, and what follows it: behind a separator comes a field.
  lemma FirstRule(f: string) returns (n: nat)
    requires f != ""
    ensures 1 <= n <= |f| && |Rules(f)| > 0 && Rules(f)[1..] == Rules(f[n..])
    ensures Rules(f)[0].Literal? && 1 < |Rules(f)| ==> Rules(f)[1].Field?
  {
    hide RunLength, LiteralLength, ParserRun;
    if ParserRun(f[0]) > 0 {
      n := RunLength(f, ParserRun(f[0]));
    } else {
      RulesOfLiteral(f);
      n := LiteralLength(f);
      if f[n..] != "" {
        assert f[n..][0] == f[n];
      }
    }
  }

  lemma {:induction false} RulesSeparated(f: string, i: nat)
    requires 0 < i < |Rules(f)| && Rules(f)[i].Literal?
    ensures Rules(f)[i - 1].Field?
    decreases |f|
  {
    hide Rules;
    if f == "" {
      NoRules();
    } else {
      var n := FirstRule(f);
      if i == 1 {
      } else {
        assert Rules(f)[i] == Rules(f[n..])[i - 1] && Rules(f)[i - 1] == Rules(f[n..])[i - 2];
        RulesSeparated(f[n..], i - 1);
      }
    }
  }

  lemma NoRules()
    ensures Rules("") == []
  {
  }

  // ---- one rule on the text of its own field ----

  function Collect(r: FormatRule, n: Digits, x: Fields): Fields {
    if r == Field('d', 2) then x.(day := Some(n.day))
    else if r == Field('M', 2) then x.(month := Some(n.month - 1))
    else if r == Field('y', 4) then x.(year := Some(n.year))
    else x
  }

  function CollectAll(rules: seq<FormatRule>, n: Digits, x: Fields): Fields {
    if rules == [] then x else CollectAll(rules[1..], n, Collect(rules[0], n, x))
  }

  lemma {:induction false} CollectedFields(rules: seq<FormatRule>, n: Digits, x: Fields)
    ensures var c := CollectAll(rules, n, x);
      && (Field('d', 2) in rules || x.day == Some(n.day) ==> c.day == Some(n.day))
      && (Field('M', 2) in rules || x.month == Some(n.month - 1) ==> c.month == Some(n.month - 1))
      && (Field('y', 4) in rules || x.year == Some(n.year) ==> c.year == Some(n.year))
  {
    if rules == [] {
    } else {
      CollectedFields(rules[1..], n, Collect(rules[0], n, x));
    }
  }

  lemma {:induction false} SpaceLengthAppend(p: string, tail: string)
    requires tail == "" || !IsSpace(tail[0])
    ensures SpaceLength(p + tail) == SpaceLength(p)
  {
    if p == "" {
      assert p + tail == tail;
    } else {
      assert (p + tail)[1..] == p[1..] + tail;
      SpaceLengthAppend(p[1..], tail);
    }
  }

  lemma SuffixChars(a: char, b: char)
    ensures PlainChar(a) && PlainChar(b) ==> (IsSuffix(a, b) <==> IsNR(a) && b == 'D')
    ensures IsDigit(a) || IsDigit(b) ==> !IsSuffix(a, b)
  {
  }

  // The suffix search bites into the text behind dd exactly when the separator there is of the bad kind.
  lemma SuffixBites(p: string, tail: string)
    requires forall i :: 0 <= i < |p| ==> PlainChar(p[i])
    requires tail == "" || IsDigit(tail[0])
    ensures SuffixLength(p + tail) == if Bitten(p) then SpaceLength(p) + 2 else 0
  {
    hide PlainChar, IsSuffix, IsNR, SpaceLength;
    assert tail == "" || !IsSpace(tail[0]);
    SpaceLengthAppend(p, tail);
    var w := SpaceLength(p);
    var s := p + tail;
    if w + 1 < |s| {
      SuffixChars(s[w], s[w + 1]);
      assert s[w] == if w < |p| then p[w] else tail[0];
      assert w < |p| ==> s[w + 1] == if w + 1 < |p| then p[w + 1] else tail[0];
    }
  }

  lemma PaddedDigits(n: nat)
    requires n < 100
    ensures var s := Padded(n, 2); |s| == 2 && TwoDigits(s) && TwoDigitValue(s) == n
  {
    PaddedTwo(n);
  }

  lemma TwoDigitsPrefix(s: string, rest: string)
    requires TwoDigits(s)
    ensures TwoDigits(s + rest) && TwoDigitValue(s + rest) == TwoDigitValue(s)
  {
  }

  lemma YearDigits(y: nat)
    requires y < 10000
    ensures var s := Padded(y, 4);
            |s| == 4 && TwoDigits(s) && TwoDigits(s[2..]) && 100 * TwoDigitValue(s) + TwoDigitValue(s[2..]) == y
  {
    PaddedFour(y);
    assert y / 10 / 10 == y / 100 && y / 100 / 10 == y / 1000;
  }

  // The text of plain rules is empty or starts with a digit or with a separator.
  lemma RulesTextStart(rules: seq<FormatRule>, n: Digits)
    requires PlainRules(rules) && Writable(n)
    requires rules != [] ==> rules[0].Field?
    ensures var s := RulesText(rules, n); s == "" || IsDigit(s[0])
  {
    if rules != [] {
      assert PlainRule(rules[0]);
      PaddedDigits(n.day);
      PaddedDigits(n.month);
      YearDigits(n.year);
    }
  }

  lemma PlainTail(rules: seq<FormatRule>)
    requires PlainRules(rules) && rules != []
    ensures PlainRules(rules[1..])
  {
    var q := rules[1..];
    forall i | 0 < i < |q| && q[i].Literal? ensures q[i - 1].Field? {
      assert q[i] == rules[i + 1] && q[i - 1] == rules[i];
    }
  }

  // Behind dd, the suffix search finds the suffix, or else something exactly when the next rule is a bitten
  // separator.
  lemma SuffixAfterDay(rules: seq<FormatRule>, n: Digits)
    requires PlainRules(rules) && Writable(n)
    ensures SuffixLength(n.suffix + RulesText(rules, n)) ==
      if n.suffix != "" then 2
      else if rules != [] && rules[0].Literal? && Bitten(rules[0].text) then SpaceLength(rules[0].text) + 2 else 0
  {
    var s := RulesText(rules, n);
    if n.suffix != "" {
      SuffixFound(n.suffix, s);
    } else {
      assert "" + s == s;
      if rules != [] && rules[0].Literal? {
        assert PlainRule(rules[0]);
        PlainTail(rules);
        assert 1 < |rules| ==> rules[1].Field?;
        RulesTextStart(rules[1..], n);
        SuffixBites(rules[0].text, RulesText(rules[1..], n));
      } else {
        RulesTextStart(rules, n);
        SuffixBites("", s);
      }
    }
  }

  lemma SuffixFound(suffix: string, rest: string)
    requires suffix in ["st", "nd", "rd", "th"]
    ensures SuffixLength(suffix + rest) == 2 == |suffix|
  {
    var s := suffix + rest;
    assert s[0] == suffix[0] && s[1] == suffix[1];
    assert !IsSpace(s[0]);
  }

  ghost predicate BitesFirst(rules: seq<FormatRule>) {
    1 < |rules| && rules[0] == Field('d', 2) && rules[1].Literal? && Bitten(rules[1].text)
  }

  // The numbers a rule reads: no day above 31 and no month above 12.
  predicate InRange(r: FormatRule, n: Digits) {
    (r == Field('d', 2) ==> n.day <= 31) && (r == Field('M', 2) ==> n.month <= 12)
  }

  lemma ApplyDay(n: Digits, rest: string, x: Fields)
    requires n.day < 100
    ensures Apply(Field('d', 2), Padded(n.day, 2) + rest, x) ==
      if n.day <= 31 then Some((Collect(Field('d', 2), n, x), rest[SuffixLength(rest)..])) else None
  {
    hide Padded, SuffixLength, TwoDigits, TwoDigitValue;
    var own := Padded(n.day, 2);
    PaddedDigits(n.day);
    TwoDigitsPrefix(own, rest);
    assert (own + rest)[2..] == rest;
    var b := SuffixLength(rest);
    assert (own + rest)[2 + b..] == rest[b..];
  }

  lemma ApplyMonth(n: Digits, rest: string, x: Fields)
    requires n.month < 100
    ensures Apply(Field('M', 2), Padded(n.month, 2) + rest, x) ==
      if n.month <= 12 then Some((Collect(Field('M', 2), n, x), rest)) else None
  {
    hide Padded, TwoDigits, TwoDigitValue;
    var own := Padded(n.month, 2);
    PaddedDigits(n.month);
    TwoDigitsPrefix(own, rest);
    assert (own + rest)[2..] == rest;
  }

  lemma ApplyYear(n: Digits, rest: string, x: Fields)
    requires n.year < 10000
    ensures Apply(Field('y', 4), Padded(n.year, 4) + rest, x) == Some((Collect(Field('y', 4), n, x), rest))
  {
    hide Padded, TwoDigits, TwoDigitValue;
    var own := Padded(n.year, 4);
    YearDigits(n.year);
    TwoDigitsPrefix(own, rest);
    assert (own + rest)[2..] == own[2..] + rest;
    TwoDigitsPrefix(own[2..], rest);
    assert (own + rest)[4..] == rest;
  }

  lemma ApplyLiteral(p: string, rest: string, x: Fields)
    ensures Apply(Literal(p), p + rest, x) == Some((x, rest))
  {
    assert (p + rest)[|p|..] == rest;
  }

  // A rule applied to the text that starts with its own field reads the field and stops behind it, unless the
  // number is out of range or it is dd in front of a bitten separator.
  lemma ApplyFirst(rules: seq<FormatRule>, n: Digits, x: Fields)
    requires PlainRules(rules) && rules != [] && Writable(n)
    ensures var bite := if n.suffix == "" && BitesFirst(rules) then SpaceLength(rules[1].text) + 2 else 0;
            var rest := RulesText(rules[1..], n);
            bite <= |rest| && Apply(rules[0], RulesText(rules, n), x) ==
              if InRange(rules[0], n) then Some((Collect(rules[0], n, x), rest[bite..])) else None
  {
    hide Apply, Collect, SuffixLength, SpaceLength, PlainChar, Bitten, Padded, Writable, RulesText, PlainRules;
    WritableParts(n);
    TextUnfolds(rules, n);
    PlainTail(rules);
    var rest := RulesText(rules[1..], n);
    assert rest[0..] == rest;
    if rules[0] == Field('d', 2) {
      SuffixAfterDay(rules[1..], n);
      ApplyDay(n, n.suffix + rest, x);
      assert Padded(n.day, 2) + n.suffix + rest == Padded(n.day, 2) + (n.suffix + rest);
      BehindSuffix(n.suffix, rest);
    } else if rules[0] == Field('M', 2) {
      ApplyMonth(n, rest, x);
    } else if rules[0] == Field('y', 4) {
      ApplyYear(n, rest, x);
    } else {
      ApplyLiteral(rules[0].text, rest, x);
      CollectOfLiteral(rules[0].text, n, x);
    }
  }

  lemma WritableParts(n: Digits)
    requires Writable(n)
    ensures n.day < 100 && n.month < 100 && n.year < 10000 && n.suffix in ["", "st", "nd", "rd", "th"]
  {
  }

  lemma TextUnfolds(rules: seq<FormatRule>, n: Digits)
    requires PlainRules(rules) && rules != []
    ensures PlainRule(rules[0]) && RulesText(rules, n) == RuleText(rules[0], n) + RulesText(rules[1..], n)
  {
  }

  lemma BehindSuffix(suffix: string, rest: string)
    ensures suffix in ["st", "nd", "rd", "th"] ==> (suffix + rest)[2..] == rest
    ensures suffix == "" ==> suffix + rest == rest
  {
  }

  lemma CollectOfLiteral(p: string, n: Digits, x: Fields)
    ensures Collect(Literal(p), n, x) == x
  {
  }

  // A separator whose head was bitten off no longer matches: by steps of the bitten length a digit or a dot
  // would have to stand where the bite was.
  lemma BittenFails(p: string, tail: string, b: nat)
    requires Bitten(p) && b == SpaceLength(p) + 2
    requires tail == "" || IsDigit(tail[0])
    ensures !MatchesLiteral(p, (p + tail)[b..])
  {
    hide SpaceLength, MatchesChar;
    var s := (p + tail)[b..];
    if MatchesLiteral(p, s) {
      assert |tail| >= b && s[|p| - b] == tail[0];
      MatchedDigit(p[|p| - b], tail[0]);
      StepsBack(p, s, b, |p| - b);
    }
  }

  lemma MatchedDigit(p: char, c: char)
    requires MatchesChar(p, c) && (IsDigit(c) || c == '.')
    ensures IsDigit(p) || p == '.'
  {
  }

  lemma {:induction false} StepsBack(p: string, s: string, b: nat, j: nat)
    requires Bitten(p) && b == SpaceLength(p) + 2 && MatchesLiteral(p, s)
    requires j < |p| && (IsDigit(p[j]) || p[j] == '.') && forall i :: b <= i <= j ==> s[i - b] == p[i]
    ensures false
    decreases j
  {
    hide SpaceLength, MatchesChar;
    if j < b {
      BittenHead(p, j);
    } else {
      assert s[j - b] == p[j];
      MatchedDigit(p[j - b], s[j - b]);
      StepsBack(p, s, b, j - b);
    }
  }

  lemma BittenHead(p: string, j: nat)
    requires Bitten(p) && j < SpaceLength(p) + 2
    ensures j < |p| && !IsDigit(p[j]) && p[j] != '.'
  {
  }

  // ---- the whole text ----

  ghost predicate AllInRange(rules: seq<FormatRule>, n: Digits) {
    forall i :: 0 <= i < |rules| ==> InRange(rules[i], n)
  }

  lemma {:induction false} ReadBack(rules: seq<FormatRule>, n: Digits, x: Fields)
    requires PlainRules(rules) && Writable(n)
    ensures ApplyAll(rules, RulesText(rules, n), x) ==
      if (n.suffix == "" && HasBitten(rules)) || !AllInRange(rules, n) then None else Some((CollectAll(rules, n, x), ""))
    decreases |rules|
  {
    hide Apply, Collect, Bitten, SpaceLength, RuleText, InRange, Writable;
    if rules == [] {
    } else {
      PlainTail(rules);
      ApplyFirst(rules, n, x);
      RangeTail(rules, n);
      var x' := Collect(rules[0], n, x);
      if !InRange(rules[0], n) {
      } else if n.suffix == "" && BitesFirst(rules) {
        BiteStops(rules, n, x');
        assert HasBitten(rules) by { assert rules[1].Literal?; }
      } else {
        ReadBack(rules[1..], n, x');
        if !BitesFirst(rules) {
          BittenTail(rules);
        }
        assert RulesText(rules[1..], n)[0..] == RulesText(rules[1..], n);
      }
    }
  }

  lemma RangeTail(rules: seq<FormatRule>, n: Digits)
    requires rules != []
    ensures AllInRange(rules, n) <==> InRange(rules[0], n) && AllInRange(rules[1..], n)
  {
    hide InRange;
    if AllInRange(rules[1..], n) && InRange(rules[0], n) {
      forall i | 0 <= i < |rules| ensures InRange(rules[i], n) {
        assert i > 0 ==> rules[i] == rules[1..][i - 1];
      }
    }
  }

  lemma BittenTail(rules: seq<FormatRule>)
    requires rules != [] && !BitesFirst(rules)
    ensures HasBitten(rules) <==> HasBitten(rules[1..])
  {
    var q := rules[1..];
    if HasBitten(rules) {
      var i :| 0 < i < |rules| && rules[i - 1] == Field('d', 2) && rules[i].Literal? && Bitten(rules[i].text);
      assert q[i - 1] == rules[i] && q[i - 2] == rules[i - 1];
    }
    if HasBitten(q) {
      var i :| 0 < i < |q| && q[i - 1] == Field('d', 2) && q[i].Literal? && Bitten(q[i].text);
      assert q[i] == rules[i + 1] && q[i - 1] == rules[i];
    }
  }

  lemma BiteStops(rules: seq<FormatRule>, n: Digits, x: Fields)
    requires PlainRules(rules) && BitesFirst(rules) && Writable(n)
    ensures var b := SpaceLength(rules[1].text) + 2;
            b <= |RulesText(rules[1..], n)| && ApplyAll(rules[1..], RulesText(rules[1..], n)[b..], x) == None
  {
    hide SpaceLength;
    var p := rules[1].text;
    PlainTail(rules);
    PlainTail(rules[1..]);
    var tail := RulesText(rules[2..], n);
    assert rules[1..][1..] == rules[2..];
    assert 2 < |rules| ==> rules[1..][1].Field?;
    RulesTextStart(rules[2..], n);
    BittenFails(p, tail, SpaceLength(p) + 2);
    assert RulesText(rules[1..], n) == p + tail;
  }

  lemma RulesArePlain(f: string)
    requires PlainFormat(f)
    ensures PlainRules(Rules(f))
  {
    forall i | 0 < i < |Rules(f)| && Rules(f)[i].Literal? ensures Rules(f)[i - 1].Field? {
      RulesSeparated(f, i);
    }
  }

  // The date that numbers mean. Year 0 stands for the running year and the others below 100 for those of the
  // twentieth century, day 0 for the first; month 0 is the December before. No other day is carried over: there is
  // a date or none.
  function Meant(n: Digits, now: int): Option<int> {
    var y := if n.year == 0 then YearOf(now) else if n.year < 100 then 1900 + n.year else n.year;
    var d := if n.day == 0 then 1 else n.day;
    if n.month == 0 then Some(DayNumber(y - 1, 11, d))
    else if IsDate(y, n.month - 1, d) then Some(DayNumber(y, n.month - 1, d))
    else None
  }

  lemma FinishedIsMeant(n: Digits, now: int)
    requires n.day <= 31 && n.month <= 12 && n.year < 10000 && 100 <= YearOf(now)
    ensures FinishExact(Fields(Some(n.day), Some(n.month - 1), Some(n.year)), now) == Meant(n, now)
  {
    hide YearOf, MonthOf, YearStart, MonthStart;
  }

  // Reading the text of any numbers by any plain format: it gives the date they mean, if there is one. It gives
  // nothing for a day above 31 or a month above 12, nor when a dd without a suffix stands before a separator that
  // looks like one.
  lemma DigitsRead(f: string, n: Digits, now: int)
    requires PlainFormat(f) && Writable(n) && 100 <= YearOf(now)
    ensures ParseExact(RulesText(Rules(f), n), f, now) ==
      if (n.suffix == "" && HasBitten(Rules(f))) || n.day > 31 || n.month > 12 then None else Meant(n, now)
  {
    hide Rules, RulesText, Meant, FinishExact, YearOf, Writable;
    RulesArePlain(f);
    ReadBack(Rules(f), n, Fields(None, None, None));
    CollectedFields(Rules(f), n, Fields(None, None, None));
    RangeOfFormat(Rules(f), n);
    if n.day <= 31 && n.month <= 12 {
      YearInDigits(n);
      FinishedIsMeant(n, now);
    }
  }

  lemma YearInDigits(n: Digits)
    requires Writable(n)
    ensures n.year < 10000
  {
  }

  lemma RangeOfFormat(rules: seq<FormatRule>, n: Digits)
    requires Field('d', 2) in rules && Field('M', 2) in rules
    ensures AllInRange(rules, n) <==> n.day <= 31 && n.month <= 12
  {
    var i :| 0 <= i < |rules| && rules[i] == Field('d', 2);
    var j :| 0 <= j < |rules| && rules[j] == Field('M', 2);
    assert AllInRange(rules, n) ==> InRange(rules[i], n) && InRange(rules[j], n);
  }

  // In the years 100 to 9999 that is: a date if and only if the calendar has it.
  lemma ReadsExactlyDates(f: string, y: nat, m: nat, d: nat, now: int)
    requires PlainFormat(f) && !HasBitten(Rules(f)) && 100 <= YearOf(now)
    requires 100 <= y <= 9999 && 1 <= m <= 12 && 1 <= d <= 31
    ensures ParseExact(RulesText(Rules(f), Digits(d, m, y, "")), f, now) ==
      if IsDate(y, m - 1, d) then Some(DayNumber(y, m - 1, d)) else None
  {
    hide Rules, RulesText, HasBitten, YearOf, DayNumber, IsDate;
    DigitsRead(f, Digits(d, m, y, ""), now);
  }

  // Reading a printed date back gives the same date, for every plain format and every year from 100 to 9999,
  // exactly when no dd is followed by a separator that looks like an ordinal suffix; otherwise it gives nothing.
  lemma RoundTrip(f: string, t: int, now: int)
    requires PlainFormat(f) && 100 <= YearOf(t) <= 9999
    ensures ParseExact(Print(f, t), f, now) == if HasBitten(Rules(f)) then None else Some(t)
  {
    hide Rules, Print, YearOf, MonthOf, DayOf, DayNumber, IsDate;
    RulesArePlain(f);
    PrintIsRulesText(f, t);
    DateChecks(t);
    ReadBack(Rules(f), DigitsOf(t), Fields(None, None, None));
    CollectedFields(Rules(f), DigitsOf(t), Fields(None, None, None));
    RangeOfFormat(Rules(f), DigitsOf(t));
  }

  // More text behind the last field, that no suffix search bites, is never passed over.
  lemma TrailingFails(f: string, n: Digits, tail: string, now: int)
    requires PlainFormat(f) && Writable(n) && Rules(f)[|Rules(f)| - 1].Field? && PlainRule(Literal(tail))
    requires n.day <= 31 && n.month <= 12 && (n.suffix != "" || !HasBitten(Rules(f) + [Literal(tail)]))
    ensures ParseExact(RulesText(Rules(f), n) + tail, f, now) == None
  {
    hide Rules, RulesText, FinishExact, Writable, HasBitten, Apply, PlainRule;
    var rules, more, x := Rules(f), Rules(f) + [Literal(tail)], Fields(None, None, None);
    RulesArePlain(f);
    PlainMore(rules, tail);
    RangeOfFormat(more, n);
    ReadBack(more, n, x);
    TextOfBoth(rules, [Literal(tail)], n);
    OneText(tail, n);
    AppliedBoth(rules, tail, RulesText(rules, n) + tail, x);
  }

  lemma PlainMore(rules: seq<FormatRule>, tail: string)
    requires PlainRules(rules) && rules != [] && rules[|rules| - 1].Field? && PlainRule(Literal(tail))
    requires Field('d', 2) in rules && Field('M', 2) in rules
    ensures PlainRules(rules + [Literal(tail)]) && tail != ""
    ensures Field('d', 2) in rules + [Literal(tail)] && Field('M', 2) in rules + [Literal(tail)]
  {
  }

  lemma OneText(p: string, n: Digits)
    ensures RulesText([Literal(p)], n) == p
  {
    assert [Literal(p)][1..] == [];
  }

  lemma {:induction false} TextOfBoth(rules: seq<FormatRule>, more: seq<FormatRule>, n: Digits)
    ensures RulesText(rules + more, n) == RulesText(rules, n) + RulesText(more, n)
  {
    hide RuleText;
    if rules == [] {
      assert rules + more == more;
    } else {
      assert (rules + more)[1..] == rules[1..] + more;
      TextOfBoth(rules[1..], more, n);
    }
  }

  // A rule more is applied to what the others leave.
  lemma {:induction false} AppliedBoth(rules: seq<FormatRule>, p: string, s: string, x: Fields)
    requires p != ""
    ensures var r := ApplyAll(rules, s, x);
      ApplyAll(rules + [Literal(p)], s, x) ==
        match r case None => None case Some((x', s')) => Apply(Literal(p), s', x')
    ensures ApplyAll(rules, s, x).Some? && ApplyAll(rules, s, x).value.1 == "" ==>
      ApplyAll(rules + [Literal(p)], s, x) == None
    decreases |rules|
  {
    if rules == [] {
      assert rules + [Literal(p)] == [Literal(p)] && [Literal(p)][1..] == [];
    } else {
      assert (rules + [Literal(p)])[1..] == rules[1..] + [Literal(p)];
      if Apply(rules[0], s, x).Some? {
        AppliedBoth(rules[1..], p, Apply(rules[0], s, x).value.1, Apply(rules[0], s, x).value.0);
      }
    }
  }

  lemma DateChecks(t: int)
    ensures 1 <= DayOf(t) <= DaysInMonth(YearOf(t), MonthOf(t)) <= 31
    ensures DayNumber(YearOf(t), MonthOf(t), DayOf(t)) == t
  {
  }

  // ---- formats at work ----

  lemma {:induction false} RunOfLetters(c: char, n: nat, rest: string, limit: nat)
    requires 1 <= n <= limit && (n == limit || rest == "" || rest[0] != c)
    ensures RunLength(seq(n, _ => c) + rest, limit) == n
  {
    var f := seq(n, _ => c) + rest;
    if n == 1 {
    } else {
      assert f[1..] == seq(n - 1, _ => c) + rest;
      RunOfLetters(c, n - 1, rest, limit - 1);
    }
  }

  // A field at the front of a format.
  lemma FieldThen(c: char, n: nat, rest: string)
    requires 1 <= n <= ParserRun(c) && (n == ParserRun(c) || rest == "" || rest[0] != c)
    ensures Rules(seq(n, _ => c) + rest) == [Field(c, n)] + Rules(rest)
  {
    var f := seq(n, _ => c) + rest;
    RunOfLetters(c, n, rest, ParserRun(c));
    assert f[0] == c && f[n..] == rest;
  }

  lemma {:induction false} LettersOfLiteral(p: string, rest: string)
    requires forall i :: 0 <= i < |p| ==> ParserRun(p[i]) == 0
    requires rest == "" || ParserRun(rest[0]) > 0
    ensures LiteralLength(p + rest) == |p|
  {
    if p == "" {
      assert p + rest == rest;
    } else {
      assert (p + rest)[1..] == p[1..] + rest;
      LettersOfLiteral(p[1..], rest);
    }
  }

  // A separator at the front of a format.
  lemma LiteralThen(p: string, rest: string)
    requires p != "" && forall i :: 0 <= i < |p| ==> ParserRun(p[i]) == 0
    requires rest == "" || ParserRun(rest[0]) > 0
    ensures Rules(p + rest) == [Literal(p)] + Rules(rest)
  {
    LettersOfLiteral(p, rest);
    assert (p + rest)[0] == p[0] && (p + rest)[..|p|] == p && (p + rest)[|p|..] == rest;
  }

  // "MM/dd nDyyyy" is plain, but its second separator is bitten, so that no date reads back.
  lemma BittenSeparator(t: int, now: int)
    requires 100 <= YearOf(t) <= 9999
    ensures PlainFormat("MM/dd nDyyyy") && ParseExact(Print("MM/dd nDyyyy", t), "MM/dd nDyyyy", now) == None
  {
    hide *;
    BittenRules();
    BittenIsPlain(Rules("MM/dd nDyyyy"));
    AllFields("MM/dd nDyyyy");
    RoundTrip("MM/dd nDyyyy", t, now);
  }

  lemma BittenRules()
    ensures Rules("MM/dd nDyyyy") == [Field('M', 2), Literal("/"), Field('d', 2), Literal(" nD"), Field('y', 4)]
  {
    hide Rules;
    var f3 := " nD" + "yyyy";
    var f1 := "/" + ("dd" + f3);
    assert "MM/dd nDyyyy" == "MM" + f1;
    Doubled('M', f1);
    LiteralThen("/", "dd" + f3);
    Doubled('d', f3);
    LiteralThen(" nD", "yyyy");
    LastYear();
  }

  lemma BittenIsPlain(rules: seq<FormatRule>)
    requires rules == [Field('M', 2), Literal("/"), Field('d', 2), Literal(" nD"), Field('y', 4)]
    ensures forall i :: 0 <= i < |rules| ==> PlainRule(rules[i])
    ensures Field('d', 2) in rules && Field('M', 2) in rules && Field('y', 4) in rules
    ensures HasBitten(rules)
  {
    hide SpaceLength;
    AfterSpace();
    assert rules[0] == Field('M', 2) && rules[2] == Field('d', 2) && rules[4] == Field('y', 4);
    assert rules[3].text == " nD" && Bitten(rules[3].text);
  }

  lemma AllFields(f: string)
    requires forall i :: 0 <= i < |Rules(f)| ==> PlainRule(Rules(f)[i])
    requires Field('d', 2) in Rules(f) && Field('M', 2) in Rules(f) && Field('y', 4) in Rules(f)
    ensures PlainFormat(f)
  {
  }

  lemma Doubled(c: char, rest: string)
    requires ParserRun(c) >= 2 && rest != "" && rest[0] != c
    ensures Rules([c, c] + rest) == [Field(c, 2)] + Rules(rest)
  {
    assert seq(2, _ => c) == [c, c];
    FieldThen(c, 2, rest);
  }

  lemma LastYear()
    ensures Rules("yyyy") == [Field('y', 4)]
  {
    assert seq(4, _ => 'y') + "" == "yyyy";
    FieldThen('y', 4, "");
  }

  lemma AfterSpace()
    ensures SpaceLength(" nD") == 1
  {
    assert " nD"[1..] == "nD";
  }

  // ---- texts that are too short ----

  function Width(r: FormatRule): nat {
    match r
    case Field(_, n) => n
    case Literal(p) => |p|
  }

  function TotalWidth(rules: seq<FormatRule>): nat {
    if rules == [] then 0 else Width(rules[0]) + TotalWidth(rules[1..])
  }

  lemma {:induction false} PrintedWidth(rules: seq<FormatRule>, n: Digits)
    requires PlainRules(rules) && n.suffix == ""
    ensures |RulesText(rules, n)| == TotalWidth(rules)
  {
    hide Padded;
    if rules == [] {
    } else {
      assert PlainRule(rules[0]);
      PlainTail(rules);
      PrintedWidth(rules[1..], n);
    }
  }

  lemma {:induction false} ReadWidth(rules: seq<FormatRule>, s: string, x: Fields)
    requires PlainRules(rules) && ApplyAll(rules, s, x).Some?
    ensures |ApplyAll(rules, s, x).value.1| + TotalWidth(rules) <= |s|
    decreases |rules|
  {
    if rules == [] {
    } else {
      assert PlainRule(rules[0]);
      PlainTail(rules);
      var (x', s') := Apply(rules[0], s, x).value;
      ReadWidth(rules[1..], s', x');
    }
  }

  // All dates print to the same length, and nothing shorter is read as a date.
  lemma ShorterFails(f: string, s: string, n: Digits, now: int)
    requires PlainFormat(f) && n.suffix == "" && |s| < |RulesText(Rules(f), n)|
    ensures ParseExact(s, f, now) == None
  {
    hide Rules, RulesText;
    RulesArePlain(f);
    PrintedWidth(Rules(f), n);
    if ApplyAll(Rules(f), s, Fields(None, None, None)).Some? {
      ReadWidth(Rules(f), s, Fields(None, None, None));
    }
  }
}
