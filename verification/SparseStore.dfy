/**
 The two-level sparse store of ga.js: projects hold a list of keys and a list of values, each indexed by slot,
 and the whole is printed as one text with escapes and gap markers.
 */
module SparseStore {
  import opened Wrappers
  import opened Numbers

  // A script array: a hole is an index that was never written or was cleared.
  type List = seq<Option<string>>

  datatype Kind = Keys | Values

  datatype Project = Project(keys: Option<List>, values: Option<List>) {
    function Of(kind: Kind): Option<List> {
      if kind == Keys then keys else values
    }

    function With(kind: Kind, list: Option<List>): Project {
      if kind == Keys then this.(keys := list) else this.(values := list)
    }
  }

  type Store = seq<Option<Project>>

  // Writing an index extends the array with holes up to it.
  function Put<T>(s: seq<Option<T>>, i: nat, x: Option<T>): (r: seq<Option<T>>)
    ensures i < |r| && |s| <= |r| && r[i] == x
    ensures forall j :: 0 <= j < |r| && j != i ==> r[j] == if j < |s| then s[j] else None
  {
    if i < |s| then s[i := x] else s + seq(i - |s|, _ => None) + [x]
  }

  function At<T>(s: seq<Option<T>>, i: nat): Option<T> {
    if i < |s| then s[i] else None
  }

  function Get(f: Store, a: nat, kind: Kind, c: nat): Option<string> {
    match At(f, a)
    case None => None
    case Some(p) => match p.Of(kind) case None => None case Some(list) => At(list, c)
  }

  function SetSlot(f: Store, a: nat, kind: Kind, c: nat, d: string): Store {
    var p := match At(f, a) case None => Project(None, None) case Some(p) => p;
    var list := match p.Of(kind) case None => [] case Some(list) => list;
    Put(f, a, Some(p.With(kind, Some(Put(list, c, Some(d))))))
  }

  // Clearing the last of the two lists clears the project.
  function ClearList(f: Store, a: nat, kind: Kind): Store {
    match At(f, a)
    case None => f
    case Some(p) =>
      if p.Of(kind).None? then f
      else
        var q := p.With(kind, None);
        f[a := if q.keys.None? && q.values.None? then None else Some(q)]
  }

  // No project survives without lists, and every list ends with an entry.
  ghost predicate Valid(f: Store) {
    forall a :: 0 <= a < |f| && f[a].Some? ==> ValidProject(f[a].value)
  }

  ghost predicate ValidProject(p: Project) {
    && (p.keys.Some? || p.values.Some?)
    && (p.keys.Some? ==> ValidList(p.keys.value))
    && (p.values.Some? ==> ValidList(p.values.value))
  }

  ghost predicate ValidList(list: List) {
    list != [] && list[|list| - 1].Some?
  }

  datatype Op = Set(a: nat, kind: Kind, c: nat, d: string) | Clear(a: nat, kind: Kind)

  function Do(f: Store, op: Op): Store {
    match op
    case Set(a, kind, c, d) => SetSlot(f, a, kind, c, d)
    case Clear(a, kind) => ClearList(f, a, kind)
  }

  function DoAll(f: Store, ops: seq<Op>): Store {
    if ops == [] then f else Do(DoAll(f, ops[..|ops| - 1]), ops[|ops| - 1])
  }

  // What one operation does to every entry.
  lemma DoEffect(f: Store, op: Op, a: nat, kind: Kind, c: nat)
    requires Valid(f)
    ensures Valid(Do(f, op))
    ensures Get(Do(f, op), a, kind, c) ==
      match op
      case Set(a', kind', c', d) => if (a, kind, c) == (a', kind', c') then Some(d) else Get(f, a, kind, c)
      case Clear(a', kind') => if (a, kind) == (a', kind') then None else Get(f, a, kind, c)
  {
  }

  // ---- the text ----

  function EscapeChar(c: char): string {
    match c
    case '\'' => "'0"
    case ')' => "'1"
    case '*' => "'2"
    case '!' => "'3"
    case _ => [c]
  }

  function Escape(s: string): string {
    if s == "" then "" else EscapeChar(s[0]) + Escape(s[1..])
  }

  // An entry is marked with its index unless it directly follows another entry or sits at index 1.
  function Marked(list: List, i: nat): bool
    requires i < |list|
  {
    i != 1 && (i == 0 || list[i - 1].None?)
  }

  // The index a reader expects before position i: one behind the last entry so far, and 1 at the start.
  function Following(list: List, i: nat): nat
    requires i <= |list|
  {
    if i == 0 then 1 else if list[i - 1].Some? then i else Following(list, i - 1)
  }

  lemma {:induction false} FollowingBound(list: List, i: nat)
    requires i <= |list|
    ensures Following(list, i) == 1 || Following(list, i) <= i
  {
    if i == 0 {
    } else {
      FollowingBound(list, i - 1);
    }
  }

  // No marker is superfluous, and none is missing.
  lemma MarkedWhenNeeded(list: List, i: nat)
    requires i < |list|
    ensures Marked(list, i) <==> Following(list, i) != i
  {
    if i >= 1 {
      FollowingBound(list, i - 1);
    }
  }

  function ItemText(list: List, i: nat): string
    requires i < |list| && list[i].Some?
  {
    (if Marked(list, i) then Decimal(i) + "!" else "") + Escape(list[i].value)
  }

  function ItemTexts(list: List, i: nat): seq<string>
    requires i <= |list|
    decreases |list| - i
  {
    if i == |list| then []
    else (if list[i].Some? then [ItemText(list, i)] else []) + ItemTexts(list, i + 1)
  }

  function Join(c: seq<string>): string {
    if c == [] then "" else if |c| == 1 then c[0] else c[0] + "*" + Join(c[1..])
  }

  function ListText(list: List): string {
    "(" + Join(ItemTexts(list, 0)) + ")"
  }

  // The first list is named only when it is not the list of keys.
  function ProjectText(p: Project): string {
    (if p.keys.Some? then ListText(p.keys.value) else "")
    + (if p.values.Some? then (if p.keys.None? then "v" else "") + ListText(p.values.value) else "")
  }

  function StoreText(f: Store, a: nat): string
    requires a <= |f|
    decreases |f| - a
  {
    if a == |f| then ""
    else (if f[a].Some? then Decimal(a) + ProjectText(f[a].value) else "") + StoreText(f, a + 1)
  }

  // ---- the entries, in the order of the text ----

  datatype Entry = Entry(project: nat, kind: Kind, index: nat, text: string)

  function ListEntries(a: nat, kind: Kind, list: List, i: nat): seq<Entry>
    requires i <= |list|
    decreases |list| - i
  {
    if i == |list| then []
    else (if list[i].Some? then [Entry(a, kind, i, list[i].value)] else []) + ListEntries(a, kind, list, i + 1)
  }

  function ProjectEntries(a: nat, p: Project): seq<Entry> {
    (if p.keys.Some? then ListEntries(a, Keys, p.keys.value, 0) else [])
    + (if p.values.Some? then ListEntries(a, Values, p.values.value, 0) else [])
  }

  function Entries(f: Store, a: nat): seq<Entry>
    requires a <= |f|
    decreases |f| - a
  {
    if a == |f| then []
    else (if f[a].Some? then ProjectEntries(a, f[a].value) else []) + Entries(f, a + 1)
  }

  lemma {:induction false} ListEntriesAre(a: nat, kind: Kind, list: List, i: nat, e: Entry)
    requires i <= |list|
    ensures e in ListEntries(a, kind, list, i) <==>
      e.project == a && e.kind == kind && i <= e.index < |list| && list[e.index] == Some(e.text)
    decreases |list| - i
  {
    if i == |list| {
    } else {
      ListEntriesAre(a, kind, list, i + 1, e);
      if list[i].Some? {
        InCons(e, Entry(a, kind, i, list[i].value), ListEntries(a, kind, list, i + 1));
      }
    }
  }

  lemma InCons<T>(e: T, h: T, rest: seq<T>)
    ensures e in [h] + rest <==> e == h || e in rest
  {
  }

  lemma InBoth<T>(e: T, s: seq<T>, t: seq<T>)
    ensures e in s + t <==> e in s || e in t
  {
  }

  lemma ProjectEntriesAre(a: nat, p: Project, e: Entry)
    ensures e in ProjectEntries(a, p) <==>
      e.project == a && p.Of(e.kind).Some? && At(p.Of(e.kind).value, e.index) == Some(e.text)
  {
    hide ListEntries;
    if p.keys.Some? { ListEntriesAre(a, Keys, p.keys.value, 0, e); }
    if p.values.Some? { ListEntriesAre(a, Values, p.values.value, 0, e); }
    InBoth(e, if p.keys.Some? then ListEntries(a, Keys, p.keys.value, 0) else [],
              if p.values.Some? then ListEntries(a, Values, p.values.value, 0) else []);
  }

  lemma GetAt(f: Store, a: nat, kind: Kind, c: nat)
    ensures Get(f, a, kind, c) ==
      if a < |f| && f[a].Some? && f[a].value.Of(kind).Some? then At(f[a].value.Of(kind).value, c) else None
  {
  }

  // The entries are exactly what can be looked up.
  lemma {:induction false} EntriesAreGets(f: Store, a: nat, e: Entry)
    requires a <= |f|
    ensures e in Entries(f, a) <==> a <= e.project && Get(f, e.project, e.kind, e.index) == Some(e.text)
    decreases |f| - a
  {
    hide ProjectEntries, Get, Entries;
    EntriesStep(f, a, e);
    GetAt(f, e.project, e.kind, e.index);
    if a == |f| {
    } else {
      EntriesAreGets(f, a + 1, e);
      if f[a].Some? {
        ProjectEntriesAre(a, f[a].value, e);
      }
    }
  }

  lemma EntriesStep(f: Store, a: nat, e: Entry)
    requires a <= |f|
    ensures e in Entries(f, a) <==>
      a < |f| && ((f[a].Some? && e in ProjectEntries(a, f[a].value)) || e in Entries(f, a + 1))
  {
    hide ProjectEntries;
    if a < |f| {
      InBoth(e, if f[a].Some? then ProjectEntries(a, f[a].value) else [], Entries(f, a + 1));
    }
  }

  // ---- a decoder, character by character ----

  datatype Decoder =
    | Between(project: nat, entries: seq<Entry>)
    | Number(project: nat, entries: seq<Entry>)
    | Named(project: nat, entries: seq<Entry>)
    | Item(project: nat, kind: Kind, index: nat, text: string, escaped: bool, entries: seq<Entry>)
    | Failed

  function NumberOf(s: string): nat {
    if s == "" || !IsDigit(s[|s| - 1]) then 0 else 10 * NumberOf(s[..|s| - 1]) + DigitValue(s[|s| - 1])
  }

  function Decode1(st: Decoder, c: char): Decoder {
    match st
    case Between(p, es) =>
      if IsDigit(c) then Number(DigitValue(c), es)
      else if c == '(' then Item(p, Values, 1, "", false, es)
      else Failed
    case Number(p, es) =>
      if IsDigit(c) then Number(10 * p + DigitValue(c), es)
      else if c == '(' then Item(p, Keys, 1, "", false, es)
      else if c == 'v' then Named(p, es)
      else Failed
    case Named(p, es) => if c == '(' then Item(p, Values, 1, "", false, es) else Failed
    case Item(p, kind, i, text, escaped, es) =>
      if escaped then
        var plain := match c case '0' => "'" case '1' => ")" case '2' => "*" case '3' => "!" case _ => [];
        Item(p, kind, i, text + plain, false, es)
      else if c == '\'' then Item(p, kind, i, text, true, es)
      else if c == '!' then Item(p, kind, NumberOf(text), "", false, es)
      else if c == '*' then Item(p, kind, i + 1, "", false, es + [Entry(p, kind, i, text)])
      else if c == ')' then Between(p, es + [Entry(p, kind, i, text)])
      else Item(p, kind, i, text + [c], false, es)
    case Failed => Failed
  }

  function DecodeFrom(st: Decoder, s: string): Decoder
    decreases |s|
  {
    if s == "" then st else DecodeFrom(Decode1(st, s[0]), s[1..])
  }

  function Decode(s: string): Option<seq<Entry>> {
    match DecodeFrom(Between(0, []), s)
    case Between(_, es) => Some(es)
    case _ => None
  }

  lemma {:induction false} DecodeConcat(st: Decoder, s: string, t: string)
    ensures DecodeFrom(st, s + t) == DecodeFrom(DecodeFrom(st, s), t)
    decreases |s|
  {
    if s == "" {
      assert s + t == t;
    } else {
      assert (s + t)[1..] == s[1..] + t;
      DecodeConcat(Decode1(st, s[0]), s[1..], t);
    }
  }

  lemma {:induction false} DecodeDecimal(st: Decoder, n: nat)
    requires st.Between?
    ensures DecodeFrom(st, Decimal(n)) == Number(n, st.entries)
  {
    if n < 10 {
    } else {
      DecodeDecimal(st, n / 10);
      DecodeConcat(st, Decimal(n / 10), [Digit(n % 10)]);
    }
  }

  lemma {:induction false} NumberOfDecimal(n: nat)
    ensures NumberOf(Decimal(n)) == n
    ensures forall i :: 0 <= i < |Decimal(n)| ==> IsDigit(Decimal(n)[i])
  {
    if n < 10 {
    } else {
      NumberOfDecimal(n / 10);
      assert Decimal(n)[..|Decimal(n)| - 1] == Decimal(n / 10);
    }
  }

  // Inside an item, escaped text comes back as it was, whatever characters it has.
  lemma {:induction false} DecodeEscaped(st: Decoder, s: string)
    requires st.Item? && !st.escaped
    ensures DecodeFrom(st, Escape(s)) == st.(text := st.text + s)
    decreases |s|
  {
    hide EscapeChar, Decode1, DecodeFrom;
    if s == "" {
      assert st.text + s == st.text;
      DecodeNothing(st);
    } else {
      var st1 := st.(text := st.text + [s[0]]);
      DecodeEscapedChar(st, s[0]);
      DecodeEscaped(st1, s[1..]);
      DecodeConcat(st, EscapeChar(s[0]), Escape(s[1..]));
      assert st1.text + s[1..] == st.text + s;
    }
  }

  lemma DecodeNothing(st: Decoder)
    ensures DecodeFrom(st, "") == st
  {
  }

  lemma DecodeEscapedChar(st: Decoder, c: char)
    requires st.Item? && !st.escaped
    ensures DecodeFrom(st, EscapeChar(c)) == st.(text := st.text + [c])
  {
    DecodeOne(st, c);
    var e := EscapeChar(c);
    if |e| == 2 {
      assert e == [e[0]] + [e[1]];
      DecodeConcat(st, [e[0]], [e[1]]);
      DecodeOne(st, e[0]);
      DecodeOne(st.(escaped := true), e[1]);
    }
  }

  lemma DecodeOne(st: Decoder, c: char)
    ensures DecodeFrom(st, [c]) == Decode1(st, c)
  {
  }

  lemma {:induction false} DecodePlain(st: Decoder, s: string)
    requires st.Item? && !st.escaped
    requires forall i :: 0 <= i < |s| ==> IsDigit(s[i])
    ensures DecodeFrom(st, s) == st.(text := st.text + s)
    decreases |s|
  {
    if s == "" {
      assert st.text + s == st.text;
    } else {
      DecodePlain(st.(text := st.text + [s[0]]), s[1..]);
      assert (st.text + [s[0]]) + s[1..] == st.text + s;
    }
  }

  // A marked entry sets the index, an unmarked one has the index the decoder expects.
  lemma DecodeItem(st: Decoder, list: List, i: nat)
    requires st.Item? && !st.escaped && st.text == "" && i < |list| && list[i].Some?
    requires Marked(list, i) || st.index == i
    ensures DecodeFrom(st, ItemText(list, i)) == st.(index := i, text := list[i].value)
  {
    hide Decode1, DecodeFrom, Decimal, Escape, NumberOf;
    var value := list[i].value;
    assert "" + value == value;
    if Marked(list, i) {
      NumberOfDecimal(i);
      DecodePlain(st, Decimal(i));
      assert "" + Decimal(i) == Decimal(i);
      DecodeConcat(st, Decimal(i), "!");
      DecodeMark(st.(text := Decimal(i)));
      DecodeEscaped(st.(index := i), value);
      DecodeConcat(st, Decimal(i) + "!", Escape(value));
    } else {
      DecodeEscaped(st, value);
      assert "" + Escape(value) == Escape(value);
    }
  }

  lemma DecodeMark(st: Decoder)
    requires st.Item? && !st.escaped
    ensures DecodeFrom(st, "!") == st.(index := NumberOf(st.text), text := "")
  {
  }

  // The index the decoder expects before looking at position i of a list.
  predicate Expects(list: List, i: nat, x: nat)
    requires i <= |list|
  {
    && (i == 0 ==> x == 1)
    && (i == 1 && list[0].None? ==> x == 1)
    && (0 < i && list[i - 1].Some? ==> x == i)
  }

  lemma {:induction false} DecodeItems(st: Decoder, list: List, i: nat)
    requires st.Item? && !st.escaped && st.text == "" && i < |list| && list[|list| - 1].Some?
    requires Expects(list, i, st.index)
    ensures DecodeFrom(st, Join(ItemTexts(list, i)) + ")") ==
      Between(st.project, st.entries + ListEntries(st.project, st.kind, list, i))
    decreases |list| - i
  {
    hide Decode1, DecodeFrom, ItemText, Marked, Join, Expects, ListEntries, ItemTexts;
    ExpectsOn(list, i, st.index);
    FirstOf(list, i, st.project, st.kind);
    if list[i].None? {
      DecodeItems(st, list, i + 1);
    } else {
      var text := ItemText(list, i);
      var st1 := st.(index := i, text := list[i].value);
      var e := Entry(st.project, st.kind, i, list[i].value);
      DecodeItem(st, list, i);
      if i == |list| - 1 {
        DecodeConcat(st, text, ")");
        DecodeClose(st1);
        assert text + "" == text && [e] + [] == [e];
      } else {
        var st2 := st.(index := i + 1, text := "", entries := st.entries + [e]);
        DecodeItems(st2, list, i + 1);
        var rest := Join(ItemTexts(list, i + 1)) + ")";
        assert (text + ("*" + Join(ItemTexts(list, i + 1)))) + ")" == text + ("*" + rest);
        DecodeConcat(st, text, "*" + rest);
        DecodeConcat(st1, "*", rest);
        DecodeNext(st1);
        assert (st.entries + [e]) + ListEntries(st.project, st.kind, list, i + 1)
            == st.entries + ([e] + ListEntries(st.project, st.kind, list, i + 1));
      }
    }
  }

  // How the text and the entries of a list tail start.
  lemma FirstOf(list: List, i: nat, a: nat, kind: Kind)
    requires i < |list| && list[|list| - 1].Some?
    ensures list[i].None? ==>
      && i < |list| - 1
      && ItemTexts(list, i) == ItemTexts(list, i + 1)
      && ListEntries(a, kind, list, i) == ListEntries(a, kind, list, i + 1)
    ensures list[i].Some? ==>
      && Join(ItemTexts(list, i)) ==
           ItemText(list, i) + (if i == |list| - 1 then "" else "*" + Join(ItemTexts(list, i + 1)))
      && ListEntries(a, kind, list, i) == [Entry(a, kind, i, list[i].value)] + ListEntries(a, kind, list, i + 1)
      && (i == |list| - 1 ==> ListEntries(a, kind, list, i + 1) == [])
  {
    hide ItemText;
    if i == |list| - 1 {
    } else {
      TextsRemain(list, i + 1);
      if list[i].Some? {
        assert ItemTexts(list, i)[1..] == ItemTexts(list, i + 1);
      }
    }
  }

  lemma ExpectsOn(list: List, i: nat, x: nat)
    requires i < |list| && Expects(list, i, x)
    ensures list[i].None? ==> Expects(list, i + 1, x)
    ensures list[i].Some? ==> Expects(list, i + 1, i + 1) && (Marked(list, i) || x == i)
  {
  }

  lemma DecodeClose(st: Decoder)
    requires st.Item? && !st.escaped
    ensures DecodeFrom(st, ")") == Between(st.project, st.entries + [Entry(st.project, st.kind, st.index, st.text)])
  {
  }

  lemma DecodeNext(st: Decoder)
    requires st.Item? && !st.escaped
    ensures DecodeFrom(st, "*") ==
      st.(index := st.index + 1, text := "", entries := st.entries + [Entry(st.project, st.kind, st.index, st.text)])
  {
  }

  lemma {:induction false} TextsRemain(list: List, i: nat)
    requires i < |list| && list[|list| - 1].Some?
    ensures ItemTexts(list, i) != []
    decreases |list| - i
  {
    if i == |list| - 1 {
    } else {
      TextsRemain(list, i + 1);
    }
  }

  lemma DecodeList(st: Decoder, list: List)
    requires ValidList(list) && (st.Between? || st.Number? || st.Named?)
    ensures DecodeFrom(st, ListText(list)) ==
      Between(st.project, st.entries + ListEntries(st.project, if st.Number? then Keys else Values, list, 0))
  {
    var kind := if st.Number? then Keys else Values;
    assert DecodeFrom(st, "(") == Item(st.project, kind, 1, "", false, st.entries);
    DecodeConcat(st, "(", Join(ItemTexts(list, 0)) + ")");
    assert "(" + (Join(ItemTexts(list, 0)) + ")") == ListText(list);
    DecodeItems(Item(st.project, kind, 1, "", false, st.entries), list, 0);
  }

  lemma DecodeProject(st: Decoder, p: Project)
    requires ValidProject(p) && st.Number?
    ensures DecodeFrom(st, ProjectText(p)) == Between(st.project, st.entries + ProjectEntries(st.project, p))
  {
    hide Decode1, ListText, ListEntries, ValidList;
    if p.keys.Some? {
      DecodeList(st, p.keys.value);
      var ks := ListEntries(st.project, Keys, p.keys.value, 0);
      var st1 := Between(st.project, st.entries + ks);
      if p.values.Some? {
        DecodeList(st1, p.values.value);
        DecodeConcat(st, ListText(p.keys.value), ListText(p.values.value));
        assert ProjectText(p) == ListText(p.keys.value) + ListText(p.values.value);
        assert (st.entries + ks) + ListEntries(st.project, Values, p.values.value, 0)
            == st.entries + ProjectEntries(st.project, p);
      } else {
        assert ProjectText(p) == ListText(p.keys.value);
        assert ProjectEntries(st.project, p) == ks;
      }
    } else {
      DecodeName(st);
      DecodeList(Named(st.project, st.entries), p.values.value);
      DecodeConcat(st, "v", ListText(p.values.value));
      assert ProjectText(p) == "v" + ListText(p.values.value);
      assert ProjectEntries(st.project, p) == ListEntries(st.project, Values, p.values.value, 0);
    }
  }

  lemma DecodeName(st: Decoder)
    requires st.Number?
    ensures DecodeFrom(st, "v") == Named(st.project, st.entries)
  {
  }

  lemma {:induction false} DecodeStore(st: Decoder, f: Store, a: nat)
    requires Valid(f) && a <= |f| && st.Between?
    ensures var r := DecodeFrom(st, StoreText(f, a)); r.Between? && r.entries == st.entries + Entries(f, a)
    decreases |f| - a
  {
    hide Decode1, ProjectText, ProjectEntries, ValidProject, Decimal;
    if a == |f| {
    } else {
      if f[a].Some? {
        var p := f[a].value;
        var es := ProjectEntries(a, p);
        DecodeDecimal(st, a);
        DecodeProject(Number(a, st.entries), p);
        DecodeConcat(st, Decimal(a), ProjectText(p));
        DecodeStore(Between(a, st.entries + es), f, a + 1);
        DecodeConcat(st, Decimal(a) + ProjectText(p), StoreText(f, a + 1));
        assert (st.entries + es) + Entries(f, a + 1) == st.entries + Entries(f, a);
      } else {
        DecodeStore(st, f, a + 1);
        assert StoreText(f, a) == StoreText(f, a + 1);
        assert Entries(f, a) == Entries(f, a + 1);
      }
    }
  }

  // After any run of sets and clears, the text determines every entry: the decoder recovers all projects,
  // slot indices and strings.
  lemma {:induction false} TextDeterminesStore(ops: seq<Op>)
    ensures Valid(DoAll([], ops))
    ensures Decode(StoreText(DoAll([], ops), 0)) == Some(Entries(DoAll([], ops), 0))
  {
    RunValid(ops);
    DecodeStore(Between(0, []), DoAll([], ops), 0);
    assert [] + Entries(DoAll([], ops), 0) == Entries(DoAll([], ops), 0);
  }

  lemma {:induction false} RunValid(ops: seq<Op>)
    ensures Valid(DoAll([], ops))
  {
    if ops == [] {
    } else {
      RunValid(ops[..|ops| - 1]);
      DoEffect(DoAll([], ops[..|ops| - 1]), ops[|ops| - 1], 0, Keys, 0);
    }
  }

  // So two runs that print the same text agree on every lookup.
  lemma SameTextSameStore(ops: seq<Op>, ops': seq<Op>, a: nat, kind: Kind, c: nat)
    requires StoreText(DoAll([], ops), 0) == StoreText(DoAll([], ops'), 0)
    ensures Get(DoAll([], ops), a, kind, c) == Get(DoAll([], ops'), a, kind, c)
  {
    TextDeterminesStore(ops);
    TextDeterminesStore(ops');
    var f, f' := DoAll([], ops), DoAll([], ops');
    hide *;
    if Get(f, a, kind, c).Some? {
      EntriesAreGets(f, 0, Entry(a, kind, c, Get(f, a, kind, c).value));
      EntriesAreGets(f', 0, Entry(a, kind, c, Get(f, a, kind, c).value));
    }
    if Get(f', a, kind, c).Some? {
      EntriesAreGets(f, 0, Entry(a, kind, c, Get(f', a, kind, c).value));
      EntriesAreGets(f', 0, Entry(a, kind, c, Get(f', a, kind, c).value));
    }
  }

  // ---- two stores in one text ----

  // The projects of f that g does not have.
  function Missing(f: Store, g: Store): (r: Store)
    ensures |r| == |f|
    ensures forall a :: 0 <= a < |r| ==> r[a] == if At(g, a).Some? then None else f[a]
  {
    seq(|f|, a requires 0 <= a < |f| => if At(g, a).Some? then None else f[a])
  }

  // A text that starts with the overriding store decodes to the overriding entries first.
  lemma MergedText(f: Store, g: Store)
    requires Valid(f) && Valid(g)
    ensures Decode(StoreText(g, 0) + StoreText(Missing(f, g), 0)) == Some(Entries(g, 0) + Entries(Missing(f, g), 0))
  {
    hide StoreText, Entries;
    DecodeStore(Between(0, []), g, 0);
    assert [] + Entries(g, 0) == Entries(g, 0);
    DecodeStore(DecodeFrom(Between(0, []), StoreText(g, 0)), Missing(f, g), 0);
    DecodeConcat(Between(0, []), StoreText(g, 0), StoreText(Missing(f, g), 0));
  }
}
