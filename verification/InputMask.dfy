/**
 The masked input editor. Slot contents are rearranged by the algebra of MaskSlots; this module adds the
 cell row itself, the caret, the text of the element and the events that drive them.
 */
module InputMask {
  import opened Wrappers
  import opened MaskSlots

  // A parsed mask. `len` is the length of the mask text, which counts '?' marks the cells do not;
  // `partial` is the position after which the text may be incomplete.
  datatype Mask = Mask(cells: seq<Cell>, len: nat, partial: nat, placeholder: char) {
    predicate Valid() {
      |cells| <= len && partial <= len
    }

    function Count(): nat {
      |AllSlots(cells)|
    }

    function Tests(): (t: seq<char -> bool>)
      ensures |t| == Count()
    {
      MaskSlots.Tests(cells)
    }

    // The row of characters a filling of the slots shows.
    function Show(s: seq<char>): (t: string)
      requires |s| == Count()
      ensures |t| == |cells|
    {
      seq(|cells|, i requires 0 <= i < |cells| => CellText(s, i))
    }

    function CellText(s: seq<char>, i: nat): char
      requires |s| == Count() && i < |cells|
    {
      match cells[i]
      case Fixed(text) => text
      case Slot(_) => RankStep(cells, i); s[Rank(cells, i)]
    }
  }

  // Writing one slot changes one cell of the row.
  lemma ShowUpdate(m: Mask, s: seq<char>, i: nat, c: char)
    requires |s| == m.Count() && IsSlot(m.cells, i)
    ensures Rank(m.cells, i) < |s|
    ensures m.Show(s)[i] == s[Rank(m.cells, i)]
    ensures m.Show(s[Rank(m.cells, i) := c]) == m.Show(s)[i := c]
  {
    RankStep(m.cells, i);
    var t := s[Rank(m.cells, i) := c];
    forall p | 0 <= p < |m.cells| ensures m.Show(t)[p] == m.Show(s)[i := c][p] {
      RankStep(m.cells, p);
    }
  }

  // A slot of the mask, its index, its test, and the indices just around it.
  lemma SlotFacts(m: Mask, i: nat)
    requires IsSlot(m.cells, i)
    ensures i < |m.cells| && m.cells[i].Slot?
    ensures Rank(m.cells, i) < m.Count() && Rank(m.cells, i + 1) == Rank(m.cells, i) + 1
    ensures m.Tests()[Rank(m.cells, i)] == m.cells[i].accepts
  {
    RankStep(m.cells, i);
  }

  // Ranks grow with the position, up to the number of slots.
  lemma RankBounds(m: Mask, i: int, j: int)
    requires i <= j
    ensures Rank(m.cells, i) <= Rank(m.cells, j) <= m.Count()
    ensures |m.cells| <= j ==> Rank(m.cells, j) == m.Count()
    ensures |m.cells| <= i ==> Rank(m.cells, i) == m.Count()
    ensures i <= 0 ==> Rank(m.cells, i) == 0
  {
    RankMonotone(m.cells, i, j);
  }

  // Past a cell that is no slot the rank stays.
  lemma NoSlotFacts(m: Mask, i: int)
    requires !IsSlot(m.cells, i)
    ensures Rank(m.cells, i + 1) == Rank(m.cells, i)
    ensures 0 <= i < |m.cells| ==> m.cells[i].Fixed?
  {
    if 0 <= i {
      RankStep(m.cells, i);
    }
  }

  // The position of slot number r.
  function Position(m: Mask, r: nat): (i: nat)
    requires r < m.Count()
    ensures i < |m.cells| && IsSlot(m.cells, i) && Rank(m.cells, i) == r
  {
    RankOfSlot(m.cells, r);
    AllSlots(m.cells)[r]
  }

  // It is the only slot with that rank.
  lemma PositionOfRank(m: Mask, i: nat)
    requires IsSlot(m.cells, i)
    ensures Rank(m.cells, i) < m.Count() && Position(m, Rank(m.cells, i)) == i
  {
    RankStep(m.cells, i);
  }

  // What the editor holds: slot contents, the element's text, and the text to go back to on escape.
  datatype State = State(contents: seq<char>, value: string, focusText: string)

  ghost predicate StateValid(m: Mask, st: State) {
    WellFilled(m.Tests(), st.contents, m.placeholder)
  }

  function Blank(m: Mask): seq<char> {
    Fill(m.Count(), m.placeholder)
  }

  // ---- reading the element's text back into the cells ----

  datatype Reading = Reading(contents: seq<char>, stop: nat, lastMatch: int)

  function FirstAccepted(test: char -> bool, text: string, pos: nat): (q: nat)
    requires pos <= |text|
    ensures pos <= q <= |text|
    ensures q < |text| ==> test(text[q])
    ensures forall k :: pos <= k < q ==> !test(text[k])
    decreases |text| - pos
  {
    if pos == |text| || test(text[pos]) then pos else FirstAccepted(test, text, pos + 1)
  }

  // Cell by cell: a slot takes the next character it accepts, a literal steps over its own character.
  // Once the text runs out in a slot, that slot is blanked and the later cells stay as they were.
  function Read(m: Mask, s: seq<char>, text: string, i: nat, pos: nat, last: int): (r: Reading)
    requires m.Valid() && |s| == m.Count() && pos <= |text| && i <= m.len
    requires -1 <= last < |m.cells|
    ensures |r.contents| == |s| && i <= r.stop <= m.len && -1 <= r.lastMatch < |m.cells|
    decreases m.len - i
  {
    if i == m.len then Reading(s, i, last)
    else if IsSlot(m.cells, i) then
      RankStep(m.cells, i);
      var r := Rank(m.cells, i);
      var q := FirstAccepted(m.cells[i].accepts, text, pos);
      if q < |text| then Read(m, s[r := text[q]], text, i + 1, q + 1, i)
      else Reading(s[r := m.placeholder], i, last)
    else if i < |m.cells| && pos < |text| && m.cells[i].text == text[pos] && i != m.partial then
      Read(m, s, text, i + 1, pos + 1, i)
    else Read(m, s, text, i + 1, pos, last)
  }

  // One cell of the reading, told by where a search in the text ended.
  lemma ReadSlot(m: Mask, s: seq<char>, text: string, i: nat, pos: nat, last: int, q: nat)
    requires m.Valid() && |s| == m.Count() && i < m.len && -1 <= last < |m.cells| && IsSlot(m.cells, i)
    requires pos <= q <= |text| && forall p :: pos <= p < q ==> !m.cells[i].accepts(text[p])
    requires q < |text| ==> m.cells[i].accepts(text[q])
    ensures Rank(m.cells, i) < |s|
    ensures var r := Rank(m.cells, i);
            Read(m, s, text, i, pos, last) ==
              if q < |text| then Read(m, s[r := text[q]], text, i + 1, q + 1, i)
              else Reading(s[r := m.placeholder], i, last)
  {
    RankStep(m.cells, i);
    assert q == FirstAccepted(m.cells[i].accepts, text, pos);
  }

  lemma ReadFixed(m: Mask, s: seq<char>, text: string, i: nat, pos: nat, last: int)
    requires m.Valid() && |s| == m.Count() && i < m.len && -1 <= last < |m.cells| && !IsSlot(m.cells, i)
    requires pos <= |text|
    ensures Read(m, s, text, i, pos, last) ==
      if i < |m.cells| && pos < |text| && m.Show(s)[i] == text[pos] && i != m.partial
      then Read(m, s, text, i + 1, pos + 1, i)
      else Read(m, s, text, i + 1, pos, last)
  {
  }

  lemma ReadEnd(m: Mask, s: seq<char>, text: string, pos: nat, last: int)
    requires m.Valid() && |s| == m.Count() && -1 <= last < |m.cells| && pos <= |text|
    ensures Read(m, s, text, m.len, pos, last) == Reading(s, m.len, last)
  {
  }

  lemma {:induction false} ReadKeepsWellFilled(m: Mask, s: seq<char>, text: string, i: nat, pos: nat, last: int)
    requires m.Valid() && pos <= |text| && i <= m.len && -1 <= last < |m.cells|
    requires WellFilled(m.Tests(), s, m.placeholder)
    ensures WellFilled(m.Tests(), Read(m, s, text, i, pos, last).contents, m.placeholder)
    decreases m.len - i
  {
    if i == m.len {
    } else if IsSlot(m.cells, i) {
      RankStep(m.cells, i);
      var q := FirstAccepted(m.cells[i].accepts, text, pos);
      if q < |text| {
        ReadKeepsWellFilled(m, s[Rank(m.cells, i) := text[q]], text, i + 1, q + 1, i);
      }
    } else if i < |m.cells| && pos < |text| && m.cells[i].text == text[pos] && i != m.partial {
      ReadKeepsWellFilled(m, s, text, i + 1, pos + 1, i);
    } else {
      ReadKeepsWellFilled(m, s, text, i + 1, pos, last);
    }
  }

  // The state after a check. Text that does not reach the partial position is thrown away, unless pasted.
  function CheckVal(m: Mask, st: State, allow: bool): (r: State)
    requires m.Valid() && |st.contents| == m.Count()
    ensures |r.contents| == m.Count()
  {
    var read := Read(m, st.contents, st.value, 0, 0, -1);
    if !allow && read.lastMatch + 1 < m.partial then State(Blank(m), "", st.focusText)
    else if allow then State(read.contents, m.Show(read.contents), st.focusText)
    else State(read.contents, m.Show(read.contents)[..read.lastMatch + 1], st.focusText)
  }

  lemma CheckValUnfold(m: Mask, st: State, allow: bool, s: seq<char>, stop: nat, last: int)
    requires m.Valid() && |st.contents| == m.Count()
    requires Read(m, st.contents, st.value, 0, 0, -1) == Reading(s, stop, last)
    ensures |s| == m.Count() && -1 <= last < |m.cells|
    ensures CheckVal(m, st, allow) ==
      if !allow && last + 1 < m.partial then State(Clear(s, 0, |s|, m.placeholder), "", st.focusText)
      else State(s, if allow then m.Show(s) else m.Show(s)[..last + 1], st.focusText)
  {
  }

  // ---- events ----

  const BACKSPACE := 8
  const ESCAPE := 27
  const DELETE := 46

  function EraseAndShow(m: Mask, st: State, a: nat, b: nat): (r: State)
    requires |st.contents| == m.Count() && a <= b <= m.Count()
    ensures |r.contents| == m.Count()
  {
    var s := Erase(m.Tests(), st.contents, a, b, m.placeholder);
    State(s, m.Show(s), st.focusText)
  }

  // A key press that edits: backspace and delete act on the selection or on one neighbouring slot.
  function KeyDown(m: Mask, st: State, key: nat, begin: nat, end: nat): (r: State)
    requires m.Valid() && |st.contents| == m.Count() && begin <= end
    ensures |r.contents| == m.Count()
  {
    RankMonotone(m.cells, begin, end);
    var a, b := Rank(m.cells, begin), Rank(m.cells, end);
    if key == BACKSPACE || key == DELETE then
      if begin != end then EraseAndShow(m, st, a, b)
      else if key == DELETE then EraseAndShow(m, st, a, if a < m.Count() then a + 1 else a)
      else if a == 0 then st
      else EraseAndShow(m, st, a - 1, a)
    else if key == ESCAPE then CheckVal(m, st.(value := st.focusText), false)
    else st
  }

  // A key press that types: it replaces the selection, if any, and goes to the first slot from there on.
  function KeyPress(m: Mask, st: State, c: char, modified: bool, begin: nat, end: nat): (r: State)
    requires m.Valid() && |st.contents| == m.Count() && begin <= end
    ensures |r.contents| == m.Count()
  {
    RankMonotone(m.cells, begin, end);
    var a := Rank(m.cells, begin);
    if modified || c as int < 32 then st
    else
      var st1 := if begin != end then EraseAndShow(m, st, a, Rank(m.cells, end)) else st;
      if a < m.Count() && m.Tests()[a](c) then
        var s := Insert(m.Tests(), st1.contents, a, c, m.placeholder);
        State(s, m.Show(s), st.focusText)
      else st1
  }

  // ---- the caret ----

  // The first slot after a position, or the first position beyond the mask text.
  function NextSlot(m: Mask, pos: int): int
    requires -1 <= pos
  {
    RankMonotone(m.cells, pos + 1, pos + 1);
    var r := Rank(m.cells, pos + 1);
    if r < m.Count() then Position(m, r) else if pos < m.len then m.len + 1 else pos + 1
  }

  // Where a left shift from `begin` leaves the caret: not before the first slot.
  function CaretFrom(m: Mask, begin: nat): nat {
    if m.Count() == 0 || Position(m, 0) < begin then begin else Position(m, 0)
  }

  // The position a check gives: where it stopped, or the first slot, if any, of a mask that may stay empty.
  function CheckedAt(m: Mask, st: State): Option<nat>
    requires m.Valid() && |st.contents| == m.Count()
  {
    if m.partial != 0 then Some(Read(m, st.contents, st.value, 0, 0, -1).stop)
    else if m.Count() > 0 then Some(Position(m, 0))
    else None
  }

  // The selection a key press leaves behind; None when it does not touch it.
  function KeyDownCaret(m: Mask, st: State, key: nat, begin: nat, end: nat): Option<(int, int)>
    requires m.Valid() && |st.contents| == m.Count()
  {
    if key == BACKSPACE || key == DELETE then
      RankMonotone(m.cells, begin, begin);
      var r := Rank(m.cells, begin);
      if begin == end && key == BACKSPACE && r == 0 then None
      else
        var from :=
          if begin != end then begin else if key == DELETE then NextSlot(m, begin - 1) else Position(m, r - 1);
        Some((CaretFrom(m, from), CaretFrom(m, from)))
    else if key == ESCAPE then
      match CheckedAt(m, st.(value := st.focusText))
      case Some(p) => Some((0, p))
      case None => Some((0, 0))
    else None
  }

  function KeyPressCaret(m: Mask, c: char, modified: bool, begin: nat, end: nat): Option<(int, int)> {
    RankMonotone(m.cells, begin, begin);
    var r := Rank(m.cells, begin);
    if modified || c as int < 32 then None
    else if r < m.Count() && m.Tests()[r](c) then
      var next := NextSlot(m, Position(m, r));
      Some((next, next))
    else if begin != end then Some((CaretFrom(m, begin), CaretFrom(m, begin)))
    else None
  }

  // Everything that can happen to the element. Edit is any change of its text behind the editor's back.
  datatype Event =
    | Keydown(key: nat, begin: nat, end: nat)
    | Keypress(c: char, modified: bool, begin: nat, end: nat)
    | Edit(text: string)
    | Pasted
    | Blur
    | Focus

  predicate Feasible(ev: Event) {
    match ev
    case Keydown(_, b, e) => b <= e
    case Keypress(_, _, b, e) => b <= e
    case _ => true
  }

  function Step(m: Mask, st: State, ev: Event): (r: State)
    requires m.Valid() && |st.contents| == m.Count() && Feasible(ev)
    ensures |r.contents| == m.Count()
  {
    match ev
    case Keydown(key, b, e) => KeyDown(m, st, key, b, e)
    case Keypress(c, modified, b, e) => KeyPress(m, st, c, modified, b, e)
    case Edit(text) => st.(value := text)
    case Pasted => CheckVal(m, st, true)
    case Blur => CheckVal(m, st, false)
    case Focus =>
      var checked := CheckVal(m, st.(focusText := st.value), false);
      checked.(value := m.Show(checked.contents))
  }

  function Run(m: Mask, st: State, evs: seq<Event>): (r: State)
    requires m.Valid() && |st.contents| == m.Count()
    requires forall ev :: ev in evs ==> Feasible(ev)
    ensures |r.contents| == m.Count()
  {
    if evs == [] then st else Step(m, Run(m, st, evs[..|evs| - 1]), evs[|evs| - 1])
  }

  lemma CheckValKeepsValid(m: Mask, st: State, allow: bool)
    requires m.Valid() && StateValid(m, st)
    ensures StateValid(m, CheckVal(m, st, allow))
  {
    ReadKeepsWellFilled(m, st.contents, st.value, 0, 0, -1);
  }

  lemma EraseAndShowKeepsValid(m: Mask, st: State, a: nat, b: nat)
    requires StateValid(m, st) && a <= b <= m.Count()
    ensures StateValid(m, EraseAndShow(m, st, a, b))
  {
    ClearKeepsWellFilled(m.Tests(), st.contents, a, b, m.placeholder);
    ShiftLeftKeepsWellFilled(m.Tests(), Clear(st.contents, a, b, m.placeholder), a, b, m.placeholder);
  }

  lemma KeyDownKeepsValid(m: Mask, st: State, key: nat, begin: nat, end: nat)
    requires m.Valid() && StateValid(m, st) && begin <= end
    ensures StateValid(m, KeyDown(m, st, key, begin, end))
  {
    hide Rank, EraseAndShow, CheckVal, MaskSlots.Tests;
    RankMonotone(m.cells, begin, end);
    var a, b := Rank(m.cells, begin), Rank(m.cells, end);
    EraseAndShowKeepsValid(m, st, a, b);
    EraseAndShowKeepsValid(m, st, a, if a < m.Count() then a + 1 else a);
    if a > 0 {
      EraseAndShowKeepsValid(m, st, a - 1, a);
    }
    CheckValKeepsValid(m, st.(value := st.focusText), false);
  }

  lemma KeyPressKeepsValid(m: Mask, st: State, c: char, modified: bool, begin: nat, end: nat)
    requires m.Valid() && StateValid(m, st) && begin <= end
    ensures StateValid(m, KeyPress(m, st, c, modified, begin, end))
  {
    hide Rank, EraseAndShow, ShiftRight, MaskSlots.Tests;
    RankMonotone(m.cells, begin, end);
    var a, b := Rank(m.cells, begin), Rank(m.cells, end);
    EraseAndShowKeepsValid(m, st, a, b);
    var st1 := if begin != end then EraseAndShow(m, st, a, b) else st;
    if a < m.Count() {
      InsertKeepsWellFilled(m.Tests(), st1.contents, a, c, m.placeholder);
    }
  }

  lemma StepKeepsValid(m: Mask, st: State, ev: Event)
    requires m.Valid() && StateValid(m, st) && Feasible(ev)
    ensures StateValid(m, Step(m, st, ev))
  {
    hide KeyDown, KeyPress, CheckVal, WellFilled;
    match ev
    case Keydown(key, b, e) => KeyDownKeepsValid(m, st, key, b, e);
    case Keypress(c, modified, b, e) => KeyPressKeepsValid(m, st, c, modified, b, e);
    case Edit(_) =>
    case Pasted => CheckValKeepsValid(m, st, true);
    case Blur => CheckValKeepsValid(m, st, false);
    case Focus => CheckValKeepsValid(m, st.(focusText := st.value), false);
  }

  // Every run of events keeps each literal cell at its mask character and each slot at the placeholder or
  // at a character its own test accepts.
  lemma {:induction false} RunKeepsCells(m: Mask, st: State, evs: seq<Event>)
    requires m.Valid() && StateValid(m, st)
    requires forall ev :: ev in evs ==> Feasible(ev)
    ensures StateValid(m, Run(m, st, evs))
    ensures forall i :: 0 <= i < |m.cells| ==>
      var c := m.Show(Run(m, st, evs).contents)[i];
      match m.cells[i] case Fixed(text) => c == text case Slot(ok) => c == m.placeholder || ok(c)
  {
    if evs != [] {
      RunKeepsCells(m, st, evs[..|evs| - 1]);
      StepKeepsValid(m, Run(m, st, evs[..|evs| - 1]), evs[|evs| - 1]);
    }
    forall i | 0 <= i < |m.cells| && m.cells[i].Slot? {
      RankStep(m.cells, i);
    }
  }

  // Typing at a slot and pressing backspace with the caret behind it restores every cell, provided the
  // slots from there on hold characters up to a first hole and the right shift dropped no character.
  lemma TypeThenBackspace(m: Mask, st: State, c: char, pos: nat, caret: nat)
    requires m.Valid() && StateValid(m, st) && 32 <= c as int
    requires Rank(m.cells, pos) < m.Count() && m.Tests()[Rank(m.cells, pos)](c)
    requires Rank(m.cells, caret) == Rank(m.cells, pos) + 1
    requires FilledThenBlank(st.contents, Rank(m.cells, pos), m.placeholder)
    requires st.contents[DropSlot(m.Tests(), st.contents, Rank(m.cells, pos))] == m.placeholder
    ensures KeyDown(m, KeyPress(m, st, c, false, pos, pos), BACKSPACE, caret, caret)
         == State(st.contents, m.Show(st.contents), st.focusText)
  {
    TypeThenErase(m.Tests(), st.contents, Rank(m.cells, pos), c, m.placeholder);
  }

  // Deleting a selection keeps every other typed character in order exactly when the selection covers a
  // slot, or the slots the shift then runs over were blank anyway.
  lemma DeleteSelectionConserves(m: Mask, st: State, key: nat, begin: nat, end: nat)
    requires m.Valid() && |st.contents| == m.Count() && begin < end && (key == BACKSPACE || key == DELETE)
    ensures Rank(m.cells, begin) <= Rank(m.cells, end) <= m.Count()
    ensures var a, b := Rank(m.cells, begin), Rank(m.cells, end);
            var kept := Typed(st.contents[..a], m.placeholder) + Typed(st.contents[b..], m.placeholder);
            Typed(KeyDown(m, st, key, begin, end).contents, m.placeholder) == kept <==>
            (a < b || forall r :: a <= r < a + Moves(m.Tests(), st.contents, a, a) ==> st.contents[r] == m.placeholder)
  {
    RankMonotone(m.cells, begin, end);
    var a, b := Rank(m.cells, begin), Rank(m.cells, end);
    if a < b {
      EraseConserves(m.Tests(), st.contents, a, b, m.placeholder);
    } else {
      EraseEmptyRange(m.Tests(), st.contents, a, m.placeholder);
      TypedConcat(st.contents[..a], st.contents[a..], m.placeholder);
      assert st.contents == st.contents[..a] + st.contents[a..];
    }
  }

  // Delete without a selection takes the character of the next slot out, and nothing else: the others keep their
  // order, the cells before it stay, and behind the last slot nothing happens.
  lemma DeleteAtCaret(m: Mask, st: State, p: nat)
    requires m.Valid() && |st.contents| == m.Count()
    ensures Rank(m.cells, p) <= m.Count()
    ensures
      var a := Rank(m.cells, p);
      var s, after := st.contents, KeyDown(m, st, DELETE, p, p).contents;
      if a == m.Count() then after == s
      else
        && Typed(after, m.placeholder) == Typed(s[..a], m.placeholder) + Typed(s[a + 1..], m.placeholder)
        && multiset(after) == multiset(s[..a] + [m.placeholder] + s[a + 1..]) && after[..a] == s[..a]
  {
    hide Typed, Rank;
    RankBounds(m, p, p);
    var a := Rank(m.cells, p);
    if a == m.Count() {
      EraseAtEnd(m.Tests(), st.contents, m.placeholder);
    } else {
      EraseOne(m.Tests(), st.contents, a, m.placeholder);
    }
  }

  // Backspace does the same to the slot before, and nothing in front of the first slot.
  lemma BackspaceAtCaret(m: Mask, st: State, p: nat)
    requires m.Valid() && |st.contents| == m.Count()
    ensures Rank(m.cells, p) <= m.Count()
    ensures
      var a := Rank(m.cells, p);
      var s, after := st.contents, KeyDown(m, st, BACKSPACE, p, p).contents;
      if a == 0 then KeyDown(m, st, BACKSPACE, p, p) == st
      else
        && Typed(after, m.placeholder) == Typed(s[..a - 1], m.placeholder) + Typed(s[a..], m.placeholder)
        && multiset(after) == multiset(s[..a - 1] + [m.placeholder] + s[a..]) && after[..a - 1] == s[..a - 1]
  {
    hide Typed, Rank;
    RankBounds(m, p, p);
    var a := Rank(m.cells, p);
    if a > 0 {
      EraseOne(m.Tests(), st.contents, a - 1, m.placeholder);
    }
  }

  // Typing one character at a slot puts it there, moves the ones behind it up to where one is refused, which is
  // dropped, and leaves the others; a refused character changes nothing.
  lemma TypeAtCaret(m: Mask, st: State, c: char, p: nat)
    requires m.Valid() && |st.contents| == m.Count() && 32 <= c as int
    ensures Rank(m.cells, p) <= m.Count()
    ensures
      var a := Rank(m.cells, p);
      var s, after := st.contents, KeyPress(m, st, c, false, p, p);
      if a < m.Count() && m.Tests()[a](c) then
        var d := DropSlot(m.Tests(), s, a);
        after == State(s[..a] + [c] + s[a..d] + s[d + 1..], m.Show(after.contents), st.focusText)
      else after == st
  {
    hide Rank, Insert, DropSlot, MaskSlots.Tests, Mask.Show;
    RankBounds(m, p, p);
    var a := Rank(m.cells, p);
    if a < m.Count() && m.Tests()[a](c) {
      InsertIs(m.Tests(), st.contents, a, c, m.placeholder);
    }
  }

  // Typing over a selection is deleting it and typing at its start; with a modifier nothing happens.
  lemma TypeOverSelection(m: Mask, st: State, c: char, modified: bool, begin: nat, end: nat)
    requires m.Valid() && |st.contents| == m.Count() && begin < end
    ensures KeyPress(m, st, c, modified, begin, end) ==
      if modified || c as int < 32 then st
      else KeyPress(m, KeyDown(m, st, DELETE, begin, end), c, false, begin, begin)
  {
    RankMonotone(m.cells, begin, end);
  }

  // A selected literal in front of a typed character: deleting the selection wipes that character.
  lemma LiteralSelectionWipes(m: Mask, st: State, key: nat, p: nat)
    requires m.Valid() && StateValid(m, st) && (key == BACKSPACE || key == DELETE)
    requires p < |m.cells| && m.cells[p].Fixed? && Rank(m.cells, p) < m.Count()
    requires st.contents[Rank(m.cells, p)] != m.placeholder
    ensures var r := Rank(m.cells, p);
      var after := KeyDown(m, st, key, p, p + 1).contents;
      after[r] == m.placeholder && Typed(after, m.placeholder) != Typed(st.contents, m.placeholder)
  {
    var r := Rank(m.cells, p);
    RankStep(m.cells, p);
    EraseEmptyRangeWipes(m.Tests(), st.contents, r, m.placeholder);
    EraseEmptyRange(m.Tests(), st.contents, r, m.placeholder);
    assert Moves(m.Tests(), st.contents, r, r) > 0;
  }

  // ---- reading back what was shown ----

  // The first k slots are filled with accepted characters and the others are blank. A '?' stands before a slot.
  ghost predicate PrefixFilled(m: Mask, s: seq<char>, k: nat) {
    && m.Valid() && (m.partial < |m.cells| ==> m.cells[m.partial].Slot?)
    && |s| == m.Count() && k <= |s|
    && (forall r :: 0 <= r < k ==> m.Tests()[r](s[r]))
    && (forall r :: k <= r < |s| ==> s[r] == m.placeholder)
  }

  // No slot accepts the placeholder or a literal of the mask.
  ghost predicate Unambiguous(m: Mask) {
    && (forall i :: 0 <= i < |m.cells| && m.cells[i].Slot? ==> !m.cells[i].accepts(m.placeholder))
    && (forall i, j :: 0 <= i < |m.cells| && 0 <= j < |m.cells| && m.cells[i].Slot? && m.cells[j].Fixed? ==>
          !m.cells[i].accepts(m.cells[j].text))
  }

  // The cell of the first hole; the end of the row when there is none.
  function HoleAt(m: Mask, k: nat): (i: nat)
    ensures i <= |m.cells|
  {
    if k < m.Count() then Position(m, k) else |m.cells|
  }

  // The contents after the row that shows `s` was read over the contents `s0`: those behind the first hole stay.
  function Reread(m: Mask, s0: seq<char>, s: seq<char>, k: nat): (t: seq<char>)
    requires |s0| == |s| == m.Count() && k <= |s|
    ensures |t| == |s|
  {
    if k < |s| then s[..k] + [m.placeholder] + s0[k + 1..] else s
  }

  // The text shows the row up to the first hole or further.
  ghost predicate ShowsUpTo(m: Mask, s: seq<char>, k: nat, text: string)
    requires |s| == m.Count()
  {
    HoleAt(m, k) <= |text| <= |m.cells| && text == m.Show(s)[..|text|]
  }

  function Reached(m: Mask, i: nat): nat {
    if i < |m.cells| then i else |m.cells|
  }

  // From cell i on, re-reading such a text goes through the row in step until the first hole, whatever the
  // cells held before.
  lemma {:induction false} ReadShown(m: Mask, s0: seq<char>, s: seq<char>, k: nat, text: string, i: nat)
    requires PrefixFilled(m, s, k) && i <= m.len && Rank(m.cells, i) <= k && (k < |s| ==> Unambiguous(m))
    requires |s0| == |s| == m.Count() && ShowsUpTo(m, s, k, text) && Reached(m, i) <= HoleAt(m, k)
    requires s0[..Rank(m.cells, i)] == s[..Rank(m.cells, i)]
    ensures var r := Read(m, s0, text, i, Reached(m, i), Reached(m, i) - 1);
            && r.contents == Reread(m, s0, s, k)
            && r.stop == (if k < |s| then Position(m, k) else m.len)
            && r.lastMatch == HoleAt(m, k) - 1
    decreases m.len - i
  {
    hide Read, PrefixFilled, Unambiguous, Rank, MaskSlots.Tests, IsSlot, Mask.Show;
    PrefixBounds(m, s, k);
    RankBounds(m, i, m.len);
    if i == m.len {
      ReadEnd(m, s0, text, Reached(m, i), Reached(m, i) - 1);
    } else if IsSlot(m.cells, i) {
      SlotFacts(m, i);
      PositionOfRank(m, i);
      var r := Rank(m.cells, i);
      if r < k {
        HolesLater(m, k, i);
        FilledSlot(m, s, k, i);
        assert text[i] == m.Show(s)[i];
        ReadSlot(m, s0, text, i, i, i - 1, i);
        var s1 := s0[r := text[i]];
        assert s1[..r + 1] == s[..r + 1];
        ReadShown(m, s1, s, k, text, i + 1);
        assert k < |s| ==> s1[k + 1..] == s0[k + 1..];
      } else {
        ReadHole(m, s0, s, k, text, i);
      }
    } else {
      NoSlotFacts(m, i);
      if i < |m.cells| {
        HolesLater(m, k, i);
        ShownLiteral(m, s0, s, i);
        assert text[i] == m.Show(s)[i];
        NoMarkHere(m, s, k, i);
      }
      ReadFixed(m, s0, text, i, Reached(m, i), Reached(m, i) - 1);
      ReadShown(m, s0, s, k, text, i + 1);
    }
  }

  lemma PrefixBounds(m: Mask, s: seq<char>, k: nat)
    requires PrefixFilled(m, s, k)
    ensures m.Valid() && |m.cells| <= m.len && |s| == m.Count() && k <= |s|
  {
  }

  // Before the first hole there is room for another cell.
  lemma HolesLater(m: Mask, k: nat, i: nat)
    requires i < |m.cells| && Rank(m.cells, i) <= k && i <= HoleAt(m, k)
    requires IsSlot(m.cells, i) ==> Rank(m.cells, i) < k
    ensures i < HoleAt(m, k) && Rank(m.cells, i + 1) <= k
  {
    RankStep(m.cells, i);
  }

  lemma ShownLiteral(m: Mask, s0: seq<char>, s: seq<char>, i: nat)
    requires |s0| == |s| == m.Count() && i < |m.cells| && m.cells[i].Fixed?
    ensures m.Show(s0)[i] == m.Show(s)[i]
  {
  }

  lemma NoMarkHere(m: Mask, s: seq<char>, k: nat, i: nat)
    requires PrefixFilled(m, s, k) && i < |m.cells| && m.cells[i].Fixed?
    ensures i != m.partial
  {
  }

  lemma FilledSlot(m: Mask, s: seq<char>, k: nat, i: nat)
    requires PrefixFilled(m, s, k) && IsSlot(m.cells, i) && Rank(m.cells, i) < k
    ensures m.Show(s)[i] == s[Rank(m.cells, i)] && m.cells[i].accepts(m.Show(s)[i])
  {
    SlotFacts(m, i);
    ShowUpdate(m, s, i, s[Rank(m.cells, i)]);
  }

  // At the first hole nothing more is accepted, and the reading stops there.
  lemma ReadHole(m: Mask, s0: seq<char>, s: seq<char>, k: nat, text: string, i: nat)
    requires PrefixFilled(m, s, k) && Unambiguous(m) && IsSlot(m.cells, i) && Rank(m.cells, i) == k
    requires |s0| == |s| == m.Count() && ShowsUpTo(m, s, k, text) && s0[..k] == s[..k]
    ensures k < |s| && Position(m, k) == i
    ensures Read(m, s0, text, i, i, i - 1) == Reading(Reread(m, s0, s, k), i, i - 1)
  {
    hide Read, Unambiguous, Rank, PrefixFilled, Reread, Mask.Show, MaskSlots.Tests;
    PrefixBounds(m, s, k);
    SlotFacts(m, i);
    PositionOfRank(m, i);
    forall p | i <= p < |text| ensures !m.cells[i].accepts(text[p]) {
      NothingAfterHole(m, s, k, i, p);
      assert text[p] == m.Show(s)[p];
    }
    ReadSlot(m, s0, text, i, i, i - 1, |text|);
    HoleFilled(m, s0, s, k);
  }

  lemma HoleFilled(m: Mask, s0: seq<char>, s: seq<char>, k: nat)
    requires |s0| == |s| == m.Count() && k < |s| && s0[..k] == s[..k]
    ensures s0[k := m.placeholder] == Reread(m, s0, s, k)
  {
  }

  // Behind the first hole the row shows only placeholders and literals, which no slot accepts.
  lemma NothingAfterHole(m: Mask, s: seq<char>, k: nat, i: nat, p: nat)
    requires PrefixFilled(m, s, k) && Unambiguous(m) && IsSlot(m.cells, i) && i <= p < |m.cells|
    requires Rank(m.cells, i) == k
    ensures !m.cells[i].accepts(m.Show(s)[p])
  {
    RankMonotone(m.cells, i, p);
    RankStep(m.cells, p);
  }

  // A literal that stands at the '?' is passed without being looked for in the text.
  lemma LiteralAtMark(m: Mask, s: seq<char>, text: string, pos: nat, last: int)
    requires m.Valid() && |s| == m.Count() && pos <= |text| && -1 <= last < |m.cells|
    requires m.partial < |m.cells| && m.cells[m.partial].Fixed?
    ensures Read(m, s, text, m.partial, pos, last) == Read(m, s, text, m.partial + 1, pos, last)
  {
  }

  // What a check makes of a text that shows a prefix-filled row, with '?' or without: a text that does not reach
  // the '?' is dropped with the whole row, unless it was pasted; any other is read in, and shown as far as it goes.
  lemma CheckOfShown(m: Mask, s0: seq<char>, s: seq<char>, k: nat, text: string, focusText: string, allow: bool)
    requires PrefixFilled(m, s, k) && (k < |s| ==> Unambiguous(m))
    requires |s0| == |s| == m.Count() && ShowsUpTo(m, s, k, text)
    ensures var read := Reread(m, s0, s, k);
      CheckVal(m, State(s0, text, focusText), allow) ==
        if allow then State(read, m.Show(read), focusText)
        else if HoleAt(m, k) < m.partial then State(Blank(m), "", focusText)
        else State(read, m.Show(s)[..HoleAt(m, k)], focusText)
    ensures Read(m, s0, text, 0, 0, -1).stop == if k < |s| then Position(m, k) else m.len
  {
    hide Read, PrefixFilled, Unambiguous, Rank;
    PrefixBounds(m, s, k);
    RankBounds(m, 0, 0);
    ReadShown(m, s0, s, k, text, 0);
    ShownBeforeHole(m, s0, s, k);
  }

  // The row up to the first hole does not depend on what stands behind it.
  lemma ShownBeforeHole(m: Mask, s0: seq<char>, s: seq<char>, k: nat)
    requires |s0| == |s| == m.Count() && k <= |s|
    ensures m.Show(Reread(m, s0, s, k))[..HoleAt(m, k)] == m.Show(s)[..HoleAt(m, k)]
  {
    forall i | 0 <= i < HoleAt(m, k) ensures m.Show(Reread(m, s0, s, k))[i] == m.Show(s)[i] {
      RankStep(m.cells, i);
      RankMonotone(m.cells, i + 1, HoleAt(m, k));
    }
  }

  lemma RereadSame(m: Mask, s: seq<char>, k: nat)
    requires PrefixFilled(m, s, k)
    ensures Reread(m, s, s, k) == s
  {
  }

  // For a mask without '?', checking the text of a fully filled buffer changes nothing, whatever the tests.
  lemma CheckUndoesWrite(m: Mask, s: seq<char>, focusText: string, allow: bool)
    requires PrefixFilled(m, s, m.Count()) && |m.cells| == m.len == m.partial
    ensures CheckVal(m, State(s, m.Show(s), focusText), allow) == State(s, m.Show(s), focusText)
    ensures Read(m, s, m.Show(s), 0, 0, -1).stop == m.len
  {
    assert m.Show(s)[..|m.cells|] == m.Show(s);
    CheckOfShown(m, s, s, m.Count(), m.Show(s), focusText, allow);
  }

  // Pasting back the text of a prefix-filled buffer changes nothing either, when no slot accepts the
  // placeholder or a literal, and the check stops at the first hole.
  lemma PasteUndoesWrite(m: Mask, s: seq<char>, k: nat, focusText: string)
    requires PrefixFilled(m, s, k) && k < |s| && Unambiguous(m)
    ensures CheckVal(m, State(s, m.Show(s), focusText), true) == State(s, m.Show(s), focusText)
    ensures Read(m, s, m.Show(s), 0, 0, -1).stop == Position(m, k)
  {
    assert m.Show(s)[..|m.cells|] == m.Show(s);
    CheckOfShown(m, s, s, k, m.Show(s), focusText, true);
    RereadSame(m, s, k);
  }

  // Escape brings the text back that the element had, whatever was typed since, but the cells only up to the
  // first hole: behind it they keep what was typed, unless the text does not reach the '?', which blanks all.
  lemma EscapeRestores(m: Mask, st: State, s: seq<char>, k: nat)
    requires PrefixFilled(m, s, k) && (k < |s| ==> Unambiguous(m)) && |st.contents| == m.Count()
    requires ShowsUpTo(m, s, k, st.focusText)
    ensures var after := KeyDown(m, st, ESCAPE, 0, 0);
      if HoleAt(m, k) < m.partial then after == State(Blank(m), "", st.focusText)
      else
        && after.value == m.Show(s)[..HoleAt(m, k)]
        && (after.contents == s <==> forall r :: k < r < |s| ==> st.contents[r] == m.placeholder)
  {
    hide PrefixFilled, Unambiguous, ShowsUpTo, CheckVal, Mask.Show;
    PrefixBounds(m, s, k);
    CheckOfShown(m, st.contents, s, k, st.focusText, st.focusText, false);
    StaleCells(m, st.contents, s, k);
  }

  lemma StaleCells(m: Mask, s0: seq<char>, s: seq<char>, k: nat)
    requires PrefixFilled(m, s, k) && |s0| == |s|
    ensures Reread(m, s0, s, k) == s <==> forall r :: k < r < |s| ==> s0[r] == m.placeholder
  {
    var t := Reread(m, s0, s, k);
    assert forall r :: 0 <= r < |s| ==> t[r] == if r < k || k == |s| then s[r] else if r == k then m.placeholder else s0[r];
    if forall r :: k < r < |s| ==> s0[r] == m.placeholder {
      assert t == s;
    } else {
      var r :| k < r < |s| && s0[r] != m.placeholder;
      assert t[r] != s[r];
    }
  }
}
