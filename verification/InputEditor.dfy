/**
 The editor object. Its buffer is overwritten cell by cell; the ghost field `contents` is the filling of the
 slots, and Valid() says that the buffer shows exactly that filling. Every handler is proved to
 take the state to the one InputMask.Step gives.
 */
module InputEditor {
  import opened Wrappers
  import opened MaskSlots
  import opened InputMask

  // The cells of a mask text: '?' only marks the partial position, characters with a definition are slots.
  function ParseCells(text: string, defs: map<char, char -> bool>): (cells: seq<Cell>)
    ensures |cells| <= |text|
  {
    if text == [] then []
    else
      var init, c := ParseCells(text[..|text| - 1], defs), text[|text| - 1];
      if c == '?' then init
      else if c in defs then init + [Slot(defs[c])]
      else init + [Fixed(c)]
  }

  // The mask text without its marks.
  function Unmarked(text: string): (t: string)
    ensures '?' !in t && ('?' !in text ==> t == text)
  {
    if text == [] then []
    else Unmarked(text[..|text| - 1]) + if text[|text| - 1] == '?' then [] else [text[|text| - 1]]
  }

  // One cell for every character of it, a slot with the defined test or a literal.
  lemma {:induction false} CellsOfMask(text: string, defs: map<char, char -> bool>)
    ensures var t, cells := Unmarked(text), ParseCells(text, defs);
      |cells| == |t| && forall i :: 0 <= i < |t| ==> cells[i] == if t[i] in defs then Slot(defs[t[i]]) else Fixed(t[i])
  {
    if text == [] {
    } else {
      CellsOfMask(text[..|text| - 1], defs);
    }
  }

  function LastMark(text: string): (p: nat)
    ensures p <= |text|
    ensures p < |text| ==> text[p] == '?'
    ensures p == |text| ==> '?' !in text
    ensures forall i :: p < i < |text| ==> text[i] != '?'
  {
    if text == [] then 0
    else if text[|text| - 1] == '?' then |text| - 1
    else
      var p := LastMark(text[..|text| - 1]);
      if p == |text| - 1 then |text| else p
  }

  class Editor {
    const m: Mask
    const buffer: array<char>
    var value: string
    var focusText: string
    ghost var contents: seq<char>

    ghost predicate Valid()
      reads this`contents, buffer
    {
      && m.Valid()
      && WellFilled(m.Tests(), contents, m.placeholder)
      && buffer.Length == |m.cells|
      && buffer[..] == m.Show(contents)
    }

    ghost function St(): State
      reads this
    {
      State(contents, value, focusText)
    }

    constructor (text: string, defs: map<char, char -> bool>, placeholder: char, initial: string)
      ensures Valid() && fresh(buffer)
      ensures m == Mask(ParseCells(text, defs), |text|, LastMark(text), placeholder)
      ensures St() == CheckVal(m, State(Blank(m), initial, initial), false)
    {
      var cells := [];
      var partial := |text|;
      for i := 0 to |text|
        invariant cells == ParseCells(text[..i], defs)
        invariant partial == if LastMark(text[..i]) == i then |text| else LastMark(text[..i])
      {
        assert text[..i + 1][..i] == text[..i];
        if text[i] == '?' {
          partial := i;
        } else if text[i] in defs {
          cells := cells + [Slot(defs[text[i]])];
        } else {
          cells := cells + [Fixed(text[i])];
        }
      }
      assert text[..|text|] == text;
      m := Mask(cells, |text|, partial, placeholder);
      buffer := new char[|cells|](i requires 0 <= i < |cells| =>
        if cells[i].Slot? then placeholder else cells[i].text);
      value, focusText := initial, initial;
      contents := Blank(Mask(cells, |text|, partial, placeholder));
      new;
      assert buffer[..] == m.Show(contents) by {
        forall i | 0 <= i < |m.cells| && m.cells[i].Slot? {
          RankStep(m.cells, i);
        }
      }
      var _ := Check(false);
    }

    // What the methods need of Valid().
    lemma Facts()
      requires Valid()
      ensures m.Valid() && |m.cells| <= m.len && m.partial <= m.len && |contents| == m.Count()
      ensures WellFilled(m.Tests(), contents, m.placeholder)
      ensures buffer.Length == |m.cells| && buffer[..] == m.Show(contents)
    {
    }

    // Overwrites one slot cell.
    method Put(i: nat, c: char)
      requires Valid() && IsSlot(m.cells, i) && (c == m.placeholder || m.cells[i].accepts(c))
      modifies buffer, this`contents
      ensures Valid() && |contents| == |old(contents)| == m.Count()
      ensures Rank(m.cells, i) < |contents| && contents == old(contents)[Rank(m.cells, i) := c]
    {
      ShowUpdate(m, contents, i, c);
      SlotFacts(m, i);
      buffer[i] := c;
      contents := contents[Rank(m.cells, i) := c];
    }

    // Reads one slot cell.
    method Get(i: nat) returns (c: char)
      requires Valid() && IsSlot(m.cells, i)
      ensures Rank(m.cells, i) < |contents| && c == contents[Rank(m.cells, i)]
    {
      ShowUpdate(m, contents, i, m.placeholder);
      c := buffer[i];
    }

    // The first slot after pos, or a position beyond the mask when there is none.
    method SeekNext(pos: int) returns (r: int)
      requires |m.cells| <= m.len && -1 <= pos
      ensures pos < r
      ensures if Rank(m.cells, pos + 1) < m.Count() then r == Position(m, Rank(m.cells, pos + 1)) < m.len else m.len < r
      ensures r == NextSlot(m, pos)
      ensures Rank(m.cells, r) == Rank(m.cells, pos + 1) <= m.Count()
    {
      hide *;
      r := pos + 1;
      while r <= m.len && !IsSlot(m.cells, r)
        invariant pos < r && Rank(m.cells, r) == Rank(m.cells, pos + 1)
        invariant r <= m.len + 1 || r == pos + 1
        decreases m.len - r
      {
        NoSlotFacts(m, r);
        r := r + 1;
      }
      if r <= m.len {
        PositionOfRank(m, r);
      }
      RankBounds(m, r, r);
      NextSlotIs(m, pos);
    }

    // The last slot before pos, or -1 when there is none.
    method SeekPrev(pos: nat) returns (r: int)
      ensures -1 <= r < pos || r == -1
      ensures if Rank(m.cells, pos) == 0 then r == -1
              else 0 <= r && IsSlot(m.cells, r) && Rank(m.cells, r) == Rank(m.cells, pos) - 1
    {
      hide *;
      r := pos - 1;
      while 0 <= r && !IsSlot(m.cells, r)
        invariant -1 <= r < pos || r == -1
        invariant Rank(m.cells, r + 1) == Rank(m.cells, pos)
      {
        NoSlotFacts(m, r);
        r := r - 1;
      }
      if 0 <= r {
        SlotFacts(m, r);
      } else {
        RankBounds(m, 0, 0);
      }
    }

    method ClearBuffer(start: int, end: int)
      requires Valid() && -1 <= start <= end
      modifies buffer, this`contents
      ensures Valid() && |contents| == |old(contents)| == m.Count()
      ensures Rank(m.cells, start) <= Rank(m.cells, end) <= m.Count()
      ensures contents == Clear(old(contents), Rank(m.cells, start), Rank(m.cells, end), m.placeholder)
    {
      hide *;
      Facts();
      RankBounds(m, start, end);
      ghost var s, a := contents, Rank(m.cells, start);
      ClearStep(s, a, a, m.placeholder);
      var i := start;
      while i < end && i < m.len
        invariant start <= i <= end && Valid() && |contents| == m.Count()
        invariant a <= Rank(m.cells, i) <= m.Count()
        invariant contents == Clear(s, a, Rank(m.cells, i), m.placeholder)
        decreases end - i
      {
        if IsSlot(m.cells, i) {
          assert 0 <= i by { IsSlotBounds(i); }
          SlotFacts(m, i);
          ClearStep(s, a, Rank(m.cells, i), m.placeholder);
          Put(i, m.placeholder);
        } else {
          NoSlotFacts(m, i);
        }
        i := i + 1;
      }
      RankBounds(m, i, end);
    }

    lemma IsSlotBounds(i: int)
      requires IsSlot(m.cells, i)
      ensures 0 <= i < |m.cells|
    {
    }

    // Takes a character from slot cell j to slot cell i and leaves j blank.
    method Transfer(i: nat, j: nat, c: char)
      requires Valid() && IsSlot(m.cells, i) && IsSlot(m.cells, j) && m.cells[i].accepts(c)
      modifies buffer, this`contents
      ensures Valid() && |contents| == |old(contents)| == m.Count()
      ensures Rank(m.cells, i) < |contents| && Rank(m.cells, j) < |contents|
      ensures contents == old(contents)[Rank(m.cells, i) := c][Rank(m.cells, j) := m.placeholder]
    {
      hide *;
      Put(i, c);
      Put(j, m.placeholder);
    }

    // Slot number r is at cell j, or there is none and j is beyond the mask.
    ghost predicate Stands(j: int, r: nat) {
      if r < m.Count() then j == Position(m, r) < m.len else m.len < j
    }

    // One slot of a left shift: the content at cell j, slot number b + k, goes to cell i if it is accepted.
    method MoveOne(i: nat, j: int, ghost s: seq<char>, ghost a: nat, ghost b: nat, ghost k: nat) returns (moved: bool, next: int)
      requires Valid() && |s| == |contents| == m.Count() && a <= b <= |s| && k <= Moves(m.Tests(), s, a, b)
      requires contents == ShiftedLeft(s, a, b, k, m.placeholder)
      requires IsSlot(m.cells, i) && Rank(m.cells, i) == a + k && Stands(j, b + k)
      modifies buffer, this`contents
      ensures Valid() && |contents| == m.Count()
      ensures moved ==>
        && k + 1 <= Moves(m.Tests(), s, a, b)
        && contents == ShiftedLeft(s, a, b, k + 1, m.placeholder) && Stands(next, b + k + 1)
      ensures !moved ==> contents == ShiftLeft(m.Tests(), s, a, b, m.placeholder)
    {
      hide *;
      Facts();
      SlotFacts(m, i);
      ShiftedLeftStep(s, a, b, k, m.placeholder);
      ShiftLeftProgress(m.Tests(), s, a, b, k, m.placeholder);
      next := j;
      moved := false;
      if j < m.len {
        StandsAt(j, b + k);
        var c := Get(j);
        moved := m.cells[i].accepts(c);
        if moved {
          Transfer(i, j, c);
          SlotFacts(m, j);
          next := SeekNext(j);
          StandsNext(next, b + k + 1);
        }
      } else {
        StandsAt(j, b + k);
      }
    }

    lemma StandsAt(j: int, r: nat)
      requires Stands(j, r) && m.Valid()
      ensures j < m.len ==> r < m.Count() && 0 <= j && IsSlot(m.cells, j) && Rank(m.cells, j) == r
      ensures m.len <= j ==> m.Count() <= r
    {
    }

    lemma StandsNext(j: int, r: nat)
      requires if r < m.Count() then j == Position(m, r) < m.len else m.len < j
      ensures Stands(j, r)
    {
    }

    // Moves slot contents left: reading from the first slot after `end`, writing from `begin` on.
    method MoveLeft(begin: nat, end: int)
      requires Valid() && begin <= end + 1
      modifies buffer, this`contents
      ensures Valid() && |contents| == |old(contents)| == m.Count()
      ensures Rank(m.cells, begin) <= Rank(m.cells, end + 1) <= m.Count()
      ensures contents == ShiftLeft(m.Tests(), old(contents), Rank(m.cells, begin), Rank(m.cells, end + 1), m.placeholder)
    {
      hide *;
      Facts();
      RankBounds(m, begin, end + 1);
      ghost var s, a, b, k := contents, Rank(m.cells, begin), Rank(m.cells, end + 1), 0;
      ShiftedLeftStep(s, a, b, 0, m.placeholder);
      var i := begin;
      var j := SeekNext(end);
      StandsNext(j, b);
      while i < m.len
        invariant begin <= i && Valid() && |contents| == m.Count() && k <= Moves(m.Tests(), s, a, b)
        invariant contents == ShiftedLeft(s, a, b, k, m.placeholder)
        invariant Rank(m.cells, i) == a + k && Stands(j, b + k)
        decreases m.len - i
      {
        if IsSlot(m.cells, i) {
          SlotFacts(m, i);
          var moved, next := MoveOne(i, j, s, a, b, k);
          if !moved {
            return;
          }
          k, j := k + 1, next;
        } else {
          NoSlotFacts(m, i);
        }
        i := i + 1;
      }
      RankBounds(m, i, i);
      ShiftLeftProgress(m.Tests(), s, a, b, k, m.placeholder);
    }

    // The whole handler: a negative start is ignored; otherwise the element shows the result.
    method ShiftL(begin: int, end: int) returns (caret: int)
      requires Valid() && -1 <= begin <= end + 1
      modifies buffer, this`contents, this`value
      ensures Valid() && |contents| == |old(contents)| == m.Count()
      ensures begin < 0 ==> contents == old(contents) && value == old(value)
      ensures Rank(m.cells, begin) <= Rank(m.cells, end + 1) <= m.Count()
      ensures 0 <= begin ==>
        && contents == ShiftLeft(m.Tests(), old(contents), Rank(m.cells, begin), Rank(m.cells, end + 1), m.placeholder)
        && value == m.Show(contents)
        && caret == CaretFrom(m, begin)
    {
      hide *;
      Facts();
      RankBounds(m, begin, end + 1);
      if begin < 0 {
        return begin;
      }
      MoveLeft(begin, end);
      Facts();
      value := buffer[..];
      RankBounds(m, 0, 0);
      var first := SeekNext(-1);
      caret := if first < m.len && begin < first then first else begin;
      CaretFromIs(m, begin);
    }

    // Moves slot contents right from slot position pos, which becomes blank.
    method ShiftR(pos: nat)
      requires Valid() && IsSlot(m.cells, pos)
      modifies buffer, this`contents
      ensures Valid() && |contents| == |old(contents)| == m.Count() && Rank(m.cells, pos) < m.Count()
      ensures contents == ShiftRight(m.Tests(), old(contents), Rank(m.cells, pos), m.placeholder)
    {
      hide *;
      Facts();
      SlotFacts(m, pos);
      ghost var s, a := contents, Rank(m.cells, pos);
      ghost var d, k := DropSlot(m.Tests(), s, a), a;
      var i, c := pos, m.placeholder;
      ShiftedRightStep(s, a, a, m.placeholder);
      while i < m.len
        invariant pos <= i && Valid() && |contents| == m.Count() && a <= k <= d
        invariant Rank(m.cells, i) == k
        invariant contents == ShiftedRight(s, a, k, m.placeholder)
        invariant c == if k == a then m.placeholder else s[k - 1]
        invariant c == m.placeholder || m.Tests()[k](c)
        decreases m.len - i
      {
        if IsSlot(m.cells, i) {
          SlotFacts(m, i);
          var j := SeekNext(i);
          var t := Get(i);
          ShiftedRightStep(s, a, k, m.placeholder);
          Put(i, c);
          if j < m.len {
            SlotFacts(m, j);
          }
          ShiftRightProgress(m.Tests(), s, a, k, m.placeholder);
          if j < m.len && m.cells[j].accepts(t) {
            c := t;
            k := k + 1;
          } else {
            break;
          }
        } else {
          NoSlotFacts(m, i);
        }
        i := i + 1;
      }
      RankBounds(m, i, i);
    }

    // Reads the element's text back into the cells.
    method Check(allow: bool) returns (caret: Option<nat>)
      requires Valid()
      modifies buffer, this`contents, this`value
      ensures Valid() && |contents| == |old(contents)| == m.Count()
      ensures State(contents, value, focusText) == CheckVal(m, State(old(contents), old(value), focusText), allow)
      ensures caret == CheckedAt(m, State(old(contents), old(value), focusText))
    {
      hide *;
      Facts();
      ghost var s := contents;
      var text := value;
      var lastMatch, i, pos := -1, 0, 0;
      while i < m.len
        invariant i <= m.len && pos <= |text| && -1 <= lastMatch < |m.cells|
        invariant Valid() && |contents| == m.Count()
        invariant Read(m, s, text, 0, 0, -1) == Read(m, contents, text, i, pos, lastMatch)
        decreases m.len - i
      {
        if IsSlot(m.cells, i) {
          SlotFacts(m, i);
          ghost var c0, p0, r := contents, pos, Rank(m.cells, i);
          Put(i, m.placeholder);
          while pos < |text| && !m.cells[i].accepts(text[pos])
            invariant p0 <= pos <= |text|
            invariant forall p :: p0 <= p < pos ==> !m.cells[i].accepts(text[p])
          {
            pos := pos + 1;
          }
          ReadSlot(m, c0, text, i, p0, lastMatch, pos);
          if pos == |text| {
            break;
          }
          Put(i, text[pos]);
          assert contents == c0[r := text[pos]];
          lastMatch := i;
          pos := pos + 1;
        } else {
          Facts();
          ReadFixed(m, contents, text, i, pos, lastMatch);
          if i < |m.cells| && pos < |text| && buffer[i] == text[pos] && i != m.partial {
            pos := pos + 1;
            lastMatch := i;
          }
        }
        i := i + 1;
      }
      if i == m.len {
        ReadEnd(m, contents, text, pos, lastMatch);
      }
      assert Read(m, s, text, 0, 0, -1) == Reading(contents, i, lastMatch);
      ghost var read := contents;
      ghost var st0 := State(s, text, focusText);
      CheckValUnfold(m, st0, allow, contents, i, lastMatch);
      Facts();
      if !allow && lastMatch + 1 < m.partial {
        value := "";
        RankBounds(m, 0, m.len);
        ClearBuffer(0, m.len);
      } else {
        value := buffer[..];
        if !allow {
          value := value[..lastMatch + 1];
        }
      }
      caret := Some(i);
      if m.partial == 0 {
        var first := SeekNext(-1);
        RankBounds(m, 0, 0);
        caret := if first < m.len then Some(first) else None;
      }
      CheckedAtIs(m, st0, Reading(read, i, lastMatch));
    }

    method KeydownEvent(key: nat, begin: nat, end: nat) returns (selection: Option<(int, int)>)
      requires Valid() && begin <= end
      modifies buffer, this`contents, this`value
      ensures Valid() && |contents| == |old(contents)| == m.Count()
      ensures State(contents, value, focusText) == KeyDown(m, State(old(contents), old(value), focusText), key, begin, end)
      ensures selection == KeyDownCaret(m, State(old(contents), old(value), focusText), key, begin, end)
    {
      hide NextSlot, CaretFrom, CheckedAt;
      hide MaskSlots.Rank, MaskSlots.IsSlot, MaskSlots.ShiftLeft, MaskSlots.Clear, MaskSlots.WellFilled, MaskSlots.ShiftRight;
      hide InputMask.Position, InputMask.CheckVal, InputMask.Read, InputMask.Mask.Show, InputMask.Mask.Count, InputMask.Mask.Tests;
      Facts();
      RankBounds(m, begin, end);
      if key == BACKSPACE || key == DELETE {
        var from, to := begin as int, end as int;
        if end == begin {
          if key != DELETE {
            from := SeekPrev(begin);
            if 0 <= from {
              SlotFacts(m, from);
              PositionOfRank(m, from);
            }
            RankBounds(m, -1, begin);
          } else {
            from := SeekNext(begin - 1);
            to := SeekNext(from);
            if from < m.len {
              SlotFacts(m, from);
            }
            RankBounds(m, from, to);
          }
        }
        ghost var s := contents;
        ClearBuffer(from, to);
        ClearStep(s, 0, 0, m.placeholder);
        var caret := ShiftL(from, to - 1);
        selection := if from < 0 then None else Some((caret, caret));
      } else if key == ESCAPE {
        value := focusText;
        var caret := Check(false);
        selection := Some((0, if caret.Some? then caret.value else 0));
      } else {
        selection := None;
      }
    }

    method KeypressEvent(c: char, modified: bool, begin: nat, end: nat) returns (selection: Option<(int, int)>)
      requires Valid() && begin <= end
      modifies buffer, this`contents, this`value
      ensures Valid() && |contents| == |old(contents)| == m.Count()
      ensures State(contents, value, focusText) ==
        KeyPress(m, State(old(contents), old(value), focusText), c, modified, begin, end)
      ensures selection == KeyPressCaret(m, c, modified, begin, end)
      // After a character went in, the caret stands behind it.
      ensures !modified && 32 <= c as int && Rank(m.cells, begin) < m.Count() && m.Tests()[Rank(m.cells, begin)](c) ==>
        selection.Some? && begin < selection.value.0 && Rank(m.cells, selection.value.0) == Rank(m.cells, begin) + 1
    {
      hide NextSlot, CaretFrom, CheckedAt;
      hide MaskSlots.Rank, MaskSlots.IsSlot, MaskSlots.ShiftLeft, MaskSlots.Clear, MaskSlots.WellFilled, MaskSlots.ShiftRight;
      hide InputMask.Position, InputMask.CheckVal, InputMask.Read, InputMask.Mask.Show, InputMask.Mask.Count, InputMask.Mask.Tests;
      Facts();
      RankBounds(m, begin, end);
      selection := None;
      if modified || c as int < 32 {
        return;
      }
      if end != begin {
        ClearBuffer(begin, end);
        var caret := ShiftL(begin, end - 1);
        selection := Some((caret, caret));
      }
      var p := SeekNext(begin - 1);
      if p < m.len {
        SlotFacts(m, p);
        if m.cells[p].accepts(c) {
          ShiftR(p);
          Put(p, c);
          Facts();
          value := buffer[..];
          var next := SeekNext(p);
          selection := Some((next, next));
        }
      }
    }

    method PasteEvent() returns (selection: Option<(int, int)>)
      requires Valid()
      modifies buffer, this`contents, this`value
      ensures Valid() && |old(contents)| == m.Count() && St() == Step(m, old(St()), Pasted)
      ensures selection == match CheckedAt(m, old(St())) case None => None case Some(p) => Some((p, p))
    {
      Facts();
      var caret := Check(true);
      selection := if caret.Some? then Some((caret.value, caret.value)) else None;
    }

    method BlurEvent()
      requires Valid()
      modifies buffer, this`contents, this`value
      ensures Valid() && |old(contents)| == m.Count() && St() == Step(m, old(St()), Blur)
    {
      Facts();
      var _ := Check(false);
    }

    // A complete text is selected as a whole.
    method FocusEvent() returns (selection: Option<(int, int)>)
      requires Valid()
      modifies buffer, this
      ensures Valid() && |old(contents)| == m.Count() && St() == Step(m, old(St()), Focus)
      ensures selection ==
        match CheckedAt(m, old(St()))
        case None => None
        case Some(p) => if p == m.len then Some((0, p)) else Some((p, p))
    {
      Facts();
      focusText := value;
      var caret := Check(false);
      value := buffer[..];
      if caret.Some? {
        selection := if caret.value == m.len then Some((0, caret.value)) else Some((caret.value, caret.value));
      } else {
        selection := None;
      }
    }
  }

  // The two handlers in a row: type a character, then press backspace where the first one left the caret.
  method TypeAndDelete(ed: Editor, c: char, pos: nat)
    requires ed.Valid() && 32 <= c as int
    requires Rank(ed.m.cells, pos) < ed.m.Count() && ed.m.Tests()[Rank(ed.m.cells, pos)](c)
    requires FilledThenBlank(ed.contents, Rank(ed.m.cells, pos), ed.m.placeholder)
    requires ed.contents[DropSlot(ed.m.Tests(), ed.contents, Rank(ed.m.cells, pos))] == ed.m.placeholder
    modifies ed, ed.buffer
    ensures ed.Valid() && ed.buffer[..] == old(ed.buffer[..])
  {
    ghost var st := ed.St();
    var selection := ed.KeypressEvent(c, false, pos, pos);
    var caret := selection.value.0;
    var _ := ed.KeydownEvent(BACKSPACE, caret, caret);
    TypeThenBackspace(ed.m, st, c, pos, caret);
  }

  lemma NextSlotIs(m: Mask, pos: int)
    requires -1 <= pos
    ensures Rank(m.cells, pos + 1) < m.Count() ==> NextSlot(m, pos) == Position(m, Rank(m.cells, pos + 1))
    ensures Rank(m.cells, pos + 1) >= m.Count() ==> NextSlot(m, pos) == if pos < m.len then m.len + 1 else pos + 1
  {
  }

  lemma CaretFromIs(m: Mask, begin: nat)
    ensures CaretFrom(m, begin) == if m.Count() == 0 || Position(m, 0) < begin then begin else Position(m, 0)
  {
  }

  lemma CheckedAtIs(m: Mask, st: State, read: Reading)
    requires m.Valid() && |st.contents| == m.Count() && Read(m, st.contents, st.value, 0, 0, -1) == read
    ensures CheckedAt(m, st) ==
      if m.partial != 0 then Some(read.stop) else if m.Count() > 0 then Some(Position(m, 0)) else None
  {
  }
}
