/**
 Slot algebra of the masked input. A mask is a row of cells; the cells that carry a test are its slots.
 Everything the editor does to the text is a rearrangement of the slot contents, taken in mask order.
 */
module MaskSlots {

  // A literal cell shows its mask character; a slot shows any character its test accepts.
  datatype Cell = Fixed(text: char) | Slot(accepts: char -> bool)

  predicate IsSlot(cells: seq<Cell>, i: int) {
    0 <= i < |cells| && cells[i].Slot?
  }

  // The positions of the slots among the first n cells, in order.
  function Slots(cells: seq<Cell>, n: nat): (s: seq<nat>)
    requires n <= |cells|
    ensures forall r :: 0 <= r < |s| ==> s[r] < n && IsSlot(cells, s[r])
    ensures forall r, q :: 0 <= r < q < |s| ==> s[r] < s[q]
  {
    if n == 0 then []
    else if cells[n - 1].Slot? then Slots(cells, n - 1) + [n - 1]
    else Slots(cells, n - 1)
  }

  function AllSlots(cells: seq<Cell>): seq<nat> {
    Slots(cells, |cells|)
  }

  // The number of slots strictly before position i, for any integer i.
  function Rank(cells: seq<Cell>, i: int): nat {
    if i <= 0 then 0 else |Slots(cells, if i < |cells| then i else |cells|)|
  }

  function Tests(cells: seq<Cell>): (t: seq<char -> bool>)
    ensures |t| == |AllSlots(cells)|
    ensures forall r :: 0 <= r < |t| ==> t[r] == cells[AllSlots(cells)[r]].accepts
  {
    var s := AllSlots(cells);
    seq(|s|, r requires 0 <= r < |s| => cells[s[r]].accepts)
  }

  lemma {:induction false} SlotsPrefix(cells: seq<Cell>, m: nat, n: nat)
    requires m <= n <= |cells|
    ensures Slots(cells, m) <= Slots(cells, n)
    decreases n
  {
    if m == n {
    } else {
      SlotsPrefix(cells, m, n - 1);
    }
  }

  // Rank counts up by one exactly at a slot, and a slot's rank is its index among the slots.
  lemma {:induction false} RankStep(cells: seq<Cell>, i: nat)
    ensures Rank(cells, i + 1) == Rank(cells, i) + (if IsSlot(cells, i) then 1 else 0)
    ensures Rank(cells, i) <= Rank(cells, i + 1) <= |AllSlots(cells)|
    ensures IsSlot(cells, i) ==> Rank(cells, i) < |AllSlots(cells)| && AllSlots(cells)[Rank(cells, i)] == i
  {
    if i < |cells| {
      SlotsPrefix(cells, i + 1, |cells|);
      SlotsPrefix(cells, i, |cells|);
    }
  }

  lemma {:induction false} RankMonotone(cells: seq<Cell>, i: int, j: int)
    requires i <= j
    ensures Rank(cells, i) <= Rank(cells, j) <= |AllSlots(cells)|
  {
    if 0 < j {
      SlotsPrefix(cells, if j < |cells| then j else |cells|, |cells|);
      if 0 < i {
        SlotsPrefix(cells, if i < |cells| then i else |cells|, if j < |cells| then j else |cells|);
      }
    }
  }

  lemma {:induction false} RankOfSlot(cells: seq<Cell>, r: nat)
    requires r < |AllSlots(cells)|
    ensures Rank(cells, AllSlots(cells)[r]) == r
  {
    RankStep(cells, AllSlots(cells)[r]);
  }

  // ---- operations on slot contents ----

  // Each slot is empty (shows the placeholder) or shows a character it accepts.
  predicate WellFilled(tests: seq<char -> bool>, s: seq<char>, ph: char) {
    |s| == |tests| && forall r :: 0 <= r < |s| ==> s[r] == ph || tests[r](s[r])
  }

  function Fill(n: nat, ph: char): (s: seq<char>)
    ensures |s| == n && forall i :: 0 <= i < n ==> s[i] == ph
  {
    seq(n, _ => ph)
  }

  function Clear(s: seq<char>, a: nat, b: nat, ph: char): seq<char>
    requires a <= b <= |s|
  {
    s[..a] + Fill(b - a, ph) + s[b..]
  }

  lemma ClearStep(s: seq<char>, a: nat, b: nat, ph: char)
    requires a <= b <= |s|
    ensures Clear(s, a, a, ph) == s && |Clear(s, a, b, ph)| == |s|
    ensures b < |s| ==> Clear(s, a, b, ph)[b := ph] == Clear(s, a, b + 1, ph)
  {
  }

  // How many contents from slot b on can move, one after the other, to the slots from a on.
  function Moves(tests: seq<char -> bool>, s: seq<char>, a: nat, b: nat): (n: nat)
    requires |s| == |tests| && a <= b <= |s|
    ensures b + n <= |s|
    ensures b + n < |s| ==> !tests[a + n](s[b + n])
    decreases |s| - b
  {
    if b < |s| && tests[a](s[b]) then 1 + Moves(tests, s, a + 1, b + 1) else 0
  }

  lemma {:induction false} MoveAccepted(tests: seq<char -> bool>, s: seq<char>, a: nat, b: nat, k: nat)
    requires |s| == |tests| && a <= b <= |s| && k < Moves(tests, s, a, b)
    ensures tests[a + k](s[b + k])
    decreases k
  {
    if k == 0 {
    } else {
      MoveAccepted(tests, s, a + 1, b + 1, k - 1);
    }
  }

  // Slot contents after k steps of a left shift from slot b to slot a. With a == b the source's read and
  // write positions coincide, so the contents passed over are wiped.
  function ShiftedLeft(s: seq<char>, a: nat, b: nat, k: nat, ph: char): (t: seq<char>)
    requires a <= b && b + k <= |s|
    ensures |t| == |s|
  {
    seq(|s|, r requires 0 <= r < |s| =>
      if a <= r < a + k then (if a == b then ph else s[r + b - a])
      else if b <= r < b + k then ph
      else s[r])
  }

  lemma ShiftedLeftStep(s: seq<char>, a: nat, b: nat, k: nat, ph: char)
    requires a <= b && b + k <= |s|
    ensures ShiftedLeft(s, a, b, 0, ph) == s
    ensures b + k < |s| ==>
      var t := ShiftedLeft(s, a, b, k, ph);
      t[b + k] == s[b + k] && ShiftedLeft(s, a, b, k + 1, ph) == t[a + k := s[b + k]][b + k := ph]
  {
  }

  function ShiftLeft(tests: seq<char -> bool>, s: seq<char>, a: nat, b: nat, ph: char): (t: seq<char>)
    requires |s| == |tests| && a <= b <= |s|
    ensures |t| == |s|
  {
    ShiftedLeft(s, a, b, Moves(tests, s, a, b), ph)
  }

  // A shift in progress goes on while the next content is accepted, and is complete otherwise.
  lemma {:induction false} ShiftLeftProgress(tests: seq<char -> bool>, s: seq<char>, a: nat, b: nat, k: nat, ph: char)
    requires |s| == |tests| && a <= b <= |s| && k <= Moves(tests, s, a, b)
    ensures b + k < |s| && tests[a + k](s[b + k]) ==> k < Moves(tests, s, a, b)
    ensures !(b + k < |s| && tests[a + k](s[b + k])) ==> ShiftedLeft(s, a, b, k, ph) == ShiftLeft(tests, s, a, b, ph)
  {
    if k < Moves(tests, s, a, b) {
      MoveAccepted(tests, s, a, b, k);
    }
  }

  // Deleting the slots a..b: clear them, then close the gap.
  function Erase(tests: seq<char -> bool>, s: seq<char>, a: nat, b: nat, ph: char): (t: seq<char>)
    requires |s| == |tests| && a <= b <= |s|
    ensures |t| == |s|
  {
    ShiftLeft(tests, Clear(s, a, b, ph), a, b, ph)
  }

  // The slot whose content a right shift from slot a drops: the first one whose successor refuses it.
  function DropSlot(tests: seq<char -> bool>, s: seq<char>, a: nat): (d: nat)
    requires |s| == |tests| && a < |s|
    ensures a <= d < |s|
    ensures d + 1 < |s| ==> !tests[d + 1](s[d])
    decreases |s| - a
  {
    if a + 1 < |s| && tests[a + 1](s[a]) then DropSlot(tests, s, a + 1) else a
  }

  lemma {:induction false} DropAccepted(tests: seq<char -> bool>, s: seq<char>, a: nat, r: nat)
    requires |s| == |tests| && a <= r < |s| && r < DropSlot(tests, s, a)
    ensures tests[r + 1](s[r])
    decreases r - a
  {
    if a == r {
    } else {
      DropAccepted(tests, s, a + 1, r);
    }
  }

  // Slot contents after a right shift from slot a has passed the slots before m.
  function ShiftedRight(s: seq<char>, a: nat, m: nat, ph: char): (t: seq<char>)
    requires m <= |s|
    ensures |t| == |s|
  {
    seq(|s|, r requires 0 <= r < |s| => if r < a || m <= r then s[r] else if r == a then ph else s[r - 1])
  }

  lemma ShiftedRightStep(s: seq<char>, a: nat, k: nat, ph: char)
    requires a <= k < |s|
    ensures ShiftedRight(s, a, a, ph) == s && ShiftedRight(s, a, k, ph)[k] == s[k]
    ensures ShiftedRight(s, a, k + 1, ph) == ShiftedRight(s, a, k, ph)[k := if k == a then ph else s[k - 1]]
  {
  }

  function ShiftRight(tests: seq<char -> bool>, s: seq<char>, a: nat, ph: char): (t: seq<char>)
    requires |s| == |tests| && a < |s|
    ensures |t| == |s|
  {
    ShiftedRight(s, a, DropSlot(tests, s, a) + 1, ph)
  }

  lemma ShiftRightProgress(tests: seq<char -> bool>, s: seq<char>, a: nat, k: nat, ph: char)
    requires |s| == |tests| && a < |s| && a <= k <= DropSlot(tests, s, a)
    ensures k + 1 < |s| && tests[k + 1](s[k]) ==> k < DropSlot(tests, s, a)
    ensures !(k + 1 < |s| && tests[k + 1](s[k])) ==> ShiftedRight(s, a, k + 1, ph) == ShiftRight(tests, s, a, ph)
  {
    if k < DropSlot(tests, s, a) {
      DropAccepted(tests, s, a, k);
    }
  }

  // Typing c at slot a: nothing happens unless the slot accepts c.
  function Insert(tests: seq<char -> bool>, s: seq<char>, a: nat, c: char, ph: char): (t: seq<char>)
    requires |s| == |tests| && a <= |s|
    ensures |t| == |s|
  {
    if a < |s| && tests[a](c) then ShiftRight(tests, s, a, ph)[a := c] else s
  }

  // ---- what the operations keep ----

  lemma ClearKeepsWellFilled(tests: seq<char -> bool>, s: seq<char>, a: nat, b: nat, ph: char)
    requires a <= b <= |s| && WellFilled(tests, s, ph)
    ensures WellFilled(tests, Clear(s, a, b, ph), ph)
  {
    var c := Clear(s, a, b, ph);
    assert forall r :: 0 <= r < |s| ==> c[r] == if a <= r < b then ph else s[r];
  }

  lemma ShiftLeftKeepsWellFilled(tests: seq<char -> bool>, s: seq<char>, a: nat, b: nat, ph: char)
    requires a <= b <= |s| && WellFilled(tests, s, ph)
    ensures WellFilled(tests, ShiftLeft(tests, s, a, b, ph), ph)
  {
    var t := ShiftLeft(tests, s, a, b, ph);
    forall r | 0 <= r < |s| ensures t[r] == ph || tests[r](t[r]) {
      if a <= r < a + Moves(tests, s, a, b) {
        MoveAccepted(tests, s, a, b, r - a);
      }
    }
  }

  lemma ShiftRightKeepsWellFilled(tests: seq<char -> bool>, s: seq<char>, a: nat, ph: char)
    requires a < |s| && WellFilled(tests, s, ph)
    ensures WellFilled(tests, ShiftRight(tests, s, a, ph), ph)
  {
    var t := ShiftRight(tests, s, a, ph);
    forall r | 0 <= r < |s| ensures t[r] == ph || tests[r](t[r]) {
      if a < r <= DropSlot(tests, s, a) {
        DropAccepted(tests, s, a, r - 1);
      }
    }
  }

  lemma InsertKeepsWellFilled(tests: seq<char -> bool>, s: seq<char>, a: nat, c: char, ph: char)
    requires a < |s| && WellFilled(tests, s, ph)
    ensures WellFilled(tests, Insert(tests, s, a, c, ph), ph)
  {
    hide ShiftRight;
    ShiftRightKeepsWellFilled(tests, s, a, ph);
  }

  // The typed characters, in order: everything that is not the placeholder.
  function Typed(s: seq<char>, ph: char): (t: seq<char>)
    ensures |t| <= |s|
  {
    if s == [] then [] else (if s[0] == ph then [] else [s[0]]) + Typed(s[1..], ph)
  }

  lemma {:induction false} TypedConcat(s: seq<char>, t: seq<char>, ph: char)
    ensures Typed(s + t, ph) == Typed(s, ph) + Typed(t, ph)
  {
    if s == [] {
      assert s + t == t;
    } else {
      assert (s + t)[1..] == s[1..] + t;
      TypedConcat(s[1..], t, ph);
    }
  }

  lemma {:induction false} TypedOfBlank(s: seq<char>, ph: char)
    ensures Typed(s, ph) == [] <==> forall i :: 0 <= i < |s| ==> s[i] == ph
  {
    if s == [] {
    } else {
      TypedOfBlank(s[1..], ph);
      assert forall i :: 1 <= i < |s| ==> s[i] == s[1..][i - 1];
    }
  }

  lemma TypedOfParts(w: seq<char>, x: seq<char>, y: seq<char>, z: seq<char>, ph: char)
    ensures Typed(w + x + y + z, ph) == Typed(w, ph) + Typed(x, ph) + Typed(y, ph) + Typed(z, ph)
  {
    TypedConcat(w + x + y, z, ph);
    TypedConcat(w + x, y, ph);
    TypedConcat(w, x, ph);
  }

  lemma MultisetOfParts<T>(w: seq<T>, x: seq<T>, y: seq<T>, z: seq<T>)
    ensures multiset(w + x + y + z) == multiset(w) + multiset(x) + multiset(y) + multiset(z)
  {
  }

  // With a slot in the erased range, closing the gap rotates the cleared block past the moved contents.
  lemma EraseRotates(tests: seq<char -> bool>, s: seq<char>, a: nat, b: nat, ph: char) returns (m: nat)
    requires |s| == |tests| && a < b <= |s|
    ensures m == b + Moves(tests, Clear(s, a, b, ph), a, b) <= |s|
    ensures Erase(tests, s, a, b, ph) == s[..a] + s[b..m] + Fill(b - a, ph) + s[m..]
  {
    var c := Clear(s, a, b, ph);
    m := b + Moves(tests, c, a, b);
    assert forall r :: b <= r < |s| ==> c[r] == s[r];
    assert forall r :: a <= r < b ==> c[r] == ph;
    assert forall r :: 0 <= r < a ==> c[r] == s[r];
    var g := s[..a] + s[b..m] + Fill(b - a, ph) + s[m..];
    forall r | 0 <= r < |s| ensures Erase(tests, s, a, b, ph)[r] == g[r] {
    }
  }

  lemma RotatedParts(x: seq<char>, y: seq<char>, n: nat, z: seq<char>, ph: char)
    ensures Typed(x + y + Fill(n, ph) + z, ph) == Typed(x, ph) + Typed(y + z, ph)
    ensures multiset(x + y + Fill(n, ph) + z) == multiset(x + Fill(n, ph) + (y + z))
  {
    hide Typed, Fill;
    MultisetOfParts(x, y, Fill(n, ph), z);
    MultisetOfParts(x, Fill(n, ph), y, z);
    assert x + Fill(n, ph) + (y + z) == x + Fill(n, ph) + y + z;
    assert Typed(x + y + Fill(n, ph) + z, ph) == Typed(x, ph) + Typed(y + z, ph) by {
      TypedOfBlank(Fill(n, ph), ph);
      TypedOfParts(x, y, Fill(n, ph), z, ph);
      TypedConcat(y, z, ph);
    }
  }

  // Erasing a range that holds a slot loses exactly what the range held: the other characters keep
  // their order, and the slot contents are a permutation of the cleared ones.
  lemma EraseConserves(tests: seq<char -> bool>, s: seq<char>, a: nat, b: nat, ph: char)
    requires |s| == |tests| && a < b <= |s|
    ensures Typed(Erase(tests, s, a, b, ph), ph) == Typed(s[..a], ph) + Typed(s[b..], ph)
    ensures multiset(Erase(tests, s, a, b, ph)) == multiset(Clear(s, a, b, ph))
  {
    hide Typed, Erase, Moves;
    var m := EraseRotates(tests, s, a, b, ph);
    assert s[b..] == s[b..m] + s[m..];
    RotatedParts(s[..a], s[b..m], b - a, s[m..], ph);
  }

  // Erasing a single slot.
  lemma EraseOne(tests: seq<char -> bool>, s: seq<char>, a: nat, ph: char)
    requires |s| == |tests| && a < |s|
    ensures var t := Erase(tests, s, a, a + 1, ph);
      && Typed(t, ph) == Typed(s[..a], ph) + Typed(s[a + 1..], ph)
      && multiset(t) == multiset(s[..a] + [ph] + s[a + 1..]) && t[..a] == s[..a]
  {
    hide Typed, Erase, Moves;
    EraseConserves(tests, s, a, a + 1, ph);
    var m := EraseRotates(tests, s, a, a + 1, ph);
    assert Fill(1, ph) == [ph];
  }

  lemma EraseAtEnd(tests: seq<char -> bool>, s: seq<char>, ph: char)
    requires |s| == |tests|
    ensures Erase(tests, s, |s|, |s|, ph) == s
  {
    EraseEmptyRangeWipes(tests, s, |s|, ph);
    assert Clear(s, |s|, |s|, ph) == s;
  }

  lemma TypedSplit(s: seq<char>, i: nat, j: nat, ph: char)
    requires i <= j <= |s|
    ensures Typed(s, ph) == Typed(s[..i], ph) + Typed(s[i..j], ph) + Typed(s[j..], ph)
  {
    hide Typed;
    assert s == s[..i] + s[i..j] + s[j..];
    TypedConcat(s[..i] + s[i..j], s[j..], ph);
    TypedConcat(s[..i], s[i..j], ph);
  }

  // Without a slot in the range the contents from slot a on are wiped up to the first refusal.
  lemma EraseEmptyRangeWipes(tests: seq<char -> bool>, s: seq<char>, a: nat, ph: char)
    requires |s| == |tests| && a <= |s|
    ensures Erase(tests, s, a, a, ph) == Clear(s, a, a + Moves(tests, s, a, a), ph)
  {
    assert Clear(s, a, a, ph) == s;
  }

  // So nothing is lost exactly when those slots were blank already.
  lemma EraseEmptyRange(tests: seq<char -> bool>, s: seq<char>, a: nat, ph: char)
    requires |s| == |tests| && a <= |s|
    ensures var n := Moves(tests, s, a, a);
            Typed(Erase(tests, s, a, a, ph), ph) == Typed(s, ph) <==> forall r :: a <= r < a + n ==> s[r] == ph
  {
    hide Typed, Moves, Erase;
    var n := Moves(tests, s, a, a);
    var t := Clear(s, a, a + n, ph);
    EraseEmptyRangeWipes(tests, s, a, ph);
    TypedSplit(s, a, a + n, ph);
    TypedSplit(t, a, a + n, ph);
    assert t[..a] == s[..a] && t[a..a + n] == Fill(n, ph) && t[a + n..] == s[a + n..];
    TypedOfBlank(Fill(n, ph), ph);
    TypedOfBlank(s[a..a + n], ph);
    assert forall r :: a <= r < a + n ==> s[r] == s[a..a + n][r - a];
  }

  // A right shift cuts the value it displaced last and opens a hole at its start.
  lemma ShiftRightParts(tests: seq<char -> bool>, s: seq<char>, a: nat, ph: char) returns (d: nat)
    requires |s| == |tests| && a < |s|
    ensures d == DropSlot(tests, s, a)
    ensures s == s[..a] + s[a..d] + [s[d]] + s[d + 1..]
    ensures ShiftRight(tests, s, a, ph) == s[..a] + [ph] + s[a..d] + s[d + 1..]
  {
    d := DropSlot(tests, s, a);
    var g := s[..a] + [ph] + s[a..d] + s[d + 1..];
    forall r | 0 <= r < |s| ensures ShiftRight(tests, s, a, ph)[r] == g[r] {
    }
  }

  lemma SwappedPart(x: seq<char>, y: seq<char>, c: char, z: seq<char>, ph: char)
    ensures multiset(x + [ph] + y + z) + multiset{c} == multiset(x + y + [c] + z) + multiset{ph}
    ensures Typed(x + [ph] + y + z, ph) == Typed(x, ph) + Typed(y, ph) + Typed(z, ph)
  {
    hide Typed;
    MultisetOfParts(x, [ph], y, z);
    MultisetOfParts(x, y, [c], z);
    assert Typed(x + [ph] + y + z, ph) == Typed(x, ph) + Typed(y, ph) + Typed(z, ph) by {
      TypedOfParts(x, [ph], y, z, ph);
      TypedOfBlank([ph], ph);
    }
  }

  // So it loses at most one value and touches nothing before the start or after the stopping slot.
  lemma ShiftRightLosesOne(tests: seq<char -> bool>, s: seq<char>, a: nat, ph: char)
    requires |s| == |tests| && a < |s|
    ensures var d := DropSlot(tests, s, a);
            var t := ShiftRight(tests, s, a, ph);
            && t[a] == ph && t[..a] == s[..a] && t[d + 1..] == s[d + 1..]
            && multiset(t) + multiset{s[d]} == multiset(s) + multiset{ph}
            && Typed(t, ph) == Typed(s[..a], ph) + Typed(s[a..d], ph) + Typed(s[d + 1..], ph)
  {
    var d := ShiftRightParts(tests, s, a, ph);
    var t := ShiftRight(tests, s, a, ph);
    assert t[..a] == s[..a] && t[d + 1..] == s[d + 1..];
    SwappedPart(s[..a], s[a..d], s[d], s[d + 1..], ph);
  }

  // Characters up to a first hole, and only holes after it.
  predicate FilledThenBlank(s: seq<char>, a: nat, ph: char) {
    forall r, q :: a <= r <= q < |s| && s[r] == ph ==> s[q] == ph
  }

  // A tail that was shifted right up to a blank slot d shifts back exactly.
  lemma ShiftBack(tests: seq<char -> bool>, s: seq<char>, v: seq<char>, a: nat, d: nat, ph: char)
    requires WellFilled(tests, s, ph) && FilledThenBlank(s, a, ph) && a <= d < |s| && s[d] == ph
    requires |v| == |s|
    requires forall r {:trigger v[r]} :: 0 <= r < |s| ==> v[r] == if r < a || d < r then s[r] else if r == a then ph else s[r - 1]
    ensures ShiftLeft(tests, v, a, a + 1, ph) == s
  {
    var n := Moves(tests, v, a, a + 1);
    // The shift stops at a slot that was blank, because an occupied slot accepts its old character back.
    assert s[a + n] == ph by {
      if a + n < d {
        assert v[a + n + 1] == s[a + n];
      }
    }
    var e := ShiftLeft(tests, v, a, a + 1, ph);
    forall r | 0 <= r < |s| ensures e[r] == s[r] {
      if a <= r < a + n {
        assert e[r] == v[r + 1] == if d < r + 1 then s[r + 1] else s[r];
        assert d <= r ==> s[r] == ph == s[r + 1];
      } else {
        assert e[r] == if r == a + n then ph else v[r];
        assert a + n < r ==> s[r - 1] == ph == s[r];
      }
    }
  }

  // Typing a character and deleting it again is the identity, whatever mix of tests the slots have,
  // provided the contents from there on are characters followed by holes and the shift dropped a hole.
  lemma TypeThenErase(tests: seq<char -> bool>, s: seq<char>, a: nat, c: char, ph: char)
    requires WellFilled(tests, s, ph) && a < |s| && tests[a](c)
    requires FilledThenBlank(s, a, ph)
    requires s[DropSlot(tests, s, a)] == ph
    ensures Erase(tests, Insert(tests, s, a, c, ph), a, a + 1, ph) == s
  {
    hide Moves, ShiftLeft, FilledThenBlank, DropSlot;
    var t := Insert(tests, s, a, c, ph);
    ShiftBack(tests, s, Clear(t, a, a + 1, ph), a, DropSlot(tests, s, a), ph);
  }

  // When the shift drops a character, no deletion brings it back.
  lemma DroppedIsLost(tests: seq<char -> bool>, s: seq<char>, a: nat, c: char, ph: char)
    requires |s| == |tests| && a < |s| && tests[a](c)
    requires s[DropSlot(tests, s, a)] != ph
    ensures |Typed(Erase(tests, Insert(tests, s, a, c, ph), a, a + 1, ph), ph)| == |Typed(s, ph)| - 1
  {
    var t, d := InsertParts(tests, s, a, c, ph);
    hide *;
    EraseConserves(tests, t, a, a + 1, ph);
    TypedConcat(s[a..d], s[d + 1..], ph);
    TypedOfParts(s[..a], s[a..d], [s[d]], s[d + 1..], ph);
    TypedOfOne(s[d], ph);
  }

  lemma InsertParts(tests: seq<char -> bool>, s: seq<char>, a: nat, c: char, ph: char) returns (t: seq<char>, d: nat)
    requires |s| == |tests| && a < |s| && tests[a](c)
    ensures t == Insert(tests, s, a, c, ph) && d == DropSlot(tests, s, a)
    ensures t[..a] == s[..a] && t[a + 1..] == s[a..d] + s[d + 1..]
    ensures s == s[..a] + s[a..d] + [s[d]] + s[d + 1..]
  {
    hide DropSlot, ShiftRight;
    t := Insert(tests, s, a, c, ph);
    d := ShiftRightParts(tests, s, a, ph);
    ReplacedAt(s[..a], ph, c, s[a..d], s[d + 1..]);
  }

  // The character goes in, and those behind it move up to where one is dropped.
  lemma InsertIs(tests: seq<char -> bool>, s: seq<char>, a: nat, c: char, ph: char)
    requires |s| == |tests| && a < |s| && tests[a](c)
    ensures var d := DropSlot(tests, s, a); Insert(tests, s, a, c, ph) == s[..a] + [c] + s[a..d] + s[d + 1..]
  {
    hide DropSlot;
    var t, d := InsertParts(tests, s, a, c, ph);
    assert t == t[..a] + [t[a]] + t[a + 1..];
    assert s[..a] + [c] + (s[a..d] + s[d + 1..]) == s[..a] + [c] + s[a..d] + s[d + 1..];
  }

  lemma ReplacedAt<T>(x: seq<T>, h: T, c: T, y: seq<T>, z: seq<T>)
    ensures (x + [h] + y + z)[|x| := c][..|x|] == x
    ensures (x + [h] + y + z)[|x| := c][|x| + 1..] == y + z
  {
  }

  lemma TypedOfOne(c: char, ph: char)
    ensures Typed([c], ph) == if c == ph then [] else [c]
  {
  }
}
