/**
 The shape list of the canvas: ids in paint order and a table from ids to shapes.
 */
module ShapeCanvas {

  // What matters of a shape: the chart region it belongs to and whether it was drawn highlighted.
  datatype Shape = Shape(region: nat, lit: bool)

  datatype Canvas = Canvas(order: seq<nat>, shapes: map<nat, Shape>)

  ghost predicate NoDuplicates(s: seq<nat>) {
    forall i, j :: 0 <= i < j < |s| ==> s[i] != s[j]
  }

  // The list has no duplicates and names exactly the shapes of the table.
  ghost predicate Consistent(c: Canvas) {
    NoDuplicates(c.order) && forall id :: id in c.order <==> id in c.shapes
  }

  ghost predicate Painted(c: Canvas) {
    forall i :: 0 <= i < |c.order| ==> c.order[i] in c.shapes
  }

  // The regions in paint order.
  ghost function Regions(c: Canvas): seq<nat>
    requires Painted(c)
  {
    seq(|c.order|, i requires 0 <= i < |c.order| => c.shapes[c.order[i]].region)
  }

  function Renamed(s: seq<nat>, gone: nat, id: nat): (r: seq<nat>)
    ensures |r| == |s|
    ensures forall i :: 0 <= i < |s| ==> r[i] == if s[i] == gone then id else s[i]
  {
    seq(|s|, i requires 0 <= i < |s| => if s[i] == gone then id else s[i])
  }

  function ReplaceOne(c: Canvas, gone: nat, id: nat, shape: Shape): Canvas {
    Canvas(Renamed(c.order, gone, id), c.shapes[id := shape] - {gone})
  }

  function Filtered(s: seq<nat>, olds: seq<nat>): (r: seq<nat>)
    ensures |r| <= |s|
  {
    if s == [] then [] else (if s[0] in olds then [] else [s[0]]) + Filtered(s[1..], olds)
  }

  // The first position of an id to be replaced; 0 when there is none.
  function FirstOf(s: seq<nat>, olds: seq<nat>): (i: nat)
    ensures i <= |s|
  {
    if exists k :: 0 <= k < |s| && s[k] in olds then
      if s[0] in olds then 0 else
        assert exists k :: 0 <= k < |s[1..]| && s[1..][k] in olds by {
          var k :| 0 <= k < |s| && s[k] in olds;
          assert s[1..][k - 1] == s[k];
        }
        1 + FirstOf(s[1..], olds)
    else 0
  }

  lemma {:induction false} FirstFits(s: seq<nat>, olds: seq<nat>)
    ensures FirstOf(s, olds) <= |Filtered(s, olds)|
    ensures forall k :: 0 <= k < FirstOf(s, olds) ==> s[k] !in olds
    ensures (exists k :: 0 <= k < |s| && s[k] in olds) ==> FirstOf(s, olds) < |s| && s[FirstOf(s, olds)] in olds
  {
    if exists k :: 0 <= k < |s| && s[k] in olds {
      if s[0] !in olds {
        FirstFits(s[1..], olds);
        assert exists k :: 0 <= k < |s[1..]| && s[1..][k] in olds by {
          var k :| 0 <= k < |s| && s[k] in olds;
          assert s[1..][k - 1] == s[k];
        }
      }
    }
  }

  function TableOf(ids: seq<nat>, shapes: seq<Shape>): (m: map<nat, Shape>)
    requires |ids| == |shapes|
    ensures forall id :: id in m <==> id in ids
  {
    if ids == [] then map[] else TableOf(ids[1..], shapes[1..])[ids[0] := shapes[0]]
  }

  // The old shapes go, the new ones come in where the first of them was.
  function ReplaceMany(c: Canvas, olds: seq<nat>, ids: seq<nat>, shapes: seq<Shape>): Canvas
    requires |ids| == |shapes|
  {
    FirstFits(c.order, olds);
    var kept, first := Filtered(c.order, olds), FirstOf(c.order, olds);
    Canvas(kept[..first] + ids + kept[first..], (c.shapes - (set id | id in c.order && id in olds)) + TableOf(ids, shapes))
  }

  // ---- replacing a block of the paint order ----

  lemma RenamedBlock(a: seq<nat>, gone: nat, b: seq<nat>, id: nat)
    requires NoDuplicates(a + [gone] + b)
    ensures Renamed(a + [gone] + b, gone, id) == a + [id] + b
  {
    var s := a + [gone] + b;
    forall i | 0 <= i < |s| ensures Renamed(s, gone, id)[i] == (a + [id] + b)[i] {
      if i != |a| {
        assert s[|a|] == gone;
        assert s[i] != gone by {
          if i < |a| { assert s[i] != s[|a|]; } else { assert s[|a|] != s[i]; }
        }
      }
    }
  }

  lemma {:induction false} FilteredConcat(s: seq<nat>, t: seq<nat>, olds: seq<nat>)
    ensures Filtered(s + t, olds) == Filtered(s, olds) + Filtered(t, olds)
  {
    if s == [] {
      assert s + t == t;
    } else {
      assert (s + t)[1..] == s[1..] + t;
      FilteredConcat(s[1..], t, olds);
    }
  }

  lemma {:induction false} FilteredDisjoint(s: seq<nat>, olds: seq<nat>)
    requires forall i :: 0 <= i < |s| ==> s[i] !in olds
    ensures Filtered(s, olds) == s
  {
    if s == [] {
    } else {
      FilteredDisjoint(s[1..], olds);
    }
  }

  lemma {:induction false} FilteredAll(s: seq<nat>, olds: seq<nat>)
    requires forall i :: 0 <= i < |s| ==> s[i] in olds
    ensures Filtered(s, olds) == []
  {
    if s == [] {
    } else {
      FilteredAll(s[1..], olds);
    }
  }

  lemma BlockOutside(a: seq<nat>, olds: seq<nat>, b: seq<nat>)
    requires NoDuplicates(a + olds + b)
    ensures forall i :: 0 <= i < |a| ==> a[i] !in olds
    ensures forall i :: 0 <= i < |b| ==> b[i] !in olds
  {
    var s := a + olds + b;
    forall i, k | 0 <= i < |a| && 0 <= k < |olds| ensures a[i] != olds[k] {
      assert s[i] == a[i] && s[|a| + k] == olds[k];
    }
    forall i, k | 0 <= i < |b| && 0 <= k < |olds| ensures b[i] != olds[k] {
      assert s[|a| + |olds| + i] == b[i] && s[|a| + k] == olds[k];
    }
  }

  lemma ReplacedBlock(c: Canvas, a: seq<nat>, olds: seq<nat>, b: seq<nat>, ids: seq<nat>, shapes: seq<Shape>)
    requires NoDuplicates(c.order) && c.order == a + olds + b && |ids| == |shapes|
    requires olds == [] ==> ids == []
    ensures ReplaceMany(c, olds, ids, shapes).order == a + ids + b
  {
    hide NoDuplicates, Filtered, FirstOf, TableOf;
    BlockOutside(a, olds, b);
    FilteredDisjoint(a, olds);
    FilteredDisjoint(b, olds);
    FilteredAll(olds, olds);
    FilteredConcat(a + olds, b, olds);
    FilteredConcat(a, olds, olds);
    FirstFits(c.order, olds);
    if olds == [] {
      assert a + [] + b == a + b;
    } else {
      FirstOfBlock(a, olds, b);
    }
    assert Filtered(c.order, olds) == a + b;
  }

  lemma FirstOfBlock(a: seq<nat>, olds: seq<nat>, b: seq<nat>)
    requires olds != [] && forall i :: 0 <= i < |a| ==> a[i] !in olds
    ensures FirstOf(a + olds + b, olds) == |a|
  {
    var s := a + olds + b;
    FirstFits(s, olds);
    assert s[|a|] == olds[0];
    assert forall i :: 0 <= i < |a| ==> s[i] == a[i];
  }

  // ---- the canvas object ----

  class VCanvas {
    var order: seq<nat>
    var shapes: map<nat, Shape>

    ghost function Value(): Canvas
      reads this
    {
      Canvas(order, shapes)
    }

    constructor ()
      ensures Value() == Canvas([], map[])
    {
      order, shapes := [], map[];
    }

    method AppendShape(id: nat, shape: Shape)
      modifies this
      ensures Value() == Canvas(old(order) + [id], old(shapes)[id := shape])
    {
      shapes := shapes[id := shape];
      order := order + [id];
    }

    method ReplaceWithShape(gone: nat, id: nat, shape: Shape)
      modifies this
      ensures Value() == ReplaceOne(old(Value()), gone, id, shape)
    {
      shapes := shapes[id := shape];
      var i := |order|;
      while i > 0
        invariant 0 <= i <= |order| == |old(order)|
        invariant forall k :: 0 <= k < i ==> order[k] == old(order)[k]
        invariant forall k :: i <= k < |order| ==> order[k] == if old(order)[k] == gone then id else old(order)[k]
        invariant shapes == old(shapes)[id := shape]
      {
        i := i - 1;
        if order[i] == gone {
          order := order[i := id];
        }
      }
      shapes := shapes - {gone};
      assert order == Renamed(old(order), gone, id);
    }

    // Takes the old ids out and puts the new ones where the foremost of them was.
    method ReplaceWithShapes(olds: seq<nat>, ids: seq<nat>, news: seq<Shape>)
      requires |ids| == |news|
      modifies this
      ensures Value() == ReplaceMany(old(Value()), olds, ids, news)
    {
      hide Filtered, FirstOf, TableOf;
      FirstFits(order, olds);
      var kept, cut, first := TakeOut(order, shapes, olds);
      order, shapes := PutIn(kept, cut, first, ids, news);
    }
  }

  // The first loop runs from the end and remembers the last place it cut.
  method TakeOut(s: seq<nat>, table: map<nat, Shape>, olds: seq<nat>) returns (kept: seq<nat>, cut: map<nat, Shape>, first: nat)
    ensures kept == Filtered(s, olds) && first == FirstOf(s, olds)
    ensures cut == table - (set id | id in s && id in olds)
  {
    hide Filtered, FirstOf;
    kept, cut, first := s, table, 0;
    var i := |s|;
    CutStart(s, olds);
    while i > 0
      invariant 0 <= i <= |s|
      invariant kept == s[..i] + Filtered(s[i..], olds)
      invariant first == CutFirst(s, olds, i)
      invariant cut == table - (set id | id in s[i..] && id in olds)
    {
      i := i - 1;
      var sid := kept[i];
      CutStep(s, olds, i);
      if sid in olds {
        kept := kept[..i] + kept[i + 1..];
        cut := cut - {sid};
        first := i;
      }
      assert kept == s[..i] + Filtered(s[i..], olds);
    }
    assert s[..0] + Filtered(s, olds) == Filtered(s, olds) && s[0..] == s;
    CutEnd(s, olds);
  }

  // The second loop inserts from the last new shape to the first, always at the same place.
  method PutIn(kept: seq<nat>, cut: map<nat, Shape>, first: nat, ids: seq<nat>, news: seq<Shape>)
    returns (order: seq<nat>, shapes: map<nat, Shape>)
    requires |ids| == |news| && first <= |kept|
    ensures order == kept[..first] + ids + kept[first..]
    ensures shapes == cut + TableOf(ids, news)
  {
    hide TableOf;
    order, shapes := kept, cut;
    var i := |ids|;
    assert ids[i..] == [] && kept[..first] + [] + kept[first..] == kept;
    TableStart(ids, news, cut);
    while i > 0
      invariant 0 <= i <= |ids|
      invariant order == kept[..first] + ids[i..] + kept[first..]
      invariant shapes == cut + TableOf(ids[i..], news[i..])
    {
      i := i - 1;
      TableStep(ids, news, i, cut);
      order := order[..first] + [ids[i]] + order[first..];
      assert order == kept[..first] + ids[i..] + kept[first..];
      shapes := shapes[ids[i] := news[i]];
    }
    assert ids[0..] == ids && news[0..] == news;
  }

  // The foremost place among the positions from i on; 0 when there is none.
  function CutFirst(s: seq<nat>, olds: seq<nat>, i: nat): nat
    requires i <= |s|
    decreases |s| - i
  {
    if i == |s| then 0 else if s[i] in olds then i else CutFirst(s, olds, i + 1)
  }

  lemma CutStart(s: seq<nat>, olds: seq<nat>)
    ensures s == s[..|s|] + Filtered(s[|s|..], olds)
  {
  }

  lemma CutStep(s: seq<nat>, olds: seq<nat>, i: nat)
    requires i < |s|
    ensures (s[..i + 1] + Filtered(s[i + 1..], olds))[i] == s[i]
    ensures Filtered(s[i..], olds) == (if s[i] in olds then [] else [s[i]]) + Filtered(s[i + 1..], olds)
    ensures (set id | id in s[i..] && id in olds) ==
      (set id | id in s[i + 1..] && id in olds) + (if s[i] in olds then {s[i]} else {})
  {
    assert s[i..] == [s[i]] + s[i + 1..];
  }

  lemma {:induction false} CutFirstFrom(s: seq<nat>, olds: seq<nat>, i: nat)
    requires i <= |s| && exists k :: i <= k < |s| && s[k] in olds
    ensures i <= CutFirst(s, olds, i) < |s| && s[CutFirst(s, olds, i)] in olds
    ensures forall k :: i <= k < CutFirst(s, olds, i) ==> s[k] !in olds
    decreases |s| - i
  {
    if s[i] in olds {
    } else {
      CutFirstFrom(s, olds, i + 1);
    }
  }

  lemma CutEnd(s: seq<nat>, olds: seq<nat>)
    ensures CutFirst(s, olds, 0) == FirstOf(s, olds)
  {
    FirstFits(s, olds);
    if exists k :: 0 <= k < |s| && s[k] in olds {
      CutFirstFrom(s, olds, 0);
    } else {
      CutNone(s, olds, 0);
    }
  }

  lemma {:induction false} CutNone(s: seq<nat>, olds: seq<nat>, i: nat)
    requires i <= |s| && forall k :: 0 <= k < |s| ==> s[k] !in olds
    ensures CutFirst(s, olds, i) == 0
    decreases |s| - i
  {
    if i == |s| {
    } else {
      CutNone(s, olds, i + 1);
    }
  }

  lemma TableStart(ids: seq<nat>, news: seq<Shape>, cut: map<nat, Shape>)
    requires |ids| == |news|
    ensures cut + TableOf(ids[|ids|..], news[|ids|..]) == cut
  {
    assert ids[|ids|..] == [];
  }

  lemma TableStep(ids: seq<nat>, news: seq<Shape>, i: nat, cut: map<nat, Shape>)
    requires |ids| == |news| && i < |ids|
    ensures cut + TableOf(ids[i..], news[i..]) == (cut + TableOf(ids[i + 1..], news[i + 1..]))[ids[i] := news[i]]
  {
    assert ids[i..][1..] == ids[i + 1..] && news[i..][1..] == news[i + 1..];
  }
}
