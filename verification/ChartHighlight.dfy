/**
 Highlighting of chart regions: bar, tristate and discrete charts keep the shape ids of each region; pie and
 bullet charts also keep the region of each shape id.
 */
module ChartHighlight {
  import opened Wrappers
  import opened ShapeCanvas

  // Regions are numbered against the paint order: the one painted first has the largest number. That is the
  // order of bars and slices; a bullet chart, which paints its ranges, performance and target upwards, counts
  // them from the target down.

  // How a region is drawn, highlighted or not: as nothing, as one shape, or as a stack of shapes. The bar of a
  // missing value is inverted: it takes the plain colour when highlighted and the highlight colour otherwise.
  datatype Form = NullForm | OneForm(inverted: bool) | ManyForm(n: nat)

  // Whether the highlight colour is used.
  function Tint(f: Form, lit: bool): bool {
    if f.OneForm? && f.inverted then !lit else lit
  }

  function Size(f: Form): nat {
    match f
    case NullForm => 0
    case OneForm(_) => 1
    case ManyForm(n) => n
  }

  // `ids` holds the shape ids of each region, `owner` the region of each shape id (keyed charts only), and
  // `next` the page-wide id counter. `enabled` is false when highlighting is switched off.
  datatype Chart = Chart(
    keyed: bool, enabled: bool, forms: seq<Form>,
    canvas: Canvas, ids: seq<seq<nat>>, owner: map<nat, nat>, current: Option<nat>, next: nat)

  function FreshIds(next: nat, n: nat): (s: seq<nat>)
    ensures |s| == n && forall i :: 0 <= i < n ==> s[i] == next + i
  {
    seq(n, i => next + i)
  }

  function Copies(s: Shape, n: nat): (r: seq<Shape>)
    ensures |r| == n && forall i :: 0 <= i < n ==> r[i] == s
  {
    seq(n, _ => s)
  }

  // Draws the current region again and puts the new shapes in the place of the old ones. In a bar chart a
  // region drawn as nothing is left alone, and so is a single shape with the falsy id 0.
  function Highlighted(ch: Chart, lit: bool): Chart
    requires ch.current.Some? && ch.current.value < |ch.forms| == |ch.ids|
    requires |ch.ids[ch.current.value]| == Size(ch.forms[ch.current.value])
  {
    var r := ch.current.value;
    var shape := Shape(r, Tint(ch.forms[r], lit));
    match ch.forms[r]
    case NullForm => ch
    case OneForm(_) =>
      var gone := ch.ids[r][0];
      if !ch.keyed && gone == 0 then ch
      else ch.(canvas := ReplaceOne(ch.canvas, gone, ch.next, shape), ids := ch.ids[r := [ch.next]],
               owner := if ch.keyed then (ch.owner - {gone})[ch.next := r] else ch.owner, next := ch.next + 1)
    case ManyForm(n) =>
      var news := FreshIds(ch.next, n);
      ch.(canvas := ReplaceMany(ch.canvas, ch.ids[r], news, Copies(shape, n)), ids := ch.ids[r := news],
          next := ch.next + n)
  }

  ghost predicate Shaped(ch: Chart) {
    && |ch.forms| == |ch.ids|
    && (forall r :: 0 <= r < |ch.ids| ==> |ch.ids[r]| == Size(ch.forms[r]))
    && (ch.current.Some? ==> CanPoint(ch, ch.current.value))
    && (ch.keyed ==> forall r :: 0 <= r < |ch.forms| ==> !ch.forms[r].ManyForm?)
  }

  // A keyed chart finds its region through the shape under the mouse, so that region has a shape.
  predicate CanPoint(ch: Chart, r: nat) {
    r < |ch.forms| && (ch.keyed ==> ch.forms[r].OneForm?)
  }

  // ---- events ----

  // The mouse moves: onto a region, onto none, or outside the canvas, which changes nothing.
  datatype Event = Move(inside: bool, region: Option<nat>) | Clear

  function SetRegion(ch: Chart, region: Option<nat>): Chart
    requires Shaped(ch) && (region.Some? ==> CanPoint(ch, region.value))
  {
    if ch.current == region then ch
    else
      var c1 := if ch.current.Some? && ch.enabled then (ChangedShaped(ch, false); Highlighted(ch, false)) else ch;
      var c2 := c1.(current := region);
      if region.Some? && ch.enabled then Highlighted(c2, true) else c2
  }

  function ClearRegion(ch: Chart): Chart
    requires Shaped(ch)
  {
    if ch.current.Some? then Highlighted(ch, false).(current := None) else ch
  }

  ghost predicate Possible(ch: Chart, ev: Event) {
    ev.Move? && ev.region.Some? ==> CanPoint(ch, ev.region.value)
  }

  function Step(ch: Chart, ev: Event): Chart
    requires Shaped(ch) && Possible(ch, ev)
  {
    match ev
    case Move(inside, region) => if inside then SetRegion(ch, region) else ch
    case Clear => ClearRegion(ch)
  }

  // ---- the layout ----

  // The ids in paint order: the region with the largest index is drawn first.
  function Paint(ids: seq<seq<nat>>, n: nat): seq<nat>
    requires n <= |ids|
  {
    if n == 0 then [] else ids[n - 1] + Paint(ids, n - 1)
  }

  function PaintRegions(forms: seq<Form>, n: nat): seq<nat>
    requires n <= |forms|
  {
    if n == 0 then [] else seq(Size(forms[n - 1]), _ => n - 1) + PaintRegions(forms, n - 1)
  }

  // The id list and the shape table agree, every region owns its own block of the list, and the two maps of a
  // keyed chart are inverse to each other.
  ghost predicate Tables(ch: Chart) {
    && Consistent(ch.canvas)
    && ch.canvas.order == Paint(ch.ids, |ch.ids|)
    && (forall r, id :: 0 <= r < |ch.ids| && id in ch.ids[r] ==> id in ch.canvas.shapes && ch.canvas.shapes[id].region == r)
    && (forall id :: id in ch.canvas.shapes ==> id < ch.next)
    && (ch.keyed ==> forall id :: id in ch.owner <==> id in ch.canvas.shapes)
    && (ch.keyed ==> forall id :: id in ch.owner ==> ch.owner[id] == ch.canvas.shapes[id].region)
  }

  ghost predicate Layout(ch: Chart) {
    Shaped(ch) && Tables(ch)
  }

  // A shape is drawn as highlighted exactly when its region is the current one and it is no bar with the
  // shape id 0.
  ghost predicate Lit(ch: Chart) {
    forall id :: id in ch.canvas.shapes && ch.canvas.shapes[id].region < |ch.forms| ==> LitShape(ch, id)
  }

  ghost predicate LitShape(ch: Chart, id: nat)
    requires id in ch.canvas.shapes && ch.canvas.shapes[id].region < |ch.forms|
  {
    var s := ch.canvas.shapes[id];
    s.lit == Tint(ch.forms[s.region], ch.enabled && ch.current == Some(s.region) && (ch.keyed || id != 0))
  }

  ghost predicate Inv(ch: Chart) {
    Layout(ch) && Lit(ch)
  }

  lemma {:induction false} PaintSplit(ids: seq<seq<nat>>, r: nat, n: nat, x: seq<nat>) returns (a: seq<nat>, b: seq<nat>)
    requires r < n <= |ids|
    ensures Paint(ids, n) == a + ids[r] + b && Paint(ids[r := x], n) == a + x + b
  {
    if r == n - 1 {
      a, b := [], Paint(ids, n - 1);
      PaintUpTo(ids, r, x, n - 1);
    } else {
      var a1, b1 := PaintSplit(ids, r, n - 1, x);
      a, b := ids[n - 1] + a1, b1;
      assert ids[n - 1] + (a1 + ids[r] + b1) == a + ids[r] + b;
      assert ids[n - 1] + (a1 + x + b1) == a + x + b;
    }
  }

  lemma {:induction false} PaintUpTo(ids: seq<seq<nat>>, r: nat, x: seq<nat>, n: nat)
    requires n <= r < |ids|
    ensures Paint(ids[r := x], n) == Paint(ids, n)
  {
    if n == 0 {
    } else {
      PaintUpTo(ids, r, x, n - 1);
    }
  }

  lemma {:induction false} PaintMember(ids: seq<seq<nat>>, n: nat, id: nat) returns (r: nat)
    requires n <= |ids| && id in Paint(ids, n)
    ensures r < n && id in ids[r]
  {
    if id in ids[n - 1] {
      r := n - 1;
    } else {
      r := PaintMember(ids, n - 1, id);
    }
  }

  // The shapes of one region are replaced by new ones of the same region; everything else stays.
  ghost predicate Replaced(c: Canvas, c': Canvas, olds: seq<nat>, news: seq<nat>, shape: Shape) {
    && (forall id :: id in c'.shapes <==> (id in c.shapes && id !in olds) || id in news)
    && (forall id :: id in c'.shapes ==> c'.shapes[id] == if id in news then shape else c.shapes[id])
  }

  lemma FreshBlock(a: seq<nat>, olds: seq<nat>, b: seq<nat>, news: seq<nat>, next: nat)
    requires NoDuplicates(a + olds + b) && forall i :: 0 <= i < |a + olds + b| ==> (a + olds + b)[i] < next
    requires NoDuplicates(news) && forall i :: 0 <= i < |news| ==> next <= news[i]
    ensures NoDuplicates(a + news + b)
    ensures forall id :: id in a + news + b <==> (id in a + olds + b && id !in olds) || id in news
  {
    var s, t := a + olds + b, a + news + b;
    BlockOutside(a, olds, b);
    forall i, j | 0 <= i < j < |t| ensures t[i] != t[j] {
      var i' := if i < |a| then i else i - |news| + |olds|;
      var j' := if j < |a| then j else j - |news| + |olds|;
      assert i < |a| ==> t[i] == s[i];
      assert |a| + |news| <= i ==> t[i] == s[i'];
      assert j < |a| ==> t[j] == s[j];
      assert |a| + |news| <= j ==> t[j] == s[j'];
      assert |a| <= i < |a| + |news| ==> t[i] == news[i - |a|];
      assert |a| <= j < |a| + |news| ==> t[j] == news[j - |a|];
    }
    forall id ensures id in t <==> (id in s && id !in olds) || id in news {
      assert id in t <==> id in a || id in news || id in b;
      assert id in s <==> id in a || id in olds || id in b;
    }
  }

  // A shape's id stands in the list of its region.
  lemma OwnId(ch: Chart, id: nat)
    requires Tables(ch) && id in ch.canvas.shapes
    ensures ch.canvas.shapes[id].region < |ch.ids| && id in ch.ids[ch.canvas.shapes[id].region]
  {
    assert id in ch.canvas.order;
    var r := PaintMember(ch.ids, |ch.ids|, id);
  }

  lemma OrderAfter(ch: Chart, r: nat, news: seq<nat>, c': Canvas, shape: Shape)
    requires Tables(ch) && r < |ch.ids|
    requires NoDuplicates(news) && forall i :: 0 <= i < |news| ==> ch.next <= news[i]
    requires Replaced(ch.canvas, c', ch.ids[r], news, shape)
    requires c'.order == Paint(ch.ids[r := news], |ch.ids|)
    ensures Consistent(c')
  {
    hide Paint, NoDuplicates, Shaped;
    var a, b := PaintSplit(ch.ids, r, |ch.ids|, news);
    forall i | 0 <= i < |ch.canvas.order| ensures ch.canvas.order[i] < ch.next {
      assert ch.canvas.order[i] in ch.canvas.order;
    }
    FreshBlock(a, ch.ids[r], b, news, ch.next);
  }

  lemma RegionsAfter(ch: Chart, r: nat, news: seq<nat>, c': Canvas, lit: bool, q: nat, id: nat)
    requires Tables(ch) && r < |ch.ids| && q < |ch.ids|
    requires forall i :: 0 <= i < |news| ==> ch.next <= news[i]
    requires Replaced(ch.canvas, c', ch.ids[r], news, Shape(r, lit))
    requires id in ch.ids[r := news][q]
    ensures id in c'.shapes && c'.shapes[id].region == q
  {
    hide Paint, Consistent, Shaped;
    if q != r {
      assert id in ch.ids[q];
      assert ch.canvas.shapes[id].region == q;
      assert id !in ch.ids[r];
      assert id < ch.next;
    }
  }

  lemma TablesAfter(ch: Chart, r: nat, news: seq<nat>, c': Canvas, lit: bool, owner': map<nat, nat>, next': nat)
    requires Tables(ch) && r < |ch.ids|
    requires NoDuplicates(news) && forall i :: 0 <= i < |news| ==> ch.next <= news[i] < next'
    requires ch.next <= next'
    requires Replaced(ch.canvas, c', ch.ids[r], news, Shape(r, lit))
    requires c'.order == Paint(ch.ids[r := news], |ch.ids|)
    requires ch.keyed ==> owner' == (ch.owner - (set id | id in ch.ids[r])) + (map id | id in news :: r)
    ensures Tables(ch.(canvas := c', ids := ch.ids[r := news], owner := owner', next := next'))
  {
    hide Paint, Consistent, NoDuplicates;
    OrderAfter(ch, r, news, c', Shape(r, lit));
    var ids' := ch.ids[r := news];
    forall q, id | 0 <= q < |ids'| && id in ids'[q] ensures id in c'.shapes && c'.shapes[id].region == q {
      RegionsAfter(ch, r, news, c', lit, q, id);
    }
  }

  lemma LayoutAfter(ch: Chart, r: nat, news: seq<nat>, c': Canvas, lit: bool, owner': map<nat, nat>, next': nat)
    requires Layout(ch) && r < |ch.ids| && |news| == |ch.ids[r]|
    requires NoDuplicates(news) && forall i :: 0 <= i < |news| ==> ch.next <= news[i] < next'
    requires ch.next <= next'
    requires Replaced(ch.canvas, c', ch.ids[r], news, Shape(r, lit))
    requires c'.order == Paint(ch.ids[r := news], |ch.ids|)
    requires ch.keyed ==> owner' == (ch.owner - (set id | id in ch.ids[r])) + (map id | id in news :: r)
    ensures Layout(ch.(canvas := c', ids := ch.ids[r := news], owner := owner', next := next'))
  {
    hide Paint, Consistent, NoDuplicates, Tables, Replaced;
    TablesAfter(ch, r, news, c', lit, owner', next');
  }

  lemma PaintPrefix(ch: Chart, r: nat, news: seq<nat>) returns (a: seq<nat>, b: seq<nat>)
    requires r < |ch.ids|
    ensures Paint(ch.ids, |ch.ids|) == a + ch.ids[r] + b && Paint(ch.ids[r := news], |ch.ids|) == a + news + b
  {
    a, b := PaintSplit(ch.ids, r, |ch.ids|, news);
  }

  lemma OneReplaced(ch: Chart, r: nat, lit: bool)
    requires Layout(ch) && r < |ch.ids| && ch.forms[r].OneForm?
    ensures |ch.ids[r]| == 1
    ensures var c' := ReplaceOne(ch.canvas, ch.ids[r][0], ch.next, Shape(r, lit));
      && Replaced(ch.canvas, c', ch.ids[r], [ch.next], Shape(r, lit))
      && c'.order == Paint(ch.ids[r := [ch.next]], |ch.ids|)
  {
    hide Paint, Renamed;
    var gone := ch.ids[r][0];
    assert ch.ids[r] == [gone] && gone in ch.ids[r];
    assert gone in ch.canvas.shapes;
    var a, b := PaintPrefix(ch, r, [ch.next]);
    RenamedBlock(a, gone, b, ch.next);
  }

  lemma {:induction false} TableOfCopies(ids: seq<nat>, shape: Shape, id: nat)
    requires id in ids
    ensures TableOf(ids, Copies(shape, |ids|))[id] == shape
  {
    if id == ids[0] {
    } else {
      assert Copies(shape, |ids|)[1..] == Copies(shape, |ids[1..]|);
      TableOfCopies(ids[1..], shape, id);
    }
  }

  lemma ManyReplaced(ch: Chart, r: nat, lit: bool)
    requires Layout(ch) && r < |ch.ids| && ch.forms[r].ManyForm?
    ensures var n := ch.forms[r].n;
      var news := FreshIds(ch.next, n);
      var c' := ReplaceMany(ch.canvas, ch.ids[r], news, Copies(Shape(r, lit), n));
      && Replaced(ch.canvas, c', ch.ids[r], news, Shape(r, lit))
      && c'.order == Paint(ch.ids[r := news], |ch.ids|)
  {
    hide Paint, Filtered, FirstOf, TableOf;
    var n := ch.forms[r].n;
    var news := FreshIds(ch.next, n);
    var a, b := PaintPrefix(ch, r, news);
    ReplacedBlock(ch.canvas, a, ch.ids[r], b, news, Copies(Shape(r, lit), n));
    forall id | id in news ensures TableOf(news, Copies(Shape(r, lit), n))[id] == Shape(r, lit) {
      TableOfCopies(news, Shape(r, lit), id);
    }
    forall id | id in ch.ids[r] ensures id in ch.canvas.order {
    }
  }

  // A shape of the redrawn region is lit as asked, a bar with id 0 never; any other shape is what it was.
  ghost predicate RedrawnShape(ch: Chart, c': Canvas, r: nat, lit: bool, id: nat)
    requires id in c'.shapes && r < |ch.forms|
  {
    if c'.shapes[id].region == r then c'.shapes[id].lit == Tint(ch.forms[r], lit && (ch.keyed || id != 0))
    else id in ch.canvas.shapes && ch.canvas.shapes[id] == c'.shapes[id]
  }

  // Redrawing the current region keeps the layout and the unlit regions, and leaves the current region lit or
  // not as asked, a bar with id 0 always unlit.
  ghost predicate Redrawn(ch: Chart, r: Chart, lit: bool)
    requires ch.current.Some? && ch.current.value < |ch.forms|
  {
    && Layout(r)
    && r.(canvas := ch.canvas, ids := ch.ids, owner := ch.owner, next := ch.next) == ch
    && (forall id :: id in r.canvas.shapes ==> RedrawnShape(ch, r.canvas, ch.current.value, lit, id))
  }

  // The highlighting after a block was replaced: all shapes of its region are new ones.
  lemma LitAfter(ch: Chart, r: nat, news: seq<nat>, c': Canvas, lit: bool, id: nat)
    requires Layout(ch) && r < |ch.ids| && r < |ch.forms|
    requires Replaced(ch.canvas, c', ch.ids[r], news, Shape(r, Tint(ch.forms[r], lit))) && id in c'.shapes
    requires forall i :: 0 <= i < |news| ==> ch.keyed || 0 < news[i]
    ensures RedrawnShape(ch, c', r, lit, id)
  {
    hide Paint, Consistent, Shaped;
    if id !in news {
      OwnId(ch, id);
    }
  }

  lemma OwnerOfOne(owner: map<nat, nat>, olds: seq<nat>, id: nat, r: nat)
    requires |olds| == 1
    ensures (owner - (set id | id in olds)) + (map k | k in [id] :: r) == (owner - {olds[0]})[id := r]
  {
    assert (set id | id in olds) == {olds[0]};
  }

  lemma FirstIdBelow(ch: Chart, r: nat)
    requires Layout(ch) && r < |ch.ids| && Size(ch.forms[r]) > 0
    ensures |ch.ids[r]| == Size(ch.forms[r]) && ch.ids[r][0] < ch.next
  {
    hide Paint, Consistent;
    assert ch.ids[r][0] in ch.ids[r];
    assert ch.ids[r][0] in ch.canvas.shapes;
  }

  lemma RedrawOne(ch: Chart, lit: bool)
    requires Layout(ch) && ch.current.Some? && ch.forms[ch.current.value].OneForm?
    requires ch.keyed || ch.ids[ch.current.value][0] != 0
    ensures Redrawn(ch, Highlighted(ch, lit), lit)
  {
    hide Paint, Tables, ReplaceOne, Replaced, RedrawnShape;
    var r := ch.current.value;
    var gone := ch.ids[r][0];
    FirstIdBelow(ch, r);
    var tint := Tint(ch.forms[r], lit);
    OneReplaced(ch, r, tint);
    var c' := ReplaceOne(ch.canvas, gone, ch.next, Shape(r, tint));
    if ch.keyed {
      OwnerOfOne(ch.owner, ch.ids[r], ch.next, r);
    }
    LayoutAfter(ch, r, [ch.next], c', tint, if ch.keyed then (ch.owner - {gone})[ch.next := r] else ch.owner, ch.next + 1);
    forall id | id in c'.shapes {
      LitAfter(ch, r, [ch.next], c', lit, id);
    }
  }

  lemma RedrawMany(ch: Chart, lit: bool)
    requires Layout(ch) && ch.current.Some? && ch.forms[ch.current.value].ManyForm?
    ensures Redrawn(ch, Highlighted(ch, lit), lit)
  {
    hide Paint, Consistent, ReplaceMany, Replaced;
    var r := ch.current.value;
    var n := ch.forms[r].n;
    var news := FreshIds(ch.next, n);
    var tint := Tint(ch.forms[r], lit);
    ManyReplaced(ch, r, tint);
    var c' := ReplaceMany(ch.canvas, ch.ids[r], news, Copies(Shape(r, tint), n));
    LayoutAfter(ch, r, news, c', tint, ch.owner, ch.next + n);
    if n > 0 {
      FirstIdBelow(ch, r);
    }
    forall id | id in c'.shapes {
      LitAfter(ch, r, news, c', lit, id);
    }
  }

  lemma Redraw(ch: Chart, lit: bool)
    requires Layout(ch) && ch.current.Some?
    requires !ch.keyed && 0 in ch.canvas.shapes && ch.canvas.shapes[0].region < |ch.forms| ==>
      ch.canvas.shapes[0].lit == Tint(ch.forms[ch.canvas.shapes[0].region], false)
    ensures Redrawn(ch, Highlighted(ch, lit), lit)
  {
    hide Paint, Consistent, ReplaceOne, ReplaceMany;
    var r := ch.current.value;
    if ch.forms[r].ManyForm? {
      RedrawMany(ch, lit);
    } else if ch.forms[r].OneForm? && (ch.keyed || ch.ids[r][0] != 0) {
      RedrawOne(ch, lit);
    } else {
      // Nothing is drawn: the region has no shape, or only the one with id 0.
      forall id | id in ch.canvas.shapes && ch.canvas.shapes[id].region == r ensures id == 0 {
        OwnId(ch, id);
      }
    }
  }

  // One event keeps everything: the list and the table agree, the maps stay inverse, and exactly the current
  // region is highlighted.
  lemma StepKeepsInv(ch: Chart, ev: Event)
    requires Inv(ch) && Possible(ch, ev)
    ensures Inv(Step(ch, ev)) && Step(ch, ev).forms == ch.forms
  {
    hide Layout, Highlighted;
    ShapedOf(ch);
    match ev
    case Move(inside, region) =>
      if inside && ch.current != region {
        MoveKeepsInv(ch, region);
      }
    case Clear =>
      if ch.current.Some? {
        Redraw(ch, false);
        CurrentChanged(Highlighted(ch, false), None);
      }
  }

  lemma ChangedShaped(ch: Chart, lit: bool)
    requires Shaped(ch) && ch.current.Some?
    ensures var r := Highlighted(ch, lit);
      Shaped(r) && r.forms == ch.forms && r.keyed == ch.keyed && r.current == ch.current
  {
    hide ReplaceOne, ReplaceMany;
  }

  lemma StepShaped(ch: Chart, ev: Event)
    requires Shaped(ch) && Possible(ch, ev)
    ensures Shaped(Step(ch, ev)) && Step(ch, ev).forms == ch.forms && Step(ch, ev).keyed == ch.keyed
  {
    hide Highlighted;
    if ch.current.Some? {
      ChangedShaped(ch, false);
    }
    if ev.Move? && ev.region.Some? {
      ChangedShaped(ch.(current := ev.region), true);
      if ch.current.Some? {
        ChangedShaped(Highlighted(ch, false).(current := ev.region), true);
      }
    }
  }

  // A move sets the region under the mouse, even when nothing can be drawn; a clear leaves none.
  lemma StepSetsRegion(ch: Chart, ev: Event)
    requires Shaped(ch) && Possible(ch, ev)
    ensures Step(ch, ev).current ==
      match ev
      case Move(inside, region) => if inside then region else ch.current
      case Clear => None
  {
    hide Highlighted;
    if ch.current.Some? {
      ChangedShaped(ch, false);
    }
    if ev.Move? && ev.region.Some? {
      ChangedShaped(ch.(current := ev.region), true);
      if ch.current.Some? {
        ChangedShaped(Highlighted(ch, false).(current := ev.region), true);
      }
    }
  }

  lemma ShapedOf(ch: Chart)
    requires Layout(ch)
    ensures Shaped(ch)
  {
  }

  lemma CurrentChanged(ch: Chart, region: Option<nat>)
    requires Layout(ch) && (region.Some? ==> CanPoint(ch, region.value))
    ensures Layout(ch.(current := region))
  {
    hide Paint, Consistent;
  }

  lemma MoveKeepsInv(ch: Chart, region: Option<nat>)
    requires Inv(ch) && Shaped(ch) && (region.Some? ==> CanPoint(ch, region.value)) && ch.current != region
    ensures Inv(SetRegion(ch, region)) && SetRegion(ch, region).forms == ch.forms
  {
    hide Layout, Highlighted;
    var c1 := ch;
    if ch.current.Some? && ch.enabled {
      Redraw(ch, false);
      c1 := Highlighted(ch, false);
    }
    ShapedOf(c1);
    CurrentChanged(c1, region);
    var c2 := c1.(current := region);
    assert forall id :: id in c2.canvas.shapes && c2.canvas.shapes[id].region < |ch.forms| ==>
      c2.canvas.shapes[id].lit == Tint(ch.forms[c2.canvas.shapes[id].region], false);
    if region.Some? && ch.enabled {
      Redraw(c2, true);
    }
  }

  // ---- the first drawing ----

  // The shapes of a region are made in order but appended from the last to the first.
  function Appended(next: nat, n: nat): (s: seq<nat>)
    ensures |s| == n && forall i :: 0 <= i < n ==> s[i] == next + n - 1 - i
  {
    seq(n, i => next + (n - 1 - i))
  }

  function WithRegion(ch: Chart, r: nat): Chart
    requires r < |ch.ids| == |ch.forms|
  {
    var news := Appended(ch.next, Size(ch.forms[r]));
    ch.(canvas := Canvas(ch.canvas.order + news, ch.canvas.shapes + (map id | id in news :: Shape(r, Tint(ch.forms[r], false)))),
        ids := ch.ids[r := news],
        owner := if ch.keyed then ch.owner + (map id | id in news :: r) else ch.owner,
        next := ch.next + |news|)
  }

  // Draws the regions from the last down to the one given on an empty canvas.
  function Rendered(keyed: bool, enabled: bool, forms: seq<Form>, next: nat, from: nat): (ch: Chart)
    requires from <= |forms|
    ensures |ch.ids| == |forms| && ch.forms == forms && ch.keyed == keyed
    decreases |forms| - from
  {
    if from == |forms| then Chart(keyed, enabled, forms, Canvas([], map[]), seq(|forms|, _ => []), map[], None, next)
    else
      WithRegion(Rendered(keyed, enabled, forms, next, from + 1), from)
  }

  // What has been drawn so far.
  ghost predicate Drawing(ch: Chart, from: nat) {
    && |ch.forms| == |ch.ids| && from <= |ch.forms| && ch.current == None
    && Tables(ch)
    && (forall r :: 0 <= r < |ch.ids| ==> |ch.ids[r]| == if r < from then 0 else Size(ch.forms[r]))
    && (forall id :: id in ch.canvas.shapes && ch.canvas.shapes[id].region < |ch.forms| ==>
          ch.canvas.shapes[id].lit == Tint(ch.forms[ch.canvas.shapes[id].region], false))
  }

  lemma {:induction false} PaintNothing(ids: seq<seq<nat>>, n: nat)
    requires n <= |ids| && forall r :: 0 <= r < n ==> |ids[r]| == 0
    ensures Paint(ids, n) == []
  {
    if n == 0 {
    } else {
      PaintNothing(ids, n - 1);
    }
  }

  lemma {:induction false} PaintFrom(ids: seq<seq<nat>>, r: nat, n: nat, x: seq<nat>)
    requires r < n <= |ids| && forall k :: 0 <= k <= r ==> |ids[k]| == 0
    ensures Paint(ids[r := x], n) == Paint(ids, n) + x
  {
    if r == n - 1 {
      PaintUpTo(ids, r, x, n - 1);
      PaintNothing(ids, n - 1);
      PaintNothing(ids, n);
    } else {
      PaintFrom(ids, r, n - 1, x);
      assert (ids[n - 1] + Paint(ids, n - 1)) + x == ids[n - 1] + (Paint(ids, n - 1) + x);
    }
  }

  lemma {:induction false} RenderedDrawing(keyed: bool, enabled: bool, forms: seq<Form>, next: nat, from: nat)
    requires from <= |forms|
    ensures Drawing(Rendered(keyed, enabled, forms, next, from), from)
    ensures var ch := Rendered(keyed, enabled, forms, next, from); ch.forms == forms && ch.keyed == keyed
    decreases |forms| - from
  {
    hide Paint, Tables, Consistent;
    if from == |forms| {
      EmptyTables(Rendered(keyed, enabled, forms, next, from));
    } else {
      RenderedDrawing(keyed, enabled, forms, next, from + 1);
      var ch := Rendered(keyed, enabled, forms, next, from + 1);
      RegionDrawn(ch, from, Appended(ch.next, Size(forms[from])), Tint(forms[from], false));
    }
  }

  lemma EmptyTables(ch: Chart)
    requires ch.canvas == Canvas([], map[]) && ch.owner == map[] && forall r :: 0 <= r < |ch.ids| ==> |ch.ids[r]| == 0
    ensures Tables(ch)
  {
    PaintNothing(ch.ids, |ch.ids|);
  }

  lemma RegionDrawn(ch: Chart, r: nat, news: seq<nat>, lit: bool)
    requires r < |ch.ids| && Tables(ch) && forall k :: 0 <= k <= r ==> |ch.ids[k]| == 0
    requires news == Appended(ch.next, |news|)
    ensures Tables(ch.(
      canvas := Canvas(ch.canvas.order + news, ch.canvas.shapes + (map id | id in news :: Shape(r, lit))),
      ids := ch.ids[r := news],
      owner := if ch.keyed then ch.owner + (map id | id in news :: r) else ch.owner,
      next := ch.next + |news|))
  {
    hide Paint, Tables, Replaced, NoDuplicates;
    var c' := Canvas(ch.canvas.order + news, ch.canvas.shapes + (map id | id in news :: Shape(r, lit)));
    NextOrder(ch, r, news);
    NewIds(ch, r, news, lit);
    var owner' := if ch.keyed then ch.owner + (map id | id in news :: r) else ch.owner;
    assert (set id | id in ch.ids[r]) == {};
    assert ch.owner - {} == ch.owner;
    TablesAfter(ch, r, news, c', lit, owner', ch.next + |news|);
  }

  lemma NextOrder(ch: Chart, r: nat, news: seq<nat>)
    requires r < |ch.ids| && Tables(ch) && forall k :: 0 <= k <= r ==> |ch.ids[k]| == 0
    ensures Paint(ch.ids[r := news], |ch.ids|) == ch.canvas.order + news
  {
    hide Consistent;
    PaintFrom(ch.ids, r, |ch.ids|, news);
  }

  lemma NewIds(ch: Chart, r: nat, news: seq<nat>, lit: bool)
    requires r < |ch.ids| && Tables(ch) && ch.ids[r] == [] && news == Appended(ch.next, |news|)
    ensures NoDuplicates(news) && forall i :: 0 <= i < |news| ==> ch.next <= news[i] < ch.next + |news|
    ensures Replaced(ch.canvas,
                     Canvas(ch.canvas.order + news, ch.canvas.shapes + (map id | id in news :: Shape(r, lit))),
                     ch.ids[r], news, Shape(r, lit))
  {
    hide Consistent, Paint;
  }

  // A chart that has just been drawn meets the invariant.
  lemma RenderedInv(keyed: bool, enabled: bool, forms: seq<Form>, next: nat)
    requires keyed ==> forall r :: 0 <= r < |forms| ==> !forms[r].ManyForm?
    ensures Inv(Rendered(keyed, enabled, forms, next, 0))
  {
    hide Tables, Rendered;
    RenderedDrawing(keyed, enabled, forms, next, 0);
  }

  // ---- runs ----

  // The regions in paint order depend on the forms alone.
  lemma {:induction false} OrderOfRegions(ch: Chart, n: nat, i: nat)
    requires Layout(ch) && n <= |ch.ids| && i < |Paint(ch.ids, n)|
    ensures |PaintRegions(ch.forms, n)| == |Paint(ch.ids, n)|
    ensures Paint(ch.ids, n)[i] in ch.canvas.shapes
    ensures ch.canvas.shapes[Paint(ch.ids, n)[i]].region == PaintRegions(ch.forms, n)[i]
  {
    var k := |ch.ids[n - 1]|;
    if i < k {
      assert Paint(ch.ids, n)[i] == ch.ids[n - 1][i];
      assert ch.ids[n - 1][i] in ch.ids[n - 1];
      SameLength(ch, n);
    } else {
      OrderOfRegions(ch, n - 1, i - k);
    }
  }

  lemma {:induction false} SameLength(ch: Chart, n: nat)
    requires Shaped(ch) && n <= |ch.ids|
    ensures |PaintRegions(ch.forms, n)| == |Paint(ch.ids, n)|
  {
    if n == 0 {
    } else {
      SameLength(ch, n - 1);
    }
  }

  lemma RegionsAreFixed(ch: Chart)
    requires Layout(ch)
    ensures Painted(ch.canvas) && Regions(ch.canvas) == PaintRegions(ch.forms, |ch.forms|)
  {
    SameLength(ch, |ch.ids|);
    forall i | 0 <= i < |ch.canvas.order|
      ensures ch.canvas.order[i] in ch.canvas.shapes
      ensures ch.canvas.shapes[ch.canvas.order[i]].region == PaintRegions(ch.forms, |ch.forms|)[i]
    {
      OrderOfRegions(ch, |ch.ids|, i);
    }
  }

  function Run(ch: Chart, evs: seq<Event>): (r: Chart)
    requires Shaped(ch) && forall i :: 0 <= i < |evs| ==> Possible(ch, evs[i])
    ensures Shaped(r) && r.forms == ch.forms && r.keyed == ch.keyed
  {
    if evs == [] then ch
    else
      var before := Run(ch, evs[..|evs| - 1]);
      assert Possible(ch, evs[|evs| - 1]);
      StepShaped(before, evs[|evs| - 1]);
      Step(before, evs[|evs| - 1])
  }

  lemma {:induction false} RunKeepsInv(ch: Chart, evs: seq<Event>)
    requires Inv(ch) && Shaped(ch) && forall i :: 0 <= i < |evs| ==> Possible(ch, evs[i])
    ensures Inv(Run(ch, evs))
  {
    hide Inv, Shaped, Step;
    if evs == [] {
    } else {
      RunKeepsInv(ch, evs[..|evs| - 1]);
      StepKeepsInv(Run(ch, evs[..|evs| - 1]), evs[|evs| - 1]);
    }
  }

  // Over every run of highlight and clear events: no duplicate ids, the list names exactly the shapes, the maps
  // of a keyed chart are inverse, the regions keep their paint order, and exactly the current region is drawn
  // as highlighted, save for a bar whose shape has the id 0.
  lemma RunKeepsCharts(ch: Chart, evs: seq<Event>)
    requires Inv(ch) && Shaped(ch) && forall i :: 0 <= i < |evs| ==> Possible(ch, evs[i])
    ensures var r := Run(ch, evs);
      && Consistent(r.canvas)
      && Painted(r.canvas) && Painted(ch.canvas) && Regions(r.canvas) == Regions(ch.canvas)
      && (forall id :: id in r.canvas.shapes ==> r.canvas.shapes[id].region < |r.forms| && LitShape(r, id))
      && (r.keyed ==> forall k, id: nat :: 0 <= k < |r.ids| ==> (r.ids[k] == [id] <==> id in r.owner && r.owner[id] == k))
  {
    hide Run, Shaped, Layout, Tables, Regions, Painted, PaintRegions, Consistent;
    var r := Run(ch, evs);
    RunKeepsInv(ch, evs);
    RegionsAreFixed(ch);
    RegionsAreFixed(r);
    ListNamesShapes(r);
    SameCount(r);
    forall id | id in r.canvas.shapes ensures r.canvas.shapes[id].region < |r.forms| && LitShape(r, id) {
      OwnId(r, id);
    }
    if r.keyed {
      forall k, id: nat | 0 <= k < |r.ids| ensures r.ids[k] == [id] <==> id in r.owner && r.owner[id] == k {
        Inverse(r, k, id);
      }
    }
  }

  // A shape shows the highlight colour exactly while its region is the current one, if it is neither inverted nor
  // the current bar with the id 0, or both at once.
  lemma HighlightIsExact(ch: Chart, id: nat)
    requires Inv(ch) && id in ch.canvas.shapes
    ensures ch.canvas.shapes[id].region < |ch.forms|
    ensures var s := ch.canvas.shapes[id];
      var current := ch.enabled && ch.current == Some(s.region);
      (s.lit <==> current) <==> Tint(ch.forms[s.region], false) == (current && !ch.keyed && id == 0)
  {
    OwnId(ch, id);
  }

  lemma SameCount(ch: Chart)
    requires Layout(ch)
    ensures Tables(ch) && |ch.ids| == |ch.forms|
  {
  }

  lemma ListNamesShapes(ch: Chart)
    requires Layout(ch)
    ensures Consistent(ch.canvas)
  {
  }

  lemma Inverse(ch: Chart, k: nat, id: nat)
    requires Layout(ch) && ch.keyed && k < |ch.ids|
    ensures ch.ids[k] == [id] <==> id in ch.owner && ch.owner[id] == k
  {
    assert |ch.ids[k]| <= 1;
    if ch.ids[k] == [id] {
      assert id in ch.ids[k];
    }
    if id in ch.owner {
      OwnId(ch, id);
    }
  }

  // The first bar drawn on a page has the shape id 0, which the chart takes for no shape: it is never lit.
  lemma FirstBarStaysDark()
    ensures var ch := Rendered(false, true, [OneForm(false)], 0, 0);
      && Shaped(ch) && SetRegion(ch, Some(0)).current == Some(0)
      && SetRegion(ch, Some(0)).canvas == ch.canvas == Canvas([0], map[0 := Shape(0, false)])
  {
    var none := Rendered(false, true, [OneForm(false)], 0, 1);
    assert Appended(0, 1) == [0];
    assert none.canvas.order + [0] == [0];
    assert none.canvas.shapes + (map id | id in [0] :: Shape(0, false)) == map[0 := Shape(0, false)];
  }

  // The bar of a missing value shows the highlight colour while nothing is current, and loses it when it is.
  lemma MissingValueInverted()
    ensures var ch := Rendered(false, true, [OneForm(true)], 5, 0);
      && Shaped(ch) && ch.current == None && ch.canvas == Canvas([5], map[5 := Shape(0, true)])
      && SetRegion(ch, Some(0)).canvas == Canvas([6], map[6 := Shape(0, false)])
  {
    hide Highlighted, Rendered;
    MissingValueDrawn();
    MissingValueRedrawn(Rendered(false, true, [OneForm(true)], 5, 0).(current := Some(0)));
  }

  lemma MissingValueDrawn()
    ensures Rendered(false, true, [OneForm(true)], 5, 0) ==
      Chart(false, true, [OneForm(true)], Canvas([5], map[5 := Shape(0, true)]), [[5]], map[], None, 6)
  {
    var none := Rendered(false, true, [OneForm(true)], 5, 1);
    assert Appended(5, 1) == [5];
    assert none.canvas.order + [5] == [5];
    assert none.canvas.shapes + (map id | id in [5] :: Shape(0, true)) == map[5 := Shape(0, true)];
    assert none.ids[0 := [5]] == [[5]];
  }

  lemma MissingValueRedrawn(ch: Chart)
    requires ch == Chart(false, true, [OneForm(true)], Canvas([5], map[5 := Shape(0, true)]), [[5]], map[], Some(0), 6)
    ensures Highlighted(ch, true).canvas == Canvas([6], map[6 := Shape(0, false)])
  {
    assert Renamed([5], 5, 6) == [6];
    assert map[5 := Shape(0, true)][6 := Shape(0, false)] - {5} == map[6 := Shape(0, false)];
  }

  // ---- the chart object ----

  ghost function WithIds<V>(table: map<nat, V>, ids: seq<nat>, v: V): map<nat, V> {
    table + (map id | id in ids :: v)
  }

  lemma BlockStart<V, W>(table: map<nat, V>, other: map<nat, W>, v: V, w: W)
    ensures WithIds(table, [], v) == table && WithIds(other, [], w) == other
  {
  }

  lemma BlockStep<V>(table: map<nat, V>, ids: seq<nat>, id: nat, v: V)
    ensures WithIds(table, ids + [id], v) == WithIds(table, ids, v)[id := v]
  {
  }

  class RegionChart {
    const keyed: bool
    const enabled: bool
    const forms: seq<Form>
    const target: VCanvas
    var regionShapes: seq<seq<nat>>
    var shapes: map<nat, nat>
    var currentRegion: Option<nat>
    var shapeCount: nat

    ghost function Value(): Chart
      reads this, target
    {
      Chart(keyed, enabled, forms, target.Value(), regionShapes, shapes, currentRegion, shapeCount)
    }

    constructor (keyed: bool, enabled: bool, forms: seq<Form>, shapeCount: nat)
      ensures fresh(target) && Value() == Rendered(keyed, enabled, forms, shapeCount, |forms|)
    {
      this.keyed, this.enabled, this.forms, this.shapeCount := keyed, enabled, forms, shapeCount;
      target := new VCanvas();
      regionShapes, shapes, currentRegion := seq(|forms|, _ => []), map[], None;
    }

    method Render()
      requires Value() == Rendered(keyed, enabled, forms, shapeCount, |forms|)
      modifies this, target
      ensures Value() == Rendered(keyed, enabled, forms, old(shapeCount), 0)
    {
      hide WithRegion, Appended;
      var i := |forms|;
      while i > 0
        invariant 0 <= i <= |forms|
        invariant Value() == Rendered(keyed, enabled, forms, old(shapeCount), i)
      {
        i := i - 1;
        RenderRegion(i);
      }
    }

    method RenderRegion(r: nat)
      requires r < |regionShapes| == |forms|
      modifies this, target
      ensures Value() == WithRegion(old(Value()), r)
    {
      hide Appended;
      var n := Size(forms[r]);
      var first := shapeCount;
      shapeCount := shapeCount + n;
      var ids: seq<nat> := [];
      ghost var shape := Shape(r, Tint(forms[r], false));
      BlockStart(target.shapes, shapes, shape, r);
      var j := n;
      while j > 0
        invariant 0 <= j <= n && shapeCount == first + n && regionShapes == old(regionShapes)
        invariant currentRegion == old(currentRegion)
        invariant ids == Appended(first, n)[..n - j]
        invariant target.order == old(target.order) + ids
        invariant target.shapes == WithIds(old(target.shapes), ids, shape)
        invariant shapes == if keyed then WithIds(old(shapes), ids, r) else old(shapes)
      {
        j := j - 1;
        var id := first + j;
        assert ids + [id] == Appended(first, n)[..n - j];
        BlockStep(old(target.shapes), ids, id, shape);
        BlockStep(old(shapes), ids, id, r);
        assert old(target.order) + ids + [id] == old(target.order) + (ids + [id]);
        target.AppendShape(id, Shape(r, Tint(forms[r], false)));
        ids := ids + [id];
        if keyed {
          shapes := shapes[id := r];
        }
      }
      assert ids == Appended(first, n);
      regionShapes := regionShapes[r := ids];
    }

    method ChangeHighlight(lit: bool)
      requires Shaped(Value()) && currentRegion.Some?
      modifies this, target
      ensures Value() == Highlighted(old(Value()), lit)
    {
      var r := currentRegion.value;
      var shape := Shape(r, Tint(forms[r], lit));
      match forms[r] {
        case NullForm =>
        case OneForm(_) =>
          var gone := regionShapes[r][0];
          if keyed || gone != 0 {
            var id := shapeCount;
            shapeCount := shapeCount + 1;
            if keyed {
              shapes := (shapes - {gone})[id := r];
            }
            target.ReplaceWithShape(gone, id, shape);
            regionShapes := regionShapes[r := [id]];
          }
        case ManyForm(n) =>
          var news := FreshIds(shapeCount, n);
          shapeCount := shapeCount + n;
          target.ReplaceWithShapes(regionShapes[r], news, Copies(shape, n));
          regionShapes := regionShapes[r := news];
      }
    }

    // Whether the region under the mouse is another one than before.
    method SetRegionHighlight(inside: bool, region: Option<nat>) returns (changed: bool)
      requires Shaped(Value()) && Possible(Value(), Move(inside, region))
      modifies this, target
      ensures Value() == Step(old(Value()), Move(inside, region))
      ensures changed <==> inside && old(currentRegion) != region
    {
      changed := inside && currentRegion != region;
      if changed {
        if currentRegion.Some? && enabled {
          ChangedShaped(Value(), false);
          ChangeHighlight(false);
        }
        currentRegion := region;
        if region.Some? && enabled {
          ChangeHighlight(true);
        }
      }
    }

    method ClearRegionHighlight() returns (changed: bool)
      requires Shaped(Value())
      modifies this, target
      ensures Value() == Step(old(Value()), Clear)
      ensures changed <==> old(currentRegion).Some?
    {
      changed := currentRegion.Some?;
      if changed {
        ChangeHighlight(false);
        currentRegion := None;
      }
    }
  }
}
