/**
 The line chart's region index: each vertex owns an interval of the canvas, and a point is looked up by a scan
 of the intervals from the last to the first.
 */
module LineRegions {
  import opened Wrappers

  // Math.round: the nearest whole number, halves upwards.
  function Round(x: real): int {
    (x + 0.5).Floor
  }

  // The canvas position of a value.
  function Position(x: real, left: int, minx: real, scale: real): int {
    left + Round((x - minx) * scale)
  }

  function Positions(xs: seq<real>, left: int, minx: real, scale: real): (p: seq<int>)
    ensures |p| == |xs|
    ensures forall i :: 0 <= i < |xs| ==> p[i] == Position(xs[i], left, minx, scale)
  {
    seq(|xs|, i requires 0 <= i < |xs| => Position(xs[i], left, minx, scale))
  }

  ghost predicate Sorted(p: seq<int>) {
    forall i, j :: 0 <= i <= j < |p| ==> p[i] <= p[j]
  }

  // Values in order have positions in order.
  lemma PositionsSorted(xs: seq<real>, left: int, minx: real, scale: real)
    requires forall i, j :: 0 <= i <= j < |xs| ==> xs[i] <= xs[j]
    requires scale >= 0.0
    ensures Sorted(Positions(xs, left, minx, scale))
  {
    forall i, j | 0 <= i <= j < |xs| ensures Position(xs[i], left, minx, scale) <= Position(xs[j], left, minx, scale) {
      PositionMonotone(xs[i], xs[j], left, minx, scale);
    }
  }

  // A position is the whole number nearest to the scaled value; the smallest value stands at the left edge, and
  // at full scale the largest one at the right edge.
  lemma PositionIsNearest(x: real, left: int, minx: real, scale: real)
    ensures -0.5 < Position(x, left, minx, scale) as real - (left as real + (x - minx) * scale) <= 0.5
    ensures x == minx ==> Position(x, left, minx, scale) == left
  {
    if x == minx {
      assert (x - minx) * scale == 0.0;
    }
  }

  lemma PositionOfLargest(minx: real, maxx: real, left: int, width: int)
    requires minx < maxx
    ensures Position(maxx, left, minx, width as real / (maxx - minx)) == left + width
  {
    var r := maxx - minx;
    assert r * (width as real / r) == width as real;
  }

  lemma PositionMonotone(x: real, y: real, left: int, minx: real, scale: real)
    requires x <= y && scale >= 0.0
    ensures Position(x, left, minx, scale) <= Position(y, left, minx, scale)
  {
    var a, b := x - minx, y - minx;
    assert a * scale <= b * scale by {
      assert (b - a) * scale >= 0.0;
    }
  }

  datatype Region = Region(from: real, to: real, index: nat)

  // The border behind vertex i: halfway to the next vertex, or to the canvas width.
  function Border(p: seq<int>, width: int, i: nat): real
    requires i < |p|
  {
    p[i] as real + ((if i + 1 < |p| then p[i + 1] else width) - p[i]) as real / 2.0
  }

  function RegionAt(p: seq<int>, width: int, i: nat): Region
    requires i < |p|
  {
    Region(if i == 0 then 0.0 else Border(p, width, i - 1), Border(p, width, i), i)
  }

  // The regions of a chart: they tile the axis from 0 with no gap.
  ghost predicate IsRegionMap(rm: seq<Region>, p: seq<int>, width: int) {
    |rm| == |p| && forall i :: 0 <= i < |p| ==> rm[i] == RegionAt(p, width, i)
  }

  // The borders lie halfway: to the next vertex, and behind the last vertex to the right edge.
  lemma BordersAreHalfway(p: seq<int>, width: int, i: nat)
    requires i < |p|
    ensures Border(p, width, i) - p[i] as real == (if i + 1 < |p| then p[i + 1] else width) as real - Border(p, width, i)
  {
  }

  // The part of render that fills the map, carrying the last border along.
  method FillRegionMap(xs: seq<real>, left: int, minx: real, scale: real, width: int) returns (regionMap: seq<Region>)
    ensures IsRegionMap(regionMap, Positions(xs, left, minx, scale), width)
    ensures regionMap != [] ==> regionMap[0].from == 0.0
    ensures forall i :: 0 < i < |regionMap| ==> regionMap[i].from == regionMap[i - 1].to
  {
    ghost var p := Positions(xs, left, minx, scale);
    regionMap := [];
    var last: Option<real> := None;
    for i := 0 to |xs|
      invariant |regionMap| == i && forall k :: 0 <= k < i ==> regionMap[k] == RegionAt(p, width, k)
      invariant if i == 0 then last == None else last == Some(Border(p, width, i - 1))
    {
      var xpos := Position(xs[i], left, minx, scale);
      var xposnext := if i < |xs| - 1 then Position(xs[i + 1], left, minx, scale) else width;
      var next := xpos as real + (xposnext - xpos) as real / 2.0;
      // A missing border counts as 0, and so does a border of 0.
      var from := if last.None? || last.value == 0.0 then 0.0 else last.value;
      regionMap := regionMap + [Region(from, next, i)];
      last := Some(next);
    }
  }

  // The last region that holds x.
  method GetRegion(regionMap: seq<Region>, x: real) returns (r: Option<nat>)
    ensures r == Scan(regionMap, x)
  {
    var i := |regionMap|;
    assert regionMap[..i] == regionMap;
    while i > 0
      invariant 0 <= i <= |regionMap| && Scan(regionMap, x) == Scan(regionMap[..i], x)
    {
      assert regionMap[..i][..i - 1] == regionMap[..i - 1];
      i := i - 1;
      if regionMap[i].from <= x <= regionMap[i].to {
        return Some(regionMap[i].index);
      }
    }
    r := None;
  }

  function Scan(regionMap: seq<Region>, x: real): Option<nat> {
    if regionMap == [] then None
    else
      var last := regionMap[|regionMap| - 1];
      if last.from <= x <= last.to then Some(last.index) else Scan(regionMap[..|regionMap| - 1], x)
  }

  function Abs(x: real): real {
    if x < 0.0 then -x else x
  }

  function Distance(p: seq<int>, x: real, i: nat): real
    requires i < |p|
  {
    Abs(x - p[i] as real)
  }

  ghost predicate Nearest(p: seq<int>, x: real, k: nat) {
    k < |p| && forall i :: 0 <= i < |p| ==> Distance(p, x, k) <= Distance(p, x, i)
  }

  // What a linear search finds that prefers the larger index.
  ghost predicate LastNearest(p: seq<int>, x: real, k: nat) {
    Nearest(p, x, k) && forall i :: k < i < |p| ==> Distance(p, x, k) < Distance(p, x, i)
  }

  lemma {:induction false} ScanFinds(regionMap: seq<Region>, p: seq<int>, width: int, n: nat, x: real)
    requires IsRegionMap(regionMap, p, width) && n <= |p|
    ensures match Scan(regionMap[..n], x)
      case None => forall i :: 0 <= i < n ==> !(RegionAt(p, width, i).from <= x <= RegionAt(p, width, i).to)
      case Some(k) =>
        && k < n
        && RegionAt(p, width, k).from <= x <= RegionAt(p, width, k).to
        && forall i :: k < i < n ==> !(RegionAt(p, width, i).from <= x <= RegionAt(p, width, i).to)
  {
    if n == 0 {
    } else {
      assert regionMap[..n][..n - 1] == regionMap[..n - 1];
      ScanFinds(regionMap, p, width, n - 1, x);
    }
  }

  // Somewhere between 0 and the last border, some region holds x.
  lemma SomeRegion(p: seq<int>, width: int, x: real) returns (k: nat)
    requires p != [] && 0.0 <= x <= Border(p, width, |p| - 1)
    ensures k < |p| && RegionAt(p, width, k).from <= x <= RegionAt(p, width, k).to
  {
    k := 0;
    while x > Border(p, width, k)
      invariant k < |p| && RegionAt(p, width, k).from <= x
      decreases |p| - k
    {
      k := k + 1;
    }
  }

  // The vertex whose region holds x is a nearest one.
  lemma InRegionIsNearest(p: seq<int>, width: int, x: real, k: nat)
    requires Sorted(p) && k < |p| && RegionAt(p, width, k).from <= x <= RegionAt(p, width, k).to
    ensures Nearest(p, x, k)
  {
    forall i | 0 <= i < |p| ensures Distance(p, x, k) <= Distance(p, x, i) {
      if i < k {
        assert p[i] <= p[k - 1] <= p[k];
        assert (p[k - 1] + p[k]) as real <= 2.0 * x;
      } else if k < i {
        assert p[k] <= p[k + 1] <= p[i];
        assert 2.0 * x <= (p[k] + p[k + 1]) as real;
      }
    }
  }

  // A place in the region of a vertex, before the vertex itself, that stands where the next one stands.
  ghost predicate Overlooks(p: seq<int>, width: int, x: real, i: nat) {
    i + 1 < |p| && p[i] == p[i + 1] && RegionAt(p, width, i).from <= x < p[i] as real
  }

  // The look-up always gives a nearest vertex. It is the one with the largest index, as a linear search with
  // that preference would have it, exactly unless the place lies in the region of a vertex and before it, while
  // the next vertex has the same position.
  lemma LookupIsNearest(xs: seq<real>, left: int, minx: real, scale: real, width: int, rm: seq<Region>, x: real)
    requires forall i, j :: 0 <= i <= j < |xs| ==> xs[i] <= xs[j]
    requires xs != [] && scale >= 0.0
    requires IsRegionMap(rm, Positions(xs, left, minx, scale), width)
    requires 0.0 <= x <= rm[|rm| - 1].to
    ensures var p, r := Positions(xs, left, minx, scale), Scan(rm, x);
      && r.Some? && Nearest(p, x, r.value)
      && (LastNearest(p, x, r.value) <==> !exists i :: Overlooks(p, width, x, i))
  {
    hide Scan, Position, Border;
    var p := Positions(xs, left, minx, scale);
    PositionsSorted(xs, left, minx, scale);
    ScanFinds(rm, p, width, |p|, x);
    assert rm[..|p|] == rm;
    var _ := SomeRegion(p, width, x);
    var k := Scan(rm, x).value;
    InRegionIsNearest(p, width, x, k);
    if Overlooks(p, width, x, k) {
      assert Distance(p, x, k + 1) == Distance(p, x, k);
    } else {
      forall i | Overlooks(p, width, x, i) ensures false {
        OverlooksIsFound(p, width, x, i, k);
      }
      forall i | k < i < |p| ensures Distance(p, x, k) < Distance(p, x, i) {
        LaterIsFarther(p, width, x, k, i);
      }
    }
  }

  // Such a place belongs to no later region, so the look-up gives that very vertex.
  lemma OverlooksIsFound(p: seq<int>, width: int, x: real, i: nat, k: nat)
    requires Sorted(p) && Overlooks(p, width, x, i)
    requires k < |p| && RegionAt(p, width, k).from <= x <= RegionAt(p, width, k).to
    requires forall q :: k < q < |p| ==> !(RegionAt(p, width, q).from <= x <= RegionAt(p, width, q).to)
    ensures i == k
  {
    LaterRegionStarts(p, width, i, k);
  }

  // A region does not begin before the vertices with smaller indices.
  lemma LaterRegionStarts(p: seq<int>, width: int, i: nat, k: nat)
    requires Sorted(p) && k < |p|
    ensures i < k ==> p[i] as real <= RegionAt(p, width, k).from
  {
    if i < k {
      assert p[i] <= p[k - 1] <= p[k];
    }
  }

  // Two vertices at 10: from 7 the look-up gives the first of them.
  lemma OverlookedVertex(rm: seq<Region>)
    requires IsRegionMap(rm, Positions([0.0, 10.0, 10.0], 0, 0.0, 1.0), 20)
    ensures Scan(rm, 7.0) == Some(1) && !LastNearest(Positions([0.0, 10.0, 10.0], 0, 0.0, 1.0), 7.0, 1)
  {
    var p := Positions([0.0, 10.0, 10.0], 0, 0.0, 1.0);
    assert p[0] == 0 && p[1] == 10 && p[2] == 10;
    assert rm[1] == Region(5.0, 10.0, 1) && rm[2] == Region(10.0, 15.0, 2);
    assert rm[..|rm| - 1][1] == rm[1];
    assert Distance(p, 7.0, 2) == Distance(p, 7.0, 1);
  }

  lemma LaterIsFarther(p: seq<int>, width: int, x: real, k: nat, i: nat)
    requires Sorted(p) && k < i < |p| && RegionAt(p, width, k).from <= x <= RegionAt(p, width, k).to
    requires !(RegionAt(p, width, k + 1).from <= x <= RegionAt(p, width, k + 1).to)
    requires x <= Border(p, width, |p| - 1)
    requires !(p[k + 1] == p[k] && x < p[k] as real)
    ensures Distance(p, x, k) < Distance(p, x, i)
  {
    assert p[k] <= p[k + 1] <= p[i];
    assert 2.0 * x <= (p[k] + p[k + 1]) as real;
    // On the border the next region would hold x as well.
    assert k + 2 < |p| ==> p[k + 1] <= p[k + 2];
    assert 2.0 * x != (p[k] + p[k + 1]) as real;
  }
}
