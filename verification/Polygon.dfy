/**
 Point in polygon: even-odd ray casting behind a bounding-box early exit. Coordinates are reals on a plane.
 */
module Polygon {

  datatype Point = Point(lat: real, lng: real)

  type Path = seq<Point>

  // Whether the edge between u and v passes the point's meridian, closed on one side.
  predicate Straddles(u: Point, v: Point, p: Point) {
    (u.lng < p.lng && p.lng <= v.lng) || (v.lng < p.lng && p.lng <= u.lng)
  }

  // The latitude at which the line through u and v meets the point's meridian, measured from u.
  function MeetingLat(u: Point, v: Point, p: Point): real
    requires u.lng != v.lng
  {
    u.lat + (p.lng - u.lng) / (v.lng - u.lng) * (v.lat - u.lat)
  }

  predicate Crosses(u: Point, v: Point, p: Point) {
    Straddles(u, v, p) && MeetingLat(u, v, p) < p.lat
  }

  // ---- the pure count: no early exit ----

  function Bit(b: bool): nat {
    if b then 1 else 0
  }

  // Crossings of the consecutive edges of an open chain.
  function ChainCrossings(path: Path, p: Point): nat {
    if |path| < 2 then 0 else Bit(Crosses(path[1], path[0], p)) + ChainCrossings(path[1..], p)
  }

  // A closed path has one more edge, from its first vertex to its last.
  function PathCrossings(path: Path, p: Point): nat {
    if path == [] then 0 else Bit(Crosses(path[0], path[|path| - 1], p)) + ChainCrossings(path, p)
  }

  function Crossings(paths: seq<Path>, p: Point): nat {
    if paths == [] then 0 else PathCrossings(paths[0], p) + Crossings(paths[1..], p)
  }

  predicate Odd(n: nat) {
    n % 2 == 1
  }

  // ---- straddling edges come in pairs ----

  function ChainStraddles(path: Path, p: Point): nat {
    if |path| < 2 then 0 else Bit(Straddles(path[1], path[0], p)) + ChainStraddles(path[1..], p)
  }

  predicate West(u: Point, p: Point) {
    u.lng < p.lng
  }

  // Along a chain the meridian is passed an odd number of times exactly when the ends lie on different sides.
  lemma {:induction false} ChainParity(path: Path, p: Point)
    requires path != []
    ensures Odd(ChainStraddles(path, p)) <==> West(path[0], p) != West(path[|path| - 1], p)
  {
    if |path| <= 1 {
    } else {
      ChainParity(path[1..], p);
    }
  }

  // ---- the early exit ----

  predicate InRange(u: Point, south: real, north: real, west: real, east: real) {
    south <= u.lat <= north && west <= u.lng <= east
  }

  // The meeting latitude lies between those of the ends.
  lemma MeetingBetween(u: Point, v: Point, p: Point)
    requires Straddles(u, v, p)
    ensures (u.lat <= MeetingLat(u, v, p) <= v.lat) || (v.lat <= MeetingLat(u, v, p) <= u.lat)
  {
    var r := (p.lng - u.lng) / (v.lng - u.lng);
    RatioBetween(p.lng - u.lng, v.lng - u.lng);
    var d := v.lat - u.lat;
    if d >= 0.0 {
      assert 0.0 <= r * d <= d;
    } else {
      assert d <= r * d <= 0.0;
    }
  }

  lemma RatioBetween(a: real, b: real)
    requires (0.0 <= a <= b && 0.0 < b) || (b <= a <= 0.0 && b < 0.0)
    ensures 0.0 <= a / b <= 1.0
  {
  }

  // Where a point relative to the range settles every edge within the range.
  lemma EdgeOutside(u: Point, v: Point, p: Point, south: real, north: real, west: real, east: real)
    requires InRange(u, south, north, west, east) && InRange(v, south, north, west, east)
    ensures p.lng < west || east < p.lng ==> !Straddles(u, v, p)
    ensures p.lat < south ==> !Crosses(u, v, p)
    ensures north < p.lat ==> (Crosses(u, v, p) <==> Straddles(u, v, p))
  {
    if Straddles(u, v, p) {
      MeetingBetween(u, v, p);
    }
  }

  lemma {:induction false} ChainOutside(path: Path, p: Point, south: real, north: real, west: real, east: real)
    requires forall i :: 0 <= i < |path| ==> InRange(path[i], south, north, west, east)
    ensures p.lng < west || east < p.lng || p.lat < south ==> ChainCrossings(path, p) == 0
    ensures north < p.lat && west <= p.lng <= east ==> ChainCrossings(path, p) == ChainStraddles(path, p)
  {
    if |path| <= 1 {
    } else {
      hide Crosses, Straddles, InRange;
      EdgeOutside(path[1], path[0], p, south, north, west, east);
      ChainOutside(path[1..], p, south, north, west, east);
      CrossesStraddles(path[1], path[0], p);
    }
  }

  lemma CrossesStraddles(u: Point, v: Point, p: Point)
    ensures Crosses(u, v, p) ==> Straddles(u, v, p)
  {
  }

  // A closed path meets the ray of a point outside its range an even number of times.
  lemma PathOutside(path: Path, p: Point, south: real, north: real, west: real, east: real)
    requires forall i :: 0 <= i < |path| ==> InRange(path[i], south, north, west, east)
    requires !InRange(p, south, north, west, east)
    ensures !Odd(PathCrossings(path, p))
  {
    if path != [] {
      var last := path[|path| - 1];
      ChainOutside(path, p, south, north, west, east);
      ChainParity(path, p);
      EdgeOutside(path[0], last, p, south, north, west, east);
      CrossesStraddles(path[0], last, p);
    }
  }

  // ---- bounds ----

  // The smallest range that holds the points so far; None before the first point.
  datatype Bounds = None | Bounds(south: real, north: real, west: real, east: real) {
    predicate Contains(p: Point) {
      match this
      case None => false
      case Bounds(s, n, w, e) => InRange(p, s, n, w, e)
    }

    function Extend(p: Point): Bounds {
      match this
      case None => Bounds(p.lat, p.lat, p.lng, p.lng)
      case Bounds(s, n, w, e) =>
        Bounds(if p.lat < s then p.lat else s, if n < p.lat then p.lat else n,
               if p.lng < w then p.lng else w, if e < p.lng then p.lng else e)
    }
  }

  lemma ExtendKeeps(b: Bounds, p: Point, q: Point)
    requires b.Contains(q) || q == p
    ensures b.Extend(p).Contains(q)
  {
  }

  lemma {:induction false} OutsideIsEven(paths: seq<Path>, b: Bounds, p: Point)
    requires forall k :: 0 <= k < |paths| ==> forall i :: 0 <= i < |paths[k]| ==> b.Contains(paths[k][i])
    requires !b.Contains(p)
    ensures !Odd(Crossings(paths, p))
  {
    if paths == [] {
    } else {
      assert forall i :: 0 <= i < |paths[0]| ==> b.Contains(paths[0][i]);
      if b.None? {
        assert |paths[0]| > 0 ==> b.Contains(paths[0][0]);
      } else {
        PathOutside(paths[0], p, b.south, b.north, b.west, b.east);
      }
      OutsideIsEven(paths[1..], b, p);
      SumParity(PathCrossings(paths[0], p), Crossings(paths[1..], p));
    }
  }

  lemma SumParity(m: nat, n: nat)
    ensures Odd(m + n) <==> Odd(m) != Odd(n)
  {
  }

  method GetBounds(paths: seq<Path>) returns (b: Bounds)
    ensures forall k :: 0 <= k < |paths| ==> forall i :: 0 <= i < |paths[k]| ==> b.Contains(paths[k][i])
    ensures b.None? <==> forall k :: 0 <= k < |paths| ==> paths[k] == []
    // It is no larger than the points: each side touches one of them.
    ensures b.Bounds? ==>
      && (exists q :: InPaths(paths, q) && q.lat == b.south) && (exists q :: InPaths(paths, q) && q.lat == b.north)
      && (exists q :: InPaths(paths, q) && q.lng == b.west) && (exists q :: InPaths(paths, q) && q.lng == b.east)
  {
    hide InRange;
    b := None;
    ghost var s, n, w, e: Point;
    s, n, w, e := Point(0.0, 0.0), Point(0.0, 0.0), Point(0.0, 0.0), Point(0.0, 0.0);
    for k := 0 to |paths|
      invariant forall j :: 0 <= j < k ==> forall i :: 0 <= i < |paths[j]| ==> b.Contains(paths[j][i])
      invariant b.None? <==> forall j :: 0 <= j < k ==> paths[j] == []
      invariant b.Bounds? ==> Touches(paths, b, s, n, w, e)
    {
      var path := paths[k];
      for i := 0 to |path|
        invariant forall j :: 0 <= j < k ==> forall m :: 0 <= m < |paths[j]| ==> b.Contains(paths[j][m])
        invariant forall m :: 0 <= m < i ==> b.Contains(path[m])
        invariant b.None? <==> (i == 0 && forall j :: 0 <= j < k ==> paths[j] == [])
        invariant b.Bounds? ==> Touches(paths, b, s, n, w, e)
      {
        var q := path[i];
        forall j, m | 0 <= j < k && 0 <= m < |paths[j]| ensures b.Extend(q).Contains(paths[j][m]) {
          ExtendKeeps(b, q, paths[j][m]);
        }
        forall m | 0 <= m <= i ensures b.Extend(q).Contains(path[m]) {
          ExtendKeeps(b, q, path[m]);
        }
        assert InPaths(paths, q) by {
          assert paths[k][i] == q;
        }
        if b.None? || q.lat < b.south { s := q; }
        if b.None? || b.north < q.lat { n := q; }
        if b.None? || q.lng < b.west { w := q; }
        if b.None? || b.east < q.lng { e := q; }
        b := b.Extend(q);
      }
    }
  }

  ghost predicate InPaths(paths: seq<Path>, q: Point) {
    exists k :: 0 <= k < |paths| && q in paths[k]
  }

  ghost predicate Touches(paths: seq<Path>, b: Bounds, s: Point, n: Point, w: Point, e: Point)
    requires b.Bounds?
  {
    && InPaths(paths, s) && InPaths(paths, n) && InPaths(paths, w) && InPaths(paths, e)
    && s.lat == b.south && n.lat == b.north && w.lng == b.west && e.lng == b.east
  }

  // The early exit never changes the answer: it is the parity of the crossings, for any set of closed paths.
  method ContainsLatLng(paths: seq<Path>, p: Point) returns (inPoly: bool)
    ensures inPoly <==> Odd(Crossings(paths, p))
  {
    var bounds := GetBounds(paths);
    if !bounds.Contains(p) {
      OutsideIsEven(paths, bounds, p);
      return false;
    }
    inPoly := false;
    ghost var total := 0;
    for k := 0 to |paths|
      invariant inPoly <==> Odd(total)
      invariant total + Crossings(paths[k..], p) == Crossings(paths, p)
    {
      hide Crosses, Straddles;
      var path := paths[k];
      assert paths[k..][1..] == paths[k + 1..];
      ghost var before := total;
      var j := |path| - 1;
      for i := 0 to |path|
        invariant inPoly <==> Odd(total)
        invariant j == if i == 0 then |path| - 1 else i - 1
        invariant total + EdgesFrom(path, i, p) == before + PathCrossings(path, p)
      {
        EdgesStep(path, i, p);
        if Crosses(path[i], path[j], p) {
          inPoly := !inPoly;
          total := total + 1;
        }
        j := i;
      }
    }
  }

  // The crossings of the edges from vertex i on, in the order of the loop.
  function EdgesFrom(path: Path, i: nat, p: Point): nat
    requires i <= |path|
  {
    if i == 0 then PathCrossings(path, p)
    else if i == |path| then 0
    else ChainCrossings(path[i - 1..], p)
  }

  lemma EdgesStep(path: Path, i: nat, p: Point)
    requires i < |path|
    ensures EdgesFrom(path, i, p) ==
      Bit(Crosses(path[i], path[if i == 0 then |path| - 1 else i - 1], p)) + EdgesFrom(path, i + 1, p)
  {
    hide Crosses;
    if i == 0 {
      assert path[0..] == path;
    } else {
      assert path[i - 1..][1..] == path[i..];
    }
  }

  // ---- the answer does not depend on how a path is written ----

  // An edge crosses the ray in either direction.
  lemma CrossesSymmetric(u: Point, v: Point, p: Point)
    ensures Crosses(u, v, p) <==> Crosses(v, u, p)
  {
    if Straddles(u, v, p) {
      SameMeeting(u.lng, v.lng, u.lat, v.lat, p.lng);
      assert MeetingLat(u, v, p) == MeetingLat(v, u, p);
    }
  }

  lemma SameMeeting(a: real, b: real, y: real, z: real, x: real)
    requires a != b
    ensures y + ((x - a) / (b - a)) * (z - y) == z + ((x - b) / (a - b)) * (y - z)
  {
    var r := (x - a) / (b - a);
    var s := (x - b) / (a - b);
    assert r * (b - a) == x - a;
    assert s * (a - b) == x - b;
    assert (r + s - 1.0) * (b - a) == 0.0;
    assert r + s == 1.0;
    assert r * (z - y) - s * (y - z) == (r + s) * (z - y);
  }

  lemma {:induction false} ChainConcat(x: Path, y: Path, p: Point)
    requires x != [] && y != []
    ensures ChainCrossings(x + y, p) ==
      ChainCrossings(x, p) + Bit(Crosses(y[0], x[|x| - 1], p)) + ChainCrossings(y, p)
  {
    hide Crosses;
    if |x| == 1 {
      assert (x + y)[1..] == y;
    } else {
      assert (x + y)[1..] == x[1..] + y;
      ChainConcat(x[1..], y, p);
    }
  }

  lemma ChainEnds(v: Point, w: Point, p: Point)
    ensures ChainCrossings([v], p) == 0 && ChainCrossings([v, w], p) == Bit(Crosses(w, v, p))
  {
    assert [v, w][1..] == [w];
  }

  // Starting a closed path at another vertex changes nothing.
  lemma RotationInvariant(x: Path, y: Path, p: Point)
    requires x != [] && y != []
    ensures PathCrossings(x + y, p) == PathCrossings(y + x, p)
  {
    hide Crosses;
    ChainConcat(x, y, p);
    ChainConcat(y, x, p);
  }

  // Cutting a polygon along a chord between two of its vertices: the point is inside exactly one of the
  // parts, or inside both or none, just as the whole says.
  lemma ChordSplits(x: Path, y: Path, p: Point)
    requires x != [] && y != []
    ensures Odd(PathCrossings(x + y, p)) <==>
      Odd(PathCrossings(x + [y[0]], p)) != Odd(PathCrossings(y + [x[0]], p))
  {
    hide Crosses, Odd;
    var u, v := x[0], y[0];
    ChainConcat(x, y, p);
    ChainConcat(x, [v], p);
    ChainConcat(y, [u], p);
    ChainEnds(u, v, p);
    ChainEnds(v, u, p);
    CrossesSymmetric(u, v, p);
    var chord := Bit(Crosses(u, v, p));
    var whole, left, right := PathCrossings(x + y, p), PathCrossings(x + [v], p), PathCrossings(y + [u], p);
    assert left + right == whole + 2 * chord;
    ChordParity(whole, left, right, chord);
  }

  lemma ChordParity(whole: nat, left: nat, right: nat, chord: nat)
    requires left + right == whole + 2 * chord
    ensures Odd(whole) <==> Odd(left) != Odd(right)
  {
  }

  // ---- inside and outside ----

  // Twice the signed area of the triangle u, v, p: its sign tells on which side of the line from u to v the
  // point lies, and 0 that it lies on it.
  function Turn(u: Point, v: Point, p: Point): real {
    (v.lng - u.lng) * (p.lat - u.lat) - (p.lng - u.lng) * (v.lat - u.lat)
  }

  // Without the division: an edge is crossed when it passes the point's meridian and the point lies on its
  // northern side.
  lemma CrossesIsTurn(u: Point, v: Point, p: Point)
    ensures Crosses(u, v, p) <==>
      (u.lng < p.lng <= v.lng && Turn(u, v, p) > 0.0) || (v.lng < p.lng <= u.lng && Turn(u, v, p) < 0.0)
  {
    if u.lng != v.lng {
      var w, a := v.lng - u.lng, p.lng - u.lng;
      var z := a / w * (v.lat - u.lat);
      assert z * w == a * (v.lat - u.lat) by {
        assert a / w * w == a;
      }
      assert Turn(u, v, p) == w * (p.lat - u.lat - z);
      ProductSign(w, p.lat - u.lat - z);
    }
  }

  lemma ProductSign(x: real, y: real)
    ensures x > 0.0 ==> (x * y > 0.0 <==> y > 0.0) && (x * y < 0.0 <==> y < 0.0)
    ensures x < 0.0 ==> (x * y > 0.0 <==> y < 0.0) && (x * y < 0.0 <==> y > 0.0)
    ensures y == 0.0 ==> x * y == 0.0
  {
  }

  // On the edge itself.
  predicate OnEdge(u: Point, v: Point, p: Point) {
    && Turn(u, v, p) == 0.0
    && (u.lng <= p.lng <= v.lng || v.lng <= p.lng <= u.lng)
    && (u.lat <= p.lat <= v.lat || v.lat <= p.lat <= u.lat)
  }

  // The point lies strictly on the same side of all three edges.
  predicate InTriangle(a: Point, b: Point, c: Point, p: Point) {
    || (Turn(a, b, p) > 0.0 && Turn(b, c, p) > 0.0 && Turn(c, a, p) > 0.0)
    || (Turn(a, b, p) < 0.0 && Turn(b, c, p) < 0.0 && Turn(c, a, p) < 0.0)
  }

  // The three areas weigh the corners so that their mean is the point.
  lemma Balance(a: Point, b: Point, c: Point, p: Point)
    ensures Turn(b, c, p) * (a.lng - p.lng) + Turn(c, a, p) * (b.lng - p.lng) + Turn(a, b, p) * (c.lng - p.lng) == 0.0
    ensures Turn(a, b, p) == -Turn(b, a, p)
  {
  }

  // An edge that passes the meridian has the point on itself or strictly on one side.
  lemma StraddledEdge(u: Point, v: Point, p: Point)
    requires Straddles(u, v, p) && Turn(u, v, p) == 0.0
    ensures OnEdge(u, v, p)
  {
    MeetingBetween(u, v, p);
    CrossesIsTurn(u, v, p);
    var w, a := v.lng - u.lng, p.lng - u.lng;
    var z := a / w * (v.lat - u.lat);
    assert z * w == a * (v.lat - u.lat) by {
      assert a / w * w == a;
    }
    assert w * (p.lat - u.lat - z) == 0.0;
    ProductSign(w, p.lat - u.lat - z);
  }

  // All corners on one side of the meridian: no edge passes it, and the point is not inside.
  lemma SameSide(a: Point, b: Point, c: Point, p: Point)
    requires Turn(a, b, c) != 0.0 && West(a, p) == West(b, p) == West(c, p)
    ensures !InTriangle(a, b, c, p)
  {
    Balance(a, b, c, p);
    var x, y, z := a.lng - p.lng, b.lng - p.lng, c.lng - p.lng;
    var ta, tb, tc := Turn(b, c, p), Turn(c, a, p), Turn(a, b, p);
    if x == 0.0 && y == 0.0 && z == 0.0 {
      assert a.lng == b.lng == c.lng;
    } else {
      Weights(ta, tb, tc, x, y, z);
    }
  }

  lemma Weights(ta: real, tb: real, tc: real, x: real, y: real, z: real)
    requires (x < 0.0 && y < 0.0 && z < 0.0) || (x >= 0.0 && y >= 0.0 && z >= 0.0 && !(x == 0.0 && y == 0.0 && z == 0.0))
    requires ta * x + tb * y + tc * z == 0.0
    ensures !(ta > 0.0 && tb > 0.0 && tc > 0.0) && !(ta < 0.0 && tb < 0.0 && tc < 0.0)
  {
    if (ta > 0.0 && tb > 0.0 && tc > 0.0) || (ta < 0.0 && tb < 0.0 && tc < 0.0) {
      TermSign(ta, x);
      TermSign(tb, y);
      TermSign(tc, z);
    }
  }

  lemma TermSign(t: real, x: real)
    ensures t > 0.0 && x > 0.0 ==> t * x > 0.0
    ensures t > 0.0 && x < 0.0 ==> t * x < 0.0
    ensures t < 0.0 && x > 0.0 ==> t * x < 0.0
    ensures t < 0.0 && x < 0.0 ==> t * x > 0.0
    ensures x == 0.0 ==> t * x == 0.0
  {
  }

  // One corner on its own side: exactly the two edges at it pass the meridian, and the point is inside exactly
  // when it lies north of one of them only.
  lemma OneCorner(a: Point, b: Point, c: Point, p: Point)
    requires West(a, p) != West(b, p) && West(b, p) == West(c, p)
    requires !OnEdge(a, b, p) && !OnEdge(b, c, p) && !OnEdge(c, a, p)
    ensures Crosses(a, b, p) != Crosses(c, a, p) <==> InTriangle(a, b, c, p)
    ensures !Crosses(b, c, p)
  {
    CrossesIsTurn(a, b, p);
    CrossesIsTurn(c, a, p);
    if Turn(a, b, p) == 0.0 {
      StraddledEdge(a, b, p);
    }
    if Turn(c, a, p) == 0.0 {
      StraddledEdge(c, a, p);
    }
    if Crosses(a, b, p) != Crosses(c, a, p) {
      ThirdSide(a, b, c, p);
    }
  }

  // Then the third edge agrees with the other two.
  lemma ThirdSide(a: Point, b: Point, c: Point, p: Point)
    requires West(a, p) != West(b, p) && West(b, p) == West(c, p) && !OnEdge(b, c, p)
    ensures Turn(a, b, p) > 0.0 && Turn(c, a, p) > 0.0 ==> Turn(b, c, p) > 0.0
    ensures Turn(a, b, p) < 0.0 && Turn(c, a, p) < 0.0 ==> Turn(b, c, p) < 0.0
  {
    if b.lng == p.lng == c.lng {
      OppositeOnMeridian(a, b, c, p);
    } else {
      hide Turn, OnEdge;
      Balance(a, b, c, p);
      ThirdWeight(Turn(b, c, p), Turn(c, a, p), Turn(a, b, p), a.lng - p.lng, b.lng - p.lng, c.lng - p.lng);
    }
  }

  // The opposite edge stands on the meridian, and the point not between its ends.
  lemma OppositeOnMeridian(a: Point, b: Point, c: Point, p: Point)
    requires b.lng == p.lng == c.lng && !OnEdge(b, c, p)
    ensures !(Turn(a, b, p) > 0.0 && Turn(c, a, p) > 0.0) && !(Turn(a, b, p) < 0.0 && Turn(c, a, p) < 0.0)
  {
    var w, north, south := p.lng - a.lng, p.lat - b.lat, p.lat - c.lat;
    assert Turn(b, c, p) == 0.0;
    TurnOnMeridian(a, b, p);
    TurnOnMeridian(a, c, p);
    assert Turn(c, a, p) == -Turn(a, c, p) by {
      Balance(c, a, b, p);
    }
    TermSign(w, north);
    TermSign(w, south);
  }

  lemma TurnOnMeridian(a: Point, b: Point, p: Point)
    requires b.lng == p.lng
    ensures Turn(a, b, p) == (p.lng - a.lng) * (p.lat - b.lat)
  {
  }

  // The weight of the corner on its own side has the sign of the other two.
  lemma ThirdWeight(ta: real, tb: real, tc: real, x: real, y: real, z: real)
    requires (x < 0.0 && y >= 0.0 && z >= 0.0 && !(y == 0.0 && z == 0.0)) || (x >= 0.0 && y < 0.0 && z < 0.0)
    requires ta * x + tb * y + tc * z == 0.0
    ensures tb > 0.0 && tc > 0.0 ==> ta > 0.0
    ensures tb < 0.0 && tc < 0.0 ==> ta < 0.0
  {
    TermSign(ta, x);
    TermSign(tb, y);
    TermSign(tc, z);
    TermSign(x, ta);
  }

  // For every proper triangle and every point off its edges, the parity of the crossings tells inside from outside.
  lemma TriangleContains(a: Point, b: Point, c: Point, p: Point)
    requires OffTriangle(a, b, c, p)
    ensures Odd(Crossings([[a, b, c]], p)) <==> InTriangle(a, b, c, p)
  {
    hide Crosses, Turn, OnEdge;
    TriangleCrossings(a, b, c, p);
    CrossesStraddles(a, b, p);
    CrossesStraddles(b, c, p);
    CrossesStraddles(c, a, p);
    TurnOfRotated(a, b, c);
    if West(a, p) == West(b, p) == West(c, p) {
      SameSide(a, b, c, p);
    } else if West(b, p) == West(c, p) {
      OneCorner(a, b, c, p);
    } else if West(c, p) == West(a, p) {
      OneCorner(b, c, a, p);
    } else {
      OneCorner(c, a, b, p);
    }
  }

  lemma TurnOfRotated(a: Point, b: Point, c: Point)
    ensures Turn(a, b, c) == Turn(b, c, a) == Turn(c, a, b)
  {
  }

  lemma TriangleCrossings(a: Point, b: Point, c: Point, p: Point)
    ensures Crossings([[a, b, c]], p) == PathCrossings([a, b, c], p)
    ensures PathCrossings([a, b, c], p) == Bit(Crosses(a, b, p)) + Bit(Crosses(b, c, p)) + Bit(Crosses(c, a, p))
  {
    hide Crosses;
    assert [[a, b, c]][1..] == [];
    ChainConcat([a], [b, c], p);
    assert [a] + [b, c] == [a, b, c];
    ChainEnds(b, c, p);
    ChainEnds(a, b, p);
    CrossesSymmetric(a, b, p);
    CrossesSymmetric(b, c, p);
    CrossesSymmetric(c, a, p);
  }

  // ---- polygons as fans of triangles ----

  // The crossings of the triangles that a polygon's first vertex makes with each of its other edges.
  function FanCrossings(path: Path, p: Point): nat {
    var n := |path|;
    if n < 3 then 0 else PathCrossings([path[0], path[n - 2], path[n - 1]], p) + FanCrossings(path[..n - 1], p)
  }

  // Every polygon, convex or not, has the parity of its fan.
  lemma {:induction false} FanParity(path: Path, p: Point)
    ensures Odd(PathCrossings(path, p)) <==> Odd(FanCrossings(path, p))
  {
    hide Crosses;
    var n := |path|;
    if n < 3 {
      FewVertices(path, p);
    } else {
      // The chord between the first vertex and the one before the last.
      var x, y := path[..n - 2], [path[n - 2], path[n - 1]];
      assert x + y == path && x + [y[0]] == path[..n - 1];
      ChordSplits(x, y, p);
      assert y + [x[0]] == [path[n - 2], path[n - 1], path[0]];
      RotationInvariant([path[0]], y, p);
      assert [path[0]] + y == [path[0], path[n - 2], path[n - 1]];
      FanParity(path[..n - 1], p);
      SumParity(PathCrossings([path[0], path[n - 2], path[n - 1]], p), FanCrossings(path[..n - 1], p));
    }
  }

  lemma FewVertices(path: Path, p: Point)
    requires |path| < 3
    ensures !Odd(PathCrossings(path, p))
  {
    if |path| == 2 {
      CrossesSymmetric(path[0], path[1], p);
      ChainEnds(path[0], path[1], p);
      assert path == [path[0], path[1]];
    }
  }

  // How many of the fan's triangles the point lies in.
  function FanCount(path: Path, p: Point): nat {
    var n := |path|;
    if n < 3 then 0
    else Bit(InTriangle(path[0], path[n - 2], path[n - 1], p)) + FanCount(path[..n - 1], p)
  }

  // The point is off the fan's edges, and no triangle of it is flat.
  ghost predicate OffFan(path: Path, p: Point) {
    forall i :: 2 <= i < |path| ==> OffTriangle(path[0], path[i - 1], path[i], p)
  }

  predicate OffTriangle(a: Point, b: Point, c: Point, p: Point) {
    Turn(a, b, c) != 0.0 && !OnEdge(a, b, p) && !OnEdge(b, c, p) && !OnEdge(c, a, p)
  }

  // So a point is reported inside a polygon exactly when it lies in an odd number of the fan's triangles.
  lemma {:induction false} PolygonContains(path: Path, p: Point)
    requires OffFan(path, p)
    ensures Odd(Crossings([path], p)) <==> Odd(FanCount(path, p))
  {
    hide Turn, Crosses, OnEdge, InTriangle;
    assert [path][1..] == [];
    var n := |path|;
    FanParity(path, p);
    if n < 3 {
    } else {
      var last := path[..n - 1];
      PolygonContains(last, p);
      assert [last][1..] == [];
      FanParity(last, p);
      assert OffTriangle(path[0], path[n - 1 - 1], path[n - 1], p);
      TriangleContains(path[0], path[n - 2], path[n - 1], p);
      TriangleCrossings(path[0], path[n - 2], path[n - 1], p);
      SumParity(PathCrossings([path[0], path[n - 2], path[n - 1]], p), FanCrossings(last, p));
      SumParity(Bit(InTriangle(path[0], path[n - 2], path[n - 1], p)), FanCount(last, p));
    }
  }
}
