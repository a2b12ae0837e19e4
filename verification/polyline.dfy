/** `ConstructionPolyline`: an immutable vertex list together with the
    station (distance from the start, along the list) of every vertex. */
module Polylines {
  import opened Outcomes
  import opened Points
  import opened PyLists
  import opened Stations
  import opened RealFacts

  datatype Polyline<!P(!new)> = Polyline(space: Space<P>, vertices: seq<P>, distances: seq<real>)

  /** The object invariant: the stored stations are exactly the stations of
      the stored vertices, measured with a true magnitude. */
  ghost predicate Valid<P(!new)>(pl: Polyline<P>) {
    pl.space.Metric() && pl.distances == Distances(pl.space, pl.vertices)
  }

  /** A vertex list is closed when it has more than two vertices and its
      first and last vertex coincide. */
  predicate IsClosedList<P(==,!new)>(vs: seq<P>) {
    |vs| > 2 && vs[0] == vs[|vs| - 1]
  }

  /** The closing step of the constructor: appends the first vertex when a
      list of more than two vertices does not already end where it starts. */
  function CloseVertices<P(==,!new)>(vs: seq<P>): (r: seq<P>)
    ensures |vs| > 2 ==> IsClosedList(r)
    ensures IsClosedList(vs) || |vs| <= 2 ==> r == vs
    ensures r == vs || (|vs| > 0 && r == vs + [vs[0]])
  {
    if |vs| > 2 && vs[0] != vs[|vs| - 1] then vs + [vs[0]] else vs
  }

  /** Closing twice appends nothing the second time. */
  lemma CloseIdempotent<P(!new)>(vs: seq<P>)
    ensures CloseVertices(CloseVertices(vs)) == CloseVertices(vs)
  {
  }

  /** `ConstructionPolyline(vertices, close)`. */
  function New<P(==,!new)>(sp: Space<P>, vs: seq<P>, close: bool): (pl: Polyline<P>)
    requires sp.Metric()
    ensures Valid(pl)
    ensures pl.space == sp
    ensures !close ==> pl.vertices == vs
    ensures close ==> pl.vertices == CloseVertices(vs)
    ensures close && |vs| > 2 ==> IsClosed(pl)
  {
    var v := if close then CloseVertices(vs) else vs;
    Polyline(sp, v, Distances(sp, v))
  }

  /** `len(polyline)`. */
  function Count<P(!new)>(pl: Polyline<P>): nat {
    |pl.vertices|
  }

  /** `polyline.is_closed`: more than two vertices, and Python's `[0]` and
      `[-1]` pick the same point. */
  predicate IsClosed<P(==,!new)>(pl: Polyline<P>): (r: bool)
    ensures r <==> |pl.vertices| > 2 && Item(pl, 0) == Item(pl, -1)
  {
    IsClosedList(pl.vertices)
  }

  /** A constructed polyline is closed exactly when its vertices already
      were, or when closing was asked for on more than two vertices. */
  lemma NewIsClosed<P(!new)>(sp: Space<P>, vs: seq<P>, close: bool)
    requires sp.Metric()
    ensures IsClosed(New(sp, vs, close)) <==> IsClosedList(vs) || (close && |vs| > 2)
  {
  }

  /** `polyline.length`: the last station, 0 for an empty polyline. It is the
      largest station, and 0 when there is no segment. */
  function Length<P(!new)>(pl: Polyline<P>): (r: real)
    requires Valid(pl)
    ensures r >= 0.0
    ensures forall i :: 0 <= i < |pl.distances| ==> 0.0 <= pl.distances[i] <= r
    ensures |pl.vertices| <= 1 ==> r == 0.0
    ensures |pl.vertices| > 0 ==> r == pl.distances[|pl.vertices| - 1]
  {
    DistancesSorted(pl.space, pl.vertices);
    if |pl.distances| > 0 then pl.distances[|pl.distances| - 1] else 0.0
  }

  /** The length is the sum of all segment lengths. */
  lemma LengthIsPathLength<P(!new)>(pl: Polyline<P>)
    requires Valid(pl)
    ensures Length(pl) == PathLength(pl.space, pl.vertices)
  {
    if |pl.vertices| > 0 {
      LastStationIsPathLength(pl.space, pl.vertices);
    }
  }

  /** `polyline[i]` for an integer index. */
  function Item<P(!new)>(pl: Polyline<P>, i: int): (r: Result<P>)
    ensures r.Ok? <==> -|pl.vertices| <= i < |pl.vertices|
    ensures 0 <= i < |pl.vertices| ==> r == Ok(pl.vertices[i])
    ensures i < 0 && r.Ok? ==> r == Ok(pl.vertices[|pl.vertices| + i])
    ensures r.Err? ==> r.error == IndexOutOfRange
  {
    At(pl.vertices, i)
  }

  /** `polyline[start:stop]`: a fresh polyline over the selected vertices,
      never closed, whose stations are measured from its own first vertex. */
  function Slice<P(==,!new)>(pl: Polyline<P>, start: int, stop: int): (r: Polyline<P>)
    requires Valid(pl)
    ensures Valid(r)
    ensures var a, b := SliceBound(start, |pl.vertices|), SliceBound(stop, |pl.vertices|);
            && r.vertices == (if a <= b then pl.vertices[a..b] else [])
            && (forall k :: 0 <= k < |r.vertices| ==> r.distances[k] == pl.distances[a + k] - pl.distances[a])
            && Length(r) == (if a < b then pl.distances[b - 1] - pl.distances[a] else 0.0)
  {
    var a, b := SliceBound(start, |pl.vertices|), SliceBound(stop, |pl.vertices|);
    if a <= b then
      DistancesOfSlice(pl.space, pl.vertices, a, b);
      New(pl.space, pl.vertices[a..b], false)
    else
      New(pl.space, [], false)
  }

  /** `polyline.data(index)`: the station of a vertex, the length of the
      segment that ends there, and the vertex itself. Index 0 is the start
      with no preceding segment; a negative index counts from the end. */
  function Data<P(!new)>(pl: Polyline<P>, index: int): (r: Result<(real, real, P)>)
    requires Valid(pl)
    ensures r.Ok? <==> |pl.vertices| > 0 && -|pl.vertices| < index < |pl.vertices|
    ensures |pl.vertices| == 0 ==> r == Err(EmptyPolyline)
    ensures |pl.vertices| > 0 && r.Err? ==> r.error == IndexOutOfRange
    ensures r.Ok? ==>
              var j := Wrap(index, |pl.vertices|);
              && 0 <= j < |pl.vertices|
              && r.value.0 == pl.distances[j]
              && r.value.1 >= 0.0
              && r.value.1 == (if j == 0 then 0.0 else pl.distances[j] - pl.distances[j - 1])
              && r.value.2 == pl.vertices[j]
    ensures index == 0 && |pl.vertices| > 0 ==> r == Ok((0.0, 0.0, pl.vertices[0]))
  {
    DistancesSorted(pl.space, pl.vertices);
    if |pl.vertices| == 0 then Err(EmptyPolyline)
    else if index == 0 then Ok((0.0, 0.0, pl.vertices[0]))
    else
      var prev, current, vertex := At(pl.distances, index - 1), At(pl.distances, index), At(pl.vertices, index);
      if prev.Err? || current.Err? || vertex.Err? then Err(IndexOutOfRange)
      else Ok((current.value, current.value - prev.value, vertex.value))
  }

  /** The station of vertex `index` is the length of the path up to it. */
  lemma StationIsPathLength<P(!new)>(pl: Polyline<P>, index: int)
    requires Valid(pl)
    requires 0 <= index < |pl.vertices|
    ensures Data(pl, index).Ok?
    ensures Data(pl, index).value.0 == PathLength(pl.space, pl.vertices[..index + 1])
  {
    DistancesOfSlice(pl.space, pl.vertices, 0, index + 1);
    LastStationIsPathLength(pl.space, pl.vertices[..index + 1]);
    assert pl.vertices[0..index + 1] == pl.vertices[..index + 1];
  }

  /** `polyline.index_at(distance)`: the index of the first vertex whose
      station is not below `distance`, clamped to the first vertex at or
      before the start and to the last vertex at or past the end. */
  function IndexAt<P(!new)>(pl: Polyline<P>, distance: real): (r: nat)
    requires Valid(pl)
    ensures r < |pl.vertices| || r == 0
    ensures distance <= 0.0 ==> r == 0
    ensures distance > 0.0 && distance >= Length(pl) ==> r == if |pl.vertices| > 0 then |pl.vertices| - 1 else 0
    ensures 0.0 < distance < Length(pl) ==>
              && 1 <= r < |pl.vertices|
              && pl.distances[r - 1] < distance <= pl.distances[r]
  {
    DistancesSorted(pl.space, pl.vertices);
    if distance <= 0.0 then 0
    else if distance >= Length(pl) then (if |pl.vertices| - 1 > 0 then |pl.vertices| - 1 else 0)
    else BisectLeft(pl.distances, distance)
  }

  /** `index_at` never decreases when the distance grows. */
  lemma IndexAtMonotone<P(!new)>(pl: Polyline<P>, d1: real, d2: real)
    requires Valid(pl)
    requires d1 <= d2
    ensures IndexAt(pl, d1) <= IndexAt(pl, d2)
  {
    DistancesSorted(pl.space, pl.vertices);
  }

  /** The backward walk of `_vertex_at` over coincident vertices: moves
      `index0` back while it is positive and its station equals `d1`. */
  function SkipCoincident(ds: seq<real>, index0: nat, d1: real): (r: nat)
    requires index0 < |ds|
    ensures r <= index0
    ensures r == 0 || ds[r] != d1
    ensures forall k :: r < k <= index0 ==> ds[k] == d1
    decreases index0
  {
    if index0 > 0 && ds[index0] == d1 then SkipCoincident(ds, index0 - 1, d1) else index0
  }

  /** The position of `d` inside segment `i` (from vertex i-1 to vertex i),
      as a fraction of the segment length. */
  function SegmentFraction(ds: seq<real>, i: nat, d: real): (f: real)
    requires 1 <= i < |ds| && ds[i - 1] < ds[i]
    ensures ds[i - 1] < d <= ds[i] ==> 0.0 < f <= 1.0
    ensures d == ds[i] ==> f == 1.0
  {
    assert ds[i - 1] < d <= ds[i] ==>
             && 0.0 < (d - ds[i - 1]) / (ds[i] - ds[i - 1]) <= 1.0
             && (d == ds[i] ==> (d - ds[i - 1]) / (ds[i] - ds[i - 1]) == 1.0) by {
      if ds[i - 1] < d <= ds[i] {
        FractionBounds(d - ds[i - 1], ds[i] - ds[i - 1]);
      }
    }
    (d - ds[i - 1]) / (ds[i] - ds[i - 1])
  }

  /** `polyline._vertex_at(distance)`, without the range checks of the public
      method. The segment found by `bisect_left` always has positive length,
      so the skip loop never moves and the ArithmeticError is never raised;
      the only failure is an IndexError past the end or on an empty polyline. */
  function VertexAtRaw<P(!new)>(pl: Polyline<P>, distance: real): (r: Result<P>)
    requires Valid(pl)
    ensures r.Err? <==> |pl.vertices| == 0 || distance > Length(pl)
    ensures r.Err? ==> r.error == IndexOutOfRange
    ensures |pl.vertices| > 0 && distance <= 0.0 ==> r == Ok(pl.vertices[0])
    ensures 0.0 < distance <= Length(pl) ==>
              var i := BisectLeft(pl.distances, distance);
              && 1 <= i < |pl.vertices|
              && pl.distances[i - 1] < distance <= pl.distances[i]
              && r == Ok(pl.space.lerp(pl.vertices[i - 1], pl.vertices[i],
                                       SegmentFraction(pl.distances, i, distance)))
  {
    DistancesSorted(pl.space, pl.vertices);
    var ds := pl.distances;
    var index1 := BisectLeft(ds, distance);
    if index1 == 0 then
      (if |pl.vertices| == 0 then Err(IndexOutOfRange) else Ok(pl.vertices[0]))
    else if index1 >= |ds| then
      Err(IndexOutOfRange)
    else
      var distance1 := ds[index1];
      var index0 := SkipCoincident(ds, index1 - 1, distance1);
      if ds[index0] == distance1 then
        Err(InternalInconsistency)
      else
        var factor := (distance - ds[index0]) / (distance1 - ds[index0]);
        Ok(pl.space.lerp(pl.vertices[index0], pl.vertices[index1], factor))
  }

  /** `polyline.vertex_at(distance)`: the point at arc length `distance`
      from the start, interpolated inside the segment that contains it. */
  function VertexAt<P(!new)>(pl: Polyline<P>, distance: real): (r: Result<P>)
    requires Valid(pl)
    ensures r.Err? <==> distance < 0.0 || distance > Length(pl) || |pl.vertices| < 2
    ensures distance < 0.0 || distance > Length(pl) ==> r == Err(OutOfRange)
    ensures 0.0 <= distance <= Length(pl) && |pl.vertices| < 2 ==> r == Err(InsufficientVertices)
    ensures distance == 0.0 && |pl.vertices| >= 2 ==> r == Ok(pl.vertices[0])
    ensures r.Ok? ==> r == VertexAtRaw(pl, distance)
  {
    if distance < 0.0 || distance > Length(pl) then Err(OutOfRange)
    else if |pl.vertices| < 2 then Err(InsufficientVertices)
    else VertexAtRaw(pl, distance)
  }

  /** Equal stations mean zero-length segments in between; with a separating
      magnitude every vertex between them is the same point. */
  lemma {:induction false} EqualStationsSamePoint<P(!new)>(pl: Polyline<P>, j: nat, k: nat)
    requires Valid(pl) && pl.space.Separating()
    requires j <= k < |pl.vertices|
    requires pl.distances[j] == pl.distances[k]
    ensures pl.vertices[j] == pl.vertices[k]
    decreases k - j
  {
    DistancesSorted(pl.space, pl.vertices);
    if j < k {
      assert pl.distances[j] <= pl.distances[k - 1] <= pl.distances[k];
      assert SegmentLength(pl.space, pl.vertices, k) == 0.0;
      EqualStationsSamePoint(pl, j, k - 1);
    }
  }

  /** At the station of a vertex that ends a segment of positive length,
      `vertex_at` returns that vertex. */
  lemma VertexAtStation<P(!new)>(pl: Polyline<P>, k: nat)
    requires Valid(pl) && pl.space.LerpEndpoints()
    requires 1 <= k < |pl.vertices|
    requires pl.distances[k - 1] < pl.distances[k]
    ensures VertexAt(pl, pl.distances[k]) == Ok(pl.vertices[k])
  {
    DistancesSorted(pl.space, pl.vertices);
    assert BisectLeft(pl.distances, pl.distances[k]) == k;
  }

  /** `vertex_at(length)` is the last vertex. */
  lemma VertexAtEnd<P(!new)>(pl: Polyline<P>)
    requires Valid(pl) && pl.space.LerpEndpoints() && pl.space.Separating()
    requires |pl.vertices| >= 2
    ensures VertexAt(pl, Length(pl)) == Ok(pl.vertices[|pl.vertices| - 1])
  {
    var n := |pl.vertices|;
    if Length(pl) == 0.0 {
      EqualStationsSamePoint(pl, 0, n - 1);
    } else {
      var i := BisectLeft(pl.distances, Length(pl));
      VertexAtStation(pl, i);
      EqualStationsSamePoint(pl, i, n - 1);
    }
  }

  /** Interpolating the fraction `f = x / w` of a segment of length `w`
      covers the distance `x`. */
  lemma ProportionalStep<P(!new)>(sp: Space<P>, a: P, b: P, f: real, w: real, x: real)
    requires sp.Proportional()
    requires 0.0 <= f <= 1.0
    requires w == sp.gap(a, b)
    requires x == f * w
    ensures sp.gap(a, sp.lerp(a, b, f)) == x
  {
  }

  /** The point `vertex_at(d)` returns lies exactly `d` along the polyline:
      the station of its segment's start plus its distance from that start. */
  lemma VertexAtArcLength<P(!new)>(pl: Polyline<P>, d: real)
    requires Valid(pl) && pl.space.Proportional()
    requires 0.0 < d <= Length(pl)
    ensures VertexAt(pl, d).Ok?
    ensures var i := BisectLeft(pl.distances, d);
            && 1 <= i < |pl.vertices|
            && pl.distances[i - 1] + pl.space.gap(pl.vertices[i - 1], VertexAt(pl, d).value) == d
  {
    var ds, vs := pl.distances, pl.vertices;
    var i := BisectLeft(ds, d);
    var f := SegmentFraction(ds, i, d);
    var w := ds[i] - ds[i - 1];
    var p := pl.space.lerp(vs[i - 1], vs[i], f);
    assert VertexAt(pl, d) == Ok(p) && 0.0 < f <= 1.0 && f == (d - ds[i - 1]) / w;
    FractionScalesBack(f, d - ds[i - 1], w);
    assert w == pl.space.gap(vs[i - 1], vs[i]) by {
      assert w == SegmentLength(pl.space, vs, i);
    }
    ProportionalStep(pl.space, vs[i - 1], vs[i], f, w, d - ds[i - 1]);
  }
}
