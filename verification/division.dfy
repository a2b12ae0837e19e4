/** Dividing a polyline: `ConstructionPolyline.divide` (a fixed number of
    evenly spaced points) and `ConstructionPolyline.divide_by_length` (points
    a fixed arc length apart). Both generators are materialised as sequences;
    an exception raised on the first iteration becomes the `Err` result. */
module Division {
  import opened Outcomes
  import opened Polylines
  import opened RealFacts

  /** The k-th of `count` evenly spaced stations from 0 to `total`,
      i.e. the k-th value of `linspace(0.0, total, count)`. */
  function EvenStation(total: real, count: int, k: int): (d: real)
    requires total >= 0.0 && count >= 2 && 0 <= k < count
    ensures 0.0 <= d <= total
    ensures k == 0 ==> d == 0.0
    ensures k == count - 1 ==> d == total
  {
    EvenSpacingBounds(total, k, count - 1);
    k as real * total / (count - 1) as real
  }

  /** One point of `divide`: `_vertex_at` at an even station, which cannot
      fail on a non-empty polyline. */
  function DivisionPoint<P(!new)>(pl: Polyline<P>, count: int, k: int): (p: P)
    requires Valid(pl) && |pl.vertices| > 0
    requires count >= 2 && 0 <= k < count
    ensures Ok(p) == VertexAtRaw(pl, EvenStation(Length(pl), count, k))
  {
    VertexAtRaw(pl, EvenStation(Length(pl), count, k)).value
  }

  /** `polyline.divide(count)`: `count` points at evenly spaced arc lengths
      from the start to the end. The public range check of `vertex_at` is
      bypassed, so a one-vertex polyline yields `count` copies of its vertex
      and an empty one raises IndexError. */
  function Divide<P(!new)>(pl: Polyline<P>, count: int): (r: Result<seq<P>>)
    requires Valid(pl)
    ensures count < 2 ==> r == Err(InvalidArgument)
    ensures count >= 2 && |pl.vertices| == 0 ==> r == Err(IndexOutOfRange)
    ensures count >= 2 && |pl.vertices| > 0 ==> r.Ok?
    ensures r.Ok? ==> |r.value| == count && EvenlyDivided(pl, r.value)
  {
    if count < 2 then Err(InvalidArgument)
    else if |pl.vertices| == 0 then Err(IndexOutOfRange)
    else
      var pts := seq(count, k requires 0 <= k < count => DivisionPoint(pl, count, k));
      DivisionPointsAreVertexAt(pl, count, pts);
      Ok(pts)
  }

  /** `pts` are the points at `|pts|` evenly spaced stations from the start
      to the end of the polyline (all of them the only vertex when there is
      just one): the first is the first vertex, and point k lies at arc
      length k * length / (|pts| - 1). */
  ghost predicate EvenlyDivided<P(!new)>(pl: Polyline<P>, pts: seq<P>)
    requires Valid(pl) && |pl.vertices| > 0 && |pts| >= 2
  {
    && pts[0] == pl.vertices[0]
    && forall k :: 0 <= k < |pts| ==>
         && (|pl.vertices| >= 2 ==> VertexAt(pl, EvenStation(Length(pl), |pts|, k)) == Ok(pts[k]))
         && (|pl.vertices| == 1 ==> pts[k] == pl.vertices[0])
  }

  /** Each point of `divide` is the point `vertex_at` finds at its station. */
  lemma DivisionPointsAreVertexAt<P(!new)>(pl: Polyline<P>, count: int, pts: seq<P>)
    requires Valid(pl) && |pl.vertices| > 0 && count >= 2
    requires |pts| == count
    requires forall k :: 0 <= k < count ==> pts[k] == DivisionPoint(pl, count, k)
    ensures EvenlyDivided(pl, pts)
  {
    assert EvenStation(Length(pl), count, 0) == 0.0;
    forall k | 0 <= k < count
      ensures |pl.vertices| >= 2 ==> VertexAt(pl, EvenStation(Length(pl), count, k)) == Ok(pts[k])
      ensures |pl.vertices| == 1 ==> pts[k] == pl.vertices[0]
    {
      var d := EvenStation(Length(pl), count, k);
      assert Ok(pts[k]) == VertexAtRaw(pl, d);
      if |pl.vertices| == 1 {
        assert d <= 0.0;
      }
    }
  }

  /** The first point of `divide` is the first vertex and, for a polyline of
      at least two vertices, the last point is the last vertex. */
  lemma DivideEndpoints<P(!new)>(pl: Polyline<P>, count: int)
    requires Valid(pl) && pl.space.LerpEndpoints() && pl.space.Separating()
    requires count >= 2 && |pl.vertices| >= 2
    ensures Divide(pl, count).Ok?
    ensures Divide(pl, count).value[0] == pl.vertices[0]
    ensures Divide(pl, count).value[count - 1] == pl.vertices[|pl.vertices| - 1]
  {
    var pts := Divide(pl, count).value;
    assert EvenStation(Length(pl), count, count - 1) == Length(pl);
    assert VertexAt(pl, Length(pl)) == Ok(pts[count - 1]);
    VertexAtEnd(pl);
  }

  /** The final vertex of a non-empty polyline. */
  function LastVertex<P(!new)>(pl: Polyline<P>): P
    requires |pl.vertices| > 0
  {
    pl.vertices[|pl.vertices| - 1]
  }

  /** The number of stepped points: the largest count with every step
      inside the polyline. */
  function StepCount(total: real, step: real): (c: int)
    requires step > 0.0 && total >= 0.0
    ensures c == (total / step).Floor + 1
    ensures c >= 1
    ensures (c - 1) as real * step <= total < c as real * step
  {
    StepsFit(total, step, (total / step).Floor);
    StepsFit(total, step, (total / step).Floor + 1);
    (total / step).Floor + 1
  }

  /** The first `n` points of `pts` are the points `vertex_at` finds at the
      arc lengths 0, step, 2*step, ..., all of them within the polyline. */
  ghost predicate SteppedPoints<P(!new)>(pl: Polyline<P>, step: real, pts: seq<P>, n: nat)
    requires Valid(pl) && n <= |pts|
  {
    forall j {:trigger StepDistance(step, j)} :: 0 <= j < n ==>
      StepDistance(step, j) <= Length(pl) && VertexAt(pl, StepDistance(step, j)) == Ok(pts[j])
  }

  /** The arc length after `j` steps. */
  function StepDistance(step: real, j: int): real {
    j as real * step
  }

  /** Samples of `_vertex_at` at the steps are the stepped points. */
  lemma SamplesAreStepped<P(!new)>(pl: Polyline<P>, step: real, pts: seq<P>)
    requires Valid(pl) && |pl.vertices| >= 2 && step > 0.0
    requires forall j :: 0 <= j < |pts| ==>
               0.0 <= StepDistance(step, j) <= Length(pl) && VertexAtRaw(pl, StepDistance(step, j)) == Ok(pts[j])
    ensures SteppedPoints(pl, step, pts, |pts|)
  {
    forall j | 0 <= j < |pts|
      ensures StepDistance(step, j) <= Length(pl) && VertexAt(pl, StepDistance(step, j)) == Ok(pts[j])
    {
      assert VertexAtRaw(pl, StepDistance(step, j)) == Ok(pts[j]);
    }
  }

  /** Appending a point keeps the stepped prefix. */
  lemma SteppedExtend<P(!new)>(pl: Polyline<P>, step: real, pts: seq<P>, n: nat, p: P)
    requires Valid(pl) && n <= |pts| && SteppedPoints(pl, step, pts, n)
    ensures SteppedPoints(pl, step, pts + [p], n)
  {
    forall j | 0 <= j < n
      ensures StepDistance(step, j) <= Length(pl) && VertexAt(pl, StepDistance(step, j)) == Ok((pts + [p])[j])
    {
      assert (pts + [p])[j] == pts[j];
    }
  }

  /** What `divide_by_length` yields: floor(total / step) + 1 stepped points
      (the next step would pass the end), followed, with `force_last`, by the
      last vertex exactly when the last stepped point is not already it. */
  ghost predicate DividedByLength<P(!new)>(pl: Polyline<P>, step: real, forceLast: bool, pts: seq<P>)
    requires Valid(pl) && |pl.vertices| >= 2 && step > 0.0
  {
    var count := StepCount(Length(pl), step);
    && count <= |pts| <= count + 1
    && SteppedPoints(pl, step, pts, count)
    && (|pts| == count + 1 <==> forceLast && pts[count - 1] != LastVertex(pl))
    && (|pts| == count + 1 ==> pts[count] == LastVertex(pl))
  }

  /** The stepping loop of `divide_by_length`: samples `at` at the arc
      lengths 0, step, 2*step, ... while they do not pass `total`. The
      running distance is accumulated as in the source; the step counter `k`
      keeps it equal to `k * step` and bounds the loop. */
  method SampleSteps<P>(total: real, step: real, at: real --> P) returns (samples: seq<P>)
    requires step > 0.0 && total >= 0.0
    requires forall d :: 0.0 <= d <= total ==> at.requires(d)
    ensures |samples| == StepCount(total, step)
    ensures forall j :: 0 <= j < |samples| ==>
              0.0 <= StepDistance(step, j) <= total && samples[j] == at(StepDistance(step, j))
  {
    ghost var count := StepCount(total, step);
    var distance := 0.0;
    samples := [];
    var k := 0;
    while distance <= total
      invariant 0 <= k <= count
      invariant distance == k as real * step
      invariant |samples| == k
      invariant forall j :: 0 <= j < k ==>
                  0.0 <= StepDistance(step, j) <= total && samples[j] == at(StepDistance(step, j))
      decreases count - k
    {
      StepInside(k, count, step, distance, total);
      ghost var before := samples;
      samples := samples + [at(distance)];
      assert forall j :: 0 <= j < k ==> samples[j] == before[j];
      assert samples[k] == at(StepDistance(step, k));
      distance := distance + step;
      k := k + 1;
    }
    StepPast(k, count, step, distance, total);
    assert k == |samples|;
  }

  /** The stepped points of `divide_by_length`: `_vertex_at` sampled at
      0, step, 2*step, ... up to the end. */
  method StepAlong<P(!new)>(pl: Polyline<P>, step: real) returns (pts: seq<P>)
    requires Valid(pl) && |pl.vertices| >= 2 && step > 0.0
    ensures |pts| == StepCount(Length(pl), step)
    ensures SteppedPoints(pl, step, pts, |pts|)
  {
    var total := Length(pl);
    pts := SampleSteps(total, step, d requires 0.0 <= d <= total => VertexAtRaw(pl, d).value);
    SamplesAreStepped(pl, step, pts);
  }

  /** `polyline.divide_by_length(length, force_last)`: the points at arc
      lengths 0, length, 2*length, ... as long as they do not pass the end,
      i.e. floor(total / length) + 1 points; with `force_last`, one more point,
      the last vertex, when the last stepped point is not already it. */
  method DivideByLength<P(==,!new)>(pl: Polyline<P>, length: real, forceLast: bool)
    returns (r: Result<seq<P>>)
    requires Valid(pl)
    ensures length <= 0.0 ==> r == Err(InvalidArgument)
    ensures length > 0.0 && |pl.vertices| < 2 ==> r == Err(InsufficientVertices)
    ensures length > 0.0 && |pl.vertices| >= 2 ==> r.Ok?
    ensures r.Ok? ==> DividedByLength(pl, length, forceLast, r.value)
  {
    if length <= 0.0 {
      return Err(InvalidArgument);
    }
    if |pl.vertices| < 2 {
      return Err(InsufficientVertices);
    }
    var pts := StepAlong(pl, length);
    if forceLast && pts[|pts| - 1] != LastVertex(pl) {
      SteppedExtend(pl, length, pts, |pts|, LastVertex(pl));
      pts := pts + [LastVertex(pl)];
    }
    r := Ok(pts);
  }
}
