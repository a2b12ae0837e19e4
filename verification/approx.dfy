/** `ApproxParamT`: the arc length of a parametrised curve, approximated by
    sampling the curve at `segments + 1` evenly spaced parameters from 0 to
    `max_t` into a polyline. Distances and parameters are mapped onto each
    other by locating the sample segment and interpolating linearly inside it. */
module ParamApprox {
  import opened Outcomes
  import opened Points
  import opened Stations
  import opened Polylines
  import opened RealFacts

  /** Segments no longer than this get no parameter correction in `param_t`. */
  const MinSegment: real := 0.000000000001

  /** The approximation: the sample polyline, the largest parameter and the
      parameter step between two samples. */
  datatype Approx<!P(!new)> = Approx(polyline: Polyline<P>, maxT: real, step: real)

  /** The number of sample segments. */
  function Segments<P(!new)>(a: Approx<P>): int {
    |a.polyline.vertices| - 1
  }

  /** A constructed approximation: a valid polyline of at least one segment
      whose parameter step spreads `max_t` evenly over the segments. */
  ghost predicate WellFormed<P(!new)>(a: Approx<P>) {
    && Valid(a.polyline)
    && Segments(a) >= 1
    && a.step == a.maxT / Segments(a) as real
  }

  /** The k-th of `segments + 1` evenly spaced parameters from 0 to `max_t`,
      i.e. the k-th value of `linspace(0.0, max_t, segments + 1)`. */
  function SampleParam(maxT: real, segments: int, k: int): real
    requires segments > 0
  {
    k as real * maxT / segments as real
  }

  /** The parameter `k` steps from 0. */
  function ParamAt(step: real, k: int): real {
    step * k as real
  }

  /** The k-th sample parameter is `k` parameter steps from 0. */
  lemma SampleParamIsStep(maxT: real, segments: int, k: int)
    requires segments > 0
    ensures SampleParam(maxT, segments, k) == ParamAt(maxT / segments as real, k)
  {
    ShareOfWhole(k as real, maxT, segments as real);
  }

  /** The curve sampled at the parameters `linspace(0.0, max_t, segments + 1)`:
      sample k is the curve at `k` parameter steps of `max_t / segments`. */
  function Samples<P>(curve: real -> P, maxT: real, segments: int): (r: seq<P>)
    requires segments > 0
    ensures |r| == segments + 1
    ensures forall k :: 0 <= k <= segments ==> r[k] == curve(ParamAt(maxT / segments as real, k))
  {
    var samples := seq(segments + 1, k requires 0 <= k <= segments => curve(SampleParam(maxT, segments, k)));
    forall k | 0 <= k <= segments
      ensures samples[k] == curve(ParamAt(maxT / segments as real, k))
    {
      SampleParamIsStep(maxT, segments, k);
    }
    samples
  }

  /** `ApproxParamT(curve, max_t=..., segments=...)`: samples `curve` at the
      evenly spaced parameters into a polyline, without closing it. A
      non-positive segment count fails the constructor's assertion. */
  function MakeApprox<P(==,!new)>(sp: Space<P>, curve: real -> P, maxT: real, segments: int)
    : (r: Result<Approx<P>>)
    requires sp.Metric()
    ensures r.Err? <==> segments <= 0
    ensures r.Err? ==> r.error == InvalidArgument
    ensures r.Ok? ==>
              && WellFormed(r.value)
              && r.value.maxT == maxT
              && r.value.polyline.space == sp
              && Segments(r.value) == segments
    ensures r.Ok? ==> forall k :: 0 <= k <= segments ==>
              r.value.polyline.vertices[k] == curve(ParamAt(r.value.step, k))
  {
    if segments <= 0 then Err(InvalidArgument)
    else Ok(Approx(New(sp, Samples(curve, maxT, segments), false), maxT, maxT / segments as real))
  }

  /** Python's `int(x)` on a float: truncation toward zero. */
  function Truncate(x: real): (r: int)
    ensures x >= 0.0 ==> r as real <= x < r as real + 1.0
    ensures x < 0.0 ==> r as real - 1.0 < x <= r as real
  {
    if x >= 0.0 then x.Floor else -((-x).Floor)
  }

  /** With a positive step, the parameters of the samples increase strictly. */
  lemma ParamAtOrder(step: real, i: int, j: int)
    requires step > 0.0
    ensures ParamAt(step, i) < ParamAt(step, j) <==> i < j
  {
    ScaleOrder(i, j, step);
  }

  /** With a positive `max_t` the step is positive and the last sample sits
      at `max_t`. */
  lemma StepFacts<P(!new)>(a: Approx<P>)
    requires WellFormed(a) && a.maxT > 0.0
    ensures a.step > 0.0
    ensures ParamAt(a.step, Segments(a)) == a.maxT
  {
    DivideAndScale(a.maxT, Segments(a) as real);
  }

  /** Consecutive sample parameters are one step apart. */
  lemma ParamStep(step: real, i: int)
    ensures ParamAt(step, i) == ParamAt(step, i - 1) + step
  {
    NextStep(step, i - 1);
  }

  /** A parameter lies in at most one sample segment. */
  lemma ParamSegmentUnique(step: real, t: real, i: int, j: int)
    requires step > 0.0
    requires ParamAt(step, i - 1) <= t < ParamAt(step, i)
    requires ParamAt(step, j - 1) <= t < ParamAt(step, j)
    ensures i == j
  {
    ParamAtOrder(step, i - 1, j);
    ParamAtOrder(step, j - 1, i);
  }

  /** The sample segment of a parameter strictly inside (0, max_t), as
      `distance` finds it: `int(t / step) + 1`. */
  function SegmentOfParam<P(!new)>(a: Approx<P>, t: real): (i: int)
    requires WellFormed(a) && 0.0 < t < a.maxT
    ensures 1 <= i <= Segments(a)
    ensures ParamAt(a.step, i - 1) <= t < ParamAt(a.step, i)
  {
    StepFacts(a);
    var k := Truncate(t / a.step);
    StepsFit(t, a.step, k);
    StepsFit(t, a.step, k + 1);
    StepsFit(t, a.step, Segments(a));
    k + 1
  }

  /** `approx.distance(t)`: 0 up to the start, the polyline length from
      `max_t` on, and in between the station reached by interpolating
      linearly inside the sample segment that holds `t`. */
  function Distance<P(!new)>(a: Approx<P>, t: real): (r: real)
    requires WellFormed(a)
    ensures t <= 0.0 ==> r == 0.0
    ensures 0.0 < t && a.maxT <= t ==> r == Length(a.polyline)
    ensures 0.0 <= r <= Length(a.polyline)
  {
    if t <= 0.0 then 0.0
    else if t >= a.maxT then Length(a.polyline)
    else
      var i := SegmentOfParam(a, t);
      var L := Length(a.polyline);
      assert 0.0 <= a.polyline.distances[i - 1] && a.polyline.distances[i] <= L;
      SegmentDistance(a, t, i)
  }

  /** The interpolation step of `distance` inside sample segment `i`, the
      one that holds `t`: from the station at the end of the segment, back
      by the part of the segment length that the parameter has still to go.
      The result lies in the segment's station range, strictly below its end
      when the segment has positive length, and strictly above its start
      when `t` is past the segment's first sample too. */
  function SegmentDistance<P(!new)>(a: Approx<P>, t: real, i: int): (r: real)
    requires WellFormed(a) && 0.0 < t < a.maxT
    requires 1 <= i <= Segments(a)
    requires ParamAt(a.step, i - 1) <= t < ParamAt(a.step, i)
    ensures a.polyline.distances[i - 1] <= r <= a.polyline.distances[i]
    ensures a.polyline.distances[i - 1] < a.polyline.distances[i] ==> r < a.polyline.distances[i]
    ensures a.polyline.distances[i - 1] < a.polyline.distances[i] && ParamAt(a.step, i - 1) < t ==>
              a.polyline.distances[i - 1] < r
  {
    var data := Data(a.polyline, i).value;
    StepFacts(a);
    ParamStep(a.step, i);
    Interpolated(data.0, data.1, ParamAt(a.step, i) - t, a.step)
  }

  /** The interpolation of `distance`: from the `station` at the end of a
      segment of the given `length`, back by the share `g / step` of the
      length, where `g` is the parameter still to go to the segment's end
      sample. For `g` within one step the result stays in the segment's
      station range, strictly below its end when the segment has positive
      length, and strictly above its start when `g` is short of a full step. */
  function Interpolated(station: real, length: real, g: real, step: real): (r: real)
    requires step > 0.0
    ensures length >= 0.0 && 0.0 < g <= step ==> station - length <= r <= station
    ensures length > 0.0 && 0.0 < g <= step ==> r < station
    ensures length > 0.0 && 0.0 < g < step ==> station - length < r
    ensures g == step ==> r == station - length
  {
    assert length * step / step == length;
    assert length >= 0.0 && 0.0 < g <= step ==>
             && 0.0 <= length * g / step <= length
             && (length > 0.0 ==> 0.0 < length * g / step)
             && (length > 0.0 && g < step ==> length * g / step < length) by {
      if length >= 0.0 && 0.0 < g <= step {
        BackInterpolation(station, length, g, step);
      }
    }
    station - length * g / step
  }

  /** Python's `min(a, b)` on two floats. */
  function Min(a: real, b: real): (r: real)
    ensures r <= a && r <= b
    ensures r == a || r == b
  {
    if b < a then b else a
  }

  /** `approx.param_t(distance)`: `max_t` from the polyline length on;
      otherwise the parameter of the sample segment that holds `distance`,
      clamped to `max_t`. */
  function ParamT<P(!new)>(a: Approx<P>, distance: real): (t: real)
    requires WellFormed(a)
    ensures t <= a.maxT
    ensures distance >= Length(a.polyline) ==> t == a.maxT
    ensures distance < Length(a.polyline) && distance <= 0.0 ==> t == Min(a.maxT, 0.0)
    ensures 0.0 < a.maxT && 0.0 < distance < Length(a.polyline) ==>
              var i := IndexAt(a.polyline, distance);
              ParamAt(a.step, i - 1) < t <= ParamAt(a.step, i)
  {
    if distance >= Length(a.polyline) then a.maxT
    else
      var i := IndexAt(a.polyline, distance);
      var t := SegmentParam(a, distance, i);
      assert 0.0 < a.maxT ==> ParamAt(a.step, i) <= a.maxT by {
        if 0.0 < a.maxT {
          StepFacts(a);
          ParamAtOrder(a.step, i, Segments(a));
        }
      }
      Min(a.maxT, t)
  }

  /** The correction of `param_t`: from the parameter `tEnd` of a segment's
      end sample, back by the share `short / length` of one parameter step,
      where `short` is how far the distance falls short of the segment's end
      station; segments no longer than `MinSegment` are not corrected. A
      distance inside the segment lands within one step before `tEnd`. */
  function Corrected(tEnd: real, step: real, short: real, length: real): (t: real)
    ensures length <= MinSegment || short == 0.0 ==> t == tEnd
    ensures step > 0.0 && 0.0 <= short < length ==> tEnd - step < t <= tEnd
    ensures step > 0.0 && 0.0 < short < length && MinSegment < length ==> t < tEnd
  {
    if length > MinSegment then
      assert step > 0.0 && 0.0 <= short < length ==>
               0.0 <= step * short / length < step && (0.0 < short ==> 0.0 < step * short / length) by {
        if step > 0.0 && 0.0 <= short < length {
          ShareOfStep(step, short, length);
        }
      }
      tEnd - step * short / length
    else
      tEnd
  }

  /** The parameter `param_t` computes for `distance` from vertex `i`'s
      entry of `data`. At the start (index 0) it is 0; for a distance inside
      segment `i` it lies in the segment's parameter range, open at the
      start and closed at the end. */
  function SegmentParam<P(!new)>(a: Approx<P>, distance: real, i: int): (t: real)
    requires WellFormed(a) && 0 <= i <= Segments(a)
    ensures i == 0 ==> t == 0.0
    ensures 0.0 < a.maxT && 1 <= i && a.polyline.distances[i - 1] < distance <= a.polyline.distances[i] ==>
              ParamAt(a.step, i - 1) < t <= ParamAt(a.step, i)
  {
    var data := Data(a.polyline, i).value;
    assert 0.0 < a.maxT ==> a.step > 0.0 && ParamAt(a.step, i) - a.step == ParamAt(a.step, i - 1) by {
      if 0.0 < a.maxT {
        StepFacts(a);
        ParamStep(a.step, i);
      }
    }
    Corrected(ParamAt(a.step, i), a.step, data.0 - distance, data.1)
  }

  /** A distance lies in at most one segment of the station list. */
  lemma StationSegmentUnique<P(!new)>(pl: Polyline<P>, d: real, i: int, k: int)
    requires Valid(pl)
    requires 1 <= i < |pl.vertices| && pl.distances[i - 1] < d <= pl.distances[i]
    requires 1 <= k < |pl.vertices| && pl.distances[k - 1] < d <= pl.distances[k]
    ensures i == k
  {
    DistancesSorted(pl.space, pl.vertices);
  }

  /** Round trip parameter -> distance -> parameter: for a parameter strictly
      inside a sample segment longer than `MinSegment`, `param_t` recovers
      the parameter from `distance`. */
  lemma ParamOfDistance<P(!new)>(a: Approx<P>, t: real, i: int)
    requires WellFormed(a) && 0.0 < t < a.maxT
    requires 1 <= i <= Segments(a)
    requires ParamAt(a.step, i - 1) < t < ParamAt(a.step, i)
    requires a.polyline.distances[i] - a.polyline.distances[i - 1] > MinSegment
    ensures ParamT(a, Distance(a, t)) == t
  {
    var pl, ds := a.polyline, a.polyline.distances;
    DistanceInsideSegment(a, t, i);
    ParamStep(a.step, i);
    var d := Distance(a, t);
    assert ds[i - 1] < d < ds[i];
    var L := Length(pl);
    assert ds[i] <= L;
    ParamInsideSegment(a, d, i);
    CorrectedUndoesInterpolation(ParamAt(a.step, i), ds[i], a.step, ds[i] - ds[i - 1], ParamAt(a.step, i) - t, d, t);
  }

  /** The correction of `param_t` undoes the interpolation of `distance`:
      the station `distance` interpolates at `g` before a segment's end
      parameter leads `param_t` back to that parameter. */
  lemma CorrectedUndoesInterpolation(tEnd: real, station: real, step: real, w: real, g: real, d: real, t: real)
    requires step > 0.0 && w > MinSegment
    requires d == Interpolated(station, w, g, step) && g == tEnd - t
    ensures Corrected(tEnd, step, station - d, w) == t
  {
    assert station - d == w * g / step;
    CancelScale(w, step, g, station - d);
    assert step * (station - d) / w == g;
    assert Corrected(tEnd, step, station - d, w) == tEnd - step * (station - d) / w;
    assert Corrected(tEnd, step, station - d, w) == tEnd - g;
  }

  /** The interpolation of `distance` undoes the correction of `param_t`:
      the parameter `param_t` puts `short` before a segment's end station
      leads `distance` back to that station less `short`. */
  lemma InterpolatedUndoesCorrection(tEnd: real, station: real, step: real, w: real, short: real, t: real, d: real)
    requires step > 0.0 && w > MinSegment
    requires t == Corrected(tEnd, step, short, w) && short == station - d
    ensures Interpolated(station, w, tEnd - t, step) == d
  {
    assert tEnd - t == step * short / w;
    CancelScale(step, w, short, tEnd - t);
  }

  /** Inside the open parameter range of sample segment `i`, `distance`
      interpolates from the segment's end station. */
  lemma DistanceInsideSegment<P(!new)>(a: Approx<P>, t: real, i: int)
    requires WellFormed(a) && 0.0 < t < a.maxT
    requires 1 <= i <= Segments(a)
    requires ParamAt(a.step, i - 1) <= t < ParamAt(a.step, i)
    ensures a.step > 0.0
    ensures var ds := a.polyline.distances;
            Distance(a, t) == Interpolated(ds[i], ds[i] - ds[i - 1], ParamAt(a.step, i) - t, a.step)
  {
    var pl, ds := a.polyline, a.polyline.distances;
    StepFacts(a);
    ParamSegmentUnique(a.step, t, i, SegmentOfParam(a, t));
    assert Distance(a, t) == SegmentDistance(a, t, i);
    assert Data(pl, i).value.0 == ds[i] && Data(pl, i).value.1 == ds[i] - ds[i - 1];
  }

  /** At the parameter of each sample, `distance` is that sample's station. */
  lemma DistanceAtSample<P(!new)>(a: Approx<P>, i: int)
    requires WellFormed(a) && 0.0 < a.maxT
    requires 0 <= i <= Segments(a)
    ensures Distance(a, ParamAt(a.step, i)) == a.polyline.distances[i]
  {
    StepFacts(a);
    if 0 < i < Segments(a) {
      DistanceAtInnerSample(a, i);
    } else if i == Segments(a) {
      var L := Length(a.polyline);
    }
  }

  /** At an inner sample, `distance` interpolates a full step back from the
      next station, which lands on the sample's own station. */
  lemma DistanceAtInnerSample<P(!new)>(a: Approx<P>, i: int)
    requires WellFormed(a) && 0.0 < a.maxT
    requires 0 < i < Segments(a)
    ensures Distance(a, ParamAt(a.step, i)) == a.polyline.distances[i]
  {
    var ds := a.polyline.distances;
    var t := ParamAt(a.step, i);
    StepFacts(a);
    ParamAtOrder(a.step, 0, i);
    ParamAtOrder(a.step, i, Segments(a));
    ParamStep(a.step, i + 1);
    DistanceInsideSegment(a, t, i + 1);
    assert ParamAt(a.step, i + 1) - t == a.step;
  }

  /** `param_t` inside segment `i`: the corrected parameter, which clamping
      to `max_t` leaves unchanged. */
  lemma ParamInsideSegment<P(!new)>(a: Approx<P>, d: real, i: int)
    requires WellFormed(a) && 0.0 < a.maxT
    requires 1 <= i <= Segments(a)
    requires a.polyline.distances[i - 1] < d <= a.polyline.distances[i] && d < Length(a.polyline)
    ensures var ds := a.polyline.distances;
            ParamT(a, d) == Corrected(ParamAt(a.step, i), a.step, ds[i] - d, ds[i] - ds[i - 1])
  {
    var pl, ds := a.polyline, a.polyline.distances;
    var L := Length(pl);
    assert 0.0 <= ds[i - 1];
    StationSegmentUnique(pl, d, i, IndexAt(pl, d));
    assert Data(pl, i).value.0 == ds[i] && Data(pl, i).value.1 == ds[i] - ds[i - 1];
    StepFacts(a);
    ParamAtOrder(a.step, i, Segments(a));
  }

  /** A corrected parameter that falls short of the segment end lies
      strictly inside sample segment `i`, and so strictly between 0 and the
      parameter of the last sample. */
  lemma CorrectedInside(step: real, i: int, segments: int, short: real, length: real)
    requires step > 0.0 && 1 <= i <= segments
    requires 0.0 < short < length && MinSegment < length
    ensures var t := Corrected(ParamAt(step, i), step, short, length);
            && ParamAt(step, i - 1) < t < ParamAt(step, i)
            && 0.0 < t < ParamAt(step, segments)
  {
    ParamStep(step, i);
    ParamAtOrder(step, i - 1, 0);
    ParamAtOrder(step, i, segments);
  }

  /** A larger shortfall never gives a larger corrected parameter. */
  lemma CorrectedAntitone(tEnd: real, step: real, s1: real, s2: real, length: real)
    requires step > 0.0 && s1 <= s2
    ensures Corrected(tEnd, step, s2, length) <= Corrected(tEnd, step, s1, length)
  {
    if length > MinSegment {
      ShareOrder(step, s1, s2, length);
    }
  }

  /** With a positive `max_t`, `param_t` never decreases as the distance
      grows: across segments because the segments' parameter ranges are
      ordered, inside one segment because the correction shrinks as the
      distance approaches the segment's end station. */
  lemma ParamTMonotone<P(!new)>(a: Approx<P>, d1: real, d2: real)
    requires WellFormed(a) && 0.0 < a.maxT && d1 <= d2
    ensures ParamT(a, d1) <= ParamT(a, d2)
  {
    var pl, ds := a.polyline, a.polyline.distances;
    var L := Length(pl);
    StepFacts(a);
    if d2 >= L {
    } else if d1 <= 0.0 {
      if d2 > 0.0 {
        ParamAtOrder(a.step, 0, IndexAt(pl, d2) - 1);
      }
    } else {
      var i, j := IndexAt(pl, d1), IndexAt(pl, d2);
      IndexAtMonotone(pl, d1, d2);
      if i == j {
        ParamInsideSegment(a, d1, i);
        ParamInsideSegment(a, d2, i);
        CorrectedAntitone(ParamAt(a.step, i), a.step, ds[i] - d2, ds[i] - d1, ds[i] - ds[i - 1]);
      } else {
        ParamAtOrder(a.step, i, j - 1);
      }
    }
  }

  /** Round trip distance -> parameter -> distance: with a positive `max_t`,
      a distance inside a segment longer than `MinSegment` is recovered by
      `distance` from `param_t`. */
  lemma DistanceOfParam<P(!new)>(a: Approx<P>, d: real, i: int)
    requires WellFormed(a) && 0.0 < a.maxT
    requires 1 <= i <= Segments(a)
    requires a.polyline.distances[i - 1] < d <= a.polyline.distances[i]
    requires a.polyline.distances[i] - a.polyline.distances[i - 1] > MinSegment
    ensures Distance(a, ParamT(a, d)) == d
  {
    var ds := a.polyline.distances;
    var L := Length(a.polyline);
    assert ds[i] <= L;
    if d < ds[i] {
      DistanceOfParamInside(a, d, i);
    } else if d < L {
      DistanceOfParamAtStation(a, d, i);
    }
  }

  /** The round trip for a distance short of its segment's end station. */
  lemma DistanceOfParamInside<P(!new)>(a: Approx<P>, d: real, i: int)
    requires WellFormed(a) && 0.0 < a.maxT
    requires 1 <= i <= Segments(a)
    requires a.polyline.distances[i - 1] < d < a.polyline.distances[i]
    requires a.polyline.distances[i] - a.polyline.distances[i - 1] > MinSegment
    ensures Distance(a, ParamT(a, d)) == d
  {
    var ds := a.polyline.distances;
    var t := Corrected(ParamAt(a.step, i), a.step, ds[i] - d, ds[i] - ds[i - 1]);
    assert d < Length(a.polyline);
    ParamInsideSegment(a, d, i);
    StepFacts(a);
    CorrectedInside(a.step, i, Segments(a), ds[i] - d, ds[i] - ds[i - 1]);
    DistanceInsideSegment(a, t, i);
    InterpolatedUndoesCorrection(ParamAt(a.step, i), ds[i], a.step, ds[i] - ds[i - 1], ds[i] - d, t, d);
  }

  /** The round trip for a distance at the end station of a segment before
      the polyline's end: `param_t` gives that station's sample parameter. */
  lemma DistanceOfParamAtStation<P(!new)>(a: Approx<P>, d: real, i: int)
    requires WellFormed(a) && 0.0 < a.maxT
    requires 1 <= i <= Segments(a)
    requires a.polyline.distances[i] - a.polyline.distances[i - 1] > MinSegment
    requires d == a.polyline.distances[i] < Length(a.polyline)
    ensures Distance(a, ParamT(a, d)) == d
  {
    var ds := a.polyline.distances;
    ParamInsideSegment(a, d, i);
    assert ParamT(a, d) == ParamAt(a.step, i);
    DistanceAtSample(a, i);
  }
}
