# Arc-length engine of ezdxf's construction polyline

This project models the arc-length engine in ezdxf's `src/ezdxf/math/polyline.py`
and proves properties of the model in Dafny.

`ConstructionPolyline` is an immutable list of vertices. Alongside it, the
*station* of every vertex is stored: the distance from the first vertex,
measured along the polyline. On top of the station list the class answers
these questions:

- the overall length;
- whether the polyline is closed;
- the `(station, segment length, vertex)` entry of a vertex;
- which vertex comes first at or after a given distance;
- which point lies at a given arc length.

It also divides the polyline into points, either evenly (`divide`) or at a
fixed arc length apart (`divide_by_length`).

`ApproxParamT` samples a parametrised curve at `segments + 1` evenly spaced
parameters into such a polyline. It then converts between curve parameter and
arc length by interpolating linearly inside one sample segment:

- `distance(t)` maps a parameter to an arc length;
- `param_t(d)` maps an arc length to a parameter.

The model's modules follow this structure:

- `Outcomes`: every exception the Python code raises becomes an `Err` value.
- `Points`: the point type is abstract. `Space` holds the two vector
  operations the engine uses: the magnitude of a difference (`gap`) and linear
  interpolation (`lerp`). Their laws are ghost predicates, each required only
  where it is used:
  - `Metric`: magnitudes are never negative;
  - `LerpEndpoints`: interpolation hits both endpoints;
  - `Proportional`: interpolating a fraction covers that fraction of the distance;
  - `Separating`: zero distance means the same point.
- `PyLists`: Python list indexing with negative indices, slice bounds, and
  `bisect.bisect_left`.
- `Stations`: the station list (`_distances`).
- `Polylines`: `ConstructionPolyline` itself.
- `Division`: `divide` and `divide_by_length`.
- `ParamApprox`: `ApproxParamT`.
- `RealFacts`: facts of real arithmetic used by the proofs.

The main results are:

- The station list never decreases.
- `bisect_left` agrees with a linear lower-bound search.
- `vertex_at(d)` lies exactly `d` along the polyline.
- `vertex_at(length)` is the last vertex.
- `divide` includes both end vertices.
- `divide_by_length` yields exactly `floor(length / step) + 1` stepped points, plus
  the forced last vertex exactly when it is missing.
- `distance` and `param_t` undo each other inside every sample segment longer
  than the 1e-12 cut-off.

## Model

| member | source | states |
|---|---|---|
| `Stations.Distances` | src/ezdxf/math/polyline.py:192-205 | one station per vertex; the first is 0, and each later one is the previous plus the length of the segment ending at its vertex |
| `Stations.AccumulateStations` | src/ezdxf/math/polyline.py:192-205 | the running-sum loop of `_distances` produces exactly the station list |
| `Stations.DistancesSorted` | src/ezdxf/math/polyline.py:192-205 | with non-negative magnitudes the stations never decrease and are never negative |
| `Stations.LastStationIsPathLength` | src/ezdxf/math/polyline.py:192-205 | the last station equals the sum of the segment lengths, as an independent front-to-back sum defines it |
| `Stations.DistancesOfSlice` | src/ezdxf/math/polyline.py:66-71 | the stations of a sub-list are the stations of the whole list, shifted so the sub-list starts at 0 |
| `Polylines.CloseVertices` | src/ezdxf/math/polyline.py:52-54 | closing a list of more than two vertices makes its last vertex equal to its first, by appending the first vertex only when it is missing; shorter lists are untouched |
| `Polylines.CloseIdempotent` | src/ezdxf/math/polyline.py:52-54 | closing an already closed list adds nothing |
| `Polylines.New` | src/ezdxf/math/polyline.py:43-56 | the constructed polyline keeps (or closes) the given vertices, stores exactly their stations, and is closed when closing was asked for on more than two vertices |
| `Polylines.IsClosed` | src/ezdxf/math/polyline.py:80-89 | closed exactly when there are more than two vertices and the Python indices `0` and `-1` give the same point |
| `Polylines.NewIsClosed` | src/ezdxf/math/polyline.py:43-89 | a constructed polyline is closed exactly when its vertices already were, or when closing was asked for on more than two vertices |
| `Polylines.Length` | src/ezdxf/math/polyline.py:73-78 | the length is the last station and no smaller than any station; it is 0 without segments |
| `Polylines.LengthIsPathLength` | src/ezdxf/math/polyline.py:73-78 | the length is the sum of all segment lengths |
| `Polylines.Item` | src/ezdxf/math/polyline.py:66-69 | indexing succeeds exactly for `-n <= i < n`, with negative indices counting from the end; otherwise IndexError |
| `Polylines.Slice` | src/ezdxf/math/polyline.py:66-71 | a slice is a new, valid polyline over the Python-normalised vertex range; its stations are re-based at its first vertex |
| `PyLists.At` | src/ezdxf/math/polyline.py:101-104 | a list access succeeds exactly inside `-|s| <= k < |s|` and returns the wrapped entry; otherwise IndexError |
| `Polylines.Data` | src/ezdxf/math/polyline.py:91-105 | fails on an empty polyline with ValueError, and outside `-n < i < n` with IndexError; otherwise returns the station, the non-negative length of the segment ending there (0 at the start) and the vertex |
| `Polylines.StationIsPathLength` | src/ezdxf/math/polyline.py:91-105 | the station reported by `data` is the path length up to that vertex |
| `PyLists.BisectLeft` | src/ezdxf/math/polyline.py:118-120 | on any list the result is a local bracket: the entry before it is below `x` and the entry at it is not |
| `PyLists.BisectLeftIsLowerBound` | src/ezdxf/math/polyline.py:118-120 | on a sorted list the binary search separates the entries below `x` from the rest and equals the linear lower bound |
| `Polylines.IndexAt` | src/ezdxf/math/polyline.py:107-116 | 0 at or before the start, the last index at or past the end, and otherwise the vertex whose segment holds the distance (`ds[i-1] < d <= ds[i]`) |
| `Polylines.IndexAtMonotone` | src/ezdxf/math/polyline.py:107-120 | a larger distance never gives a smaller index |
| `Polylines.SkipCoincident` | src/ezdxf/math/polyline.py:142-146 | the backward walk stops at index 0 or at the first station that differs, and every station it skipped equals the target station |
| `Polylines.VertexAtRaw` | src/ezdxf/math/polyline.py:132-150 | fails exactly on an empty polyline or past the end, with IndexError; gives the first vertex at or before the start; inside, interpolates the segment that holds the distance by its fraction of that segment, and never raises the internal interpolation error |
| `Polylines.VertexAt` | src/ezdxf/math/polyline.py:122-130 | fails exactly for a distance outside `[0, length]` (out of range) or fewer than two vertices; otherwise agrees with the unchecked lookup |
| `Polylines.EqualStationsSamePoint` | src/ezdxf/math/polyline.py:142-147 | vertices with equal stations are the same point, so skipping coincident vertices changes nothing |
| `Polylines.VertexAtStation` | src/ezdxf/math/polyline.py:122-150 | at the station of a vertex that ends a segment of positive length, `vertex_at` returns that vertex |
| `Polylines.VertexAtEnd` | src/ezdxf/math/polyline.py:122-150 | `vertex_at(length)` returns the last vertex |
| `Polylines.VertexAtArcLength` | src/ezdxf/math/polyline.py:122-150 | the point `vertex_at(d)` returns lies exactly `d` along the polyline |
| `Division.EvenStation` | src/ezdxf/math/polyline.py:161-161 | the k-th `linspace` station lies in `[0, length]`; the first is 0 and the last is the length |
| `Division.Divide` | src/ezdxf/math/polyline.py:152-162 | a count below 2 is refused; an empty polyline raises IndexError; otherwise exactly `count` points, each the point `vertex_at` finds at its evenly spaced station |
| `Division.DivideEndpoints` | src/ezdxf/math/polyline.py:152-162 | the first point is the first vertex and the last point is the last vertex |
| `Division.StepCount` | src/ezdxf/math/polyline.py:183-186 | the number of steps is the largest count whose every step stays within the length |
| `Division.SampleSteps` | src/ezdxf/math/polyline.py:178-186 | the stepping loop samples exactly the arc lengths 0, step, 2·step, … that do not pass the end |
| `Division.StepAlong` | src/ezdxf/math/polyline.py:178-186 | the stepped points are the points `vertex_at` finds at those arc lengths |
| `Division.DivideByLength` | src/ezdxf/math/polyline.py:164-189 | refuses a non-positive step and fewer than two vertices; otherwise yields the stepped points, followed by the last vertex exactly when `force_last` is set and the last stepped point is not already the last vertex |
| `ParamApprox.Samples` | src/ezdxf/math/polyline.py:239-241 | `segments + 1` samples; sample k is the curve at k parameter steps of `max_t / segments` |
| `ParamApprox.SampleParamIsStep` | src/ezdxf/math/polyline.py:240-243 | the k-th `linspace` parameter is k steps of the stored parameter step |
| `ParamApprox.MakeApprox` | src/ezdxf/math/polyline.py:230-243 | fails exactly for a non-positive segment count; otherwise a valid sample polyline of `segments` segments whose vertex k is the curve at parameter `k * step` |
| `ParamApprox.Truncate` | src/ezdxf/math/polyline.py:280-280 | Python's `int()` truncates toward zero: the floor for non-negative values and the ceiling for negative ones |
| `ParamApprox.SegmentOfParam` | src/ezdxf/math/polyline.py:279-280 | `int(t / step) + 1` is the sample segment whose parameter range holds `t` |
| `ParamApprox.ParamSegmentUnique` | src/ezdxf/math/polyline.py:279-280 | a parameter lies in only one sample segment |
| `ParamApprox.Interpolated` | src/ezdxf/math/polyline.py:281-282 | the interpolated distance stays within the segment's station range, strictly inside it when the parameter is strictly inside |
| `ParamApprox.SegmentDistance` | src/ezdxf/math/polyline.py:279-282 | the distance for a parameter in sample segment i lies between the stations of vertices i-1 and i |
| `ParamApprox.Distance` | src/ezdxf/math/polyline.py:269-282 | 0 at or before parameter 0, the polyline length from `max_t` on, and always within `[0, length]` |
| `ParamApprox.DistanceAtSample` | src/ezdxf/math/polyline.py:269-282 | at the parameter of sample i, `distance` is exactly the station of vertex i |
| `ParamApprox.DistanceInsideSegment` | src/ezdxf/math/polyline.py:269-282 | inside sample segment i, `distance` interpolates from the station of vertex i |
| `ParamApprox.Min` | src/ezdxf/math/polyline.py:267-267 | the smaller of the two values |
| `ParamApprox.Corrected` | src/ezdxf/math/polyline.py:264-266 | segments no longer than 1e-12 get no correction; for a distance inside the segment, the parameter lies within one step before the segment's end sample |
| `ParamApprox.SegmentParam` | src/ezdxf/math/polyline.py:262-266 | index 0 gives parameter 0; a distance inside segment i gives a parameter in that segment's range, open at the start and closed at the end |
| `ParamApprox.ParamT` | src/ezdxf/math/polyline.py:253-267 | never above `max_t`; `max_t` from the length on; `min(max_t, 0)` at or before the start; otherwise a parameter inside the sample segment `index_at` finds |
| `ParamApprox.CorrectedAntitone` | src/ezdxf/math/polyline.py:264-266 | the further a distance falls short of the segment's end station, the smaller (never larger) the corrected parameter |
| `ParamApprox.ParamTMonotone` | src/ezdxf/math/polyline.py:253-267 | with a positive `max_t`, `param_t` never decreases as the distance grows |
| `ParamApprox.ParamInsideSegment` | src/ezdxf/math/polyline.py:253-267 | for a distance in segment i, `param_t` is the corrected end parameter of that segment |
| `ParamApprox.CorrectedUndoesInterpolation` | src/ezdxf/math/polyline.py:264-282 | the parameter correction undoes the distance interpolation of the same segment |
| `ParamApprox.InterpolatedUndoesCorrection` | src/ezdxf/math/polyline.py:264-282 | the distance interpolation undoes the parameter correction of the same segment |
| `ParamApprox.ParamOfDistance` | src/ezdxf/math/polyline.py:253-282 | round trip: `param_t(distance(t)) == t` for every parameter strictly inside a sample segment longer than 1e-12 |
| `ParamApprox.DistanceOfParam` | src/ezdxf/math/polyline.py:253-282 | round trip: `distance(param_t(d)) == d` for every distance in a segment longer than 1e-12, with a positive `max_t` |

## Left out

- Floating point arithmetic: every float is an exact real. Rounding is not
  modelled. In floats, `int(t / step) + 1` can exceed `segments` for `t`
  just below `max_t`. It then indexes past the sample polyline, which the
  exact model cannot show.
- Tolerances: `isclose` with `rel_tol` is modelled as exact equality, both in
  the closing test and in the `force_last` test of `divide_by_length`.
  `rel_tol` is therefore not a parameter.
- `Vec3` arithmetic: points are abstract. Only the magnitude of a difference and
  linear interpolation are used, through `Space`.
- Generators: `divide` and `divide_by_length` are materialised as sequences.
  An exception the generator would raise on its first iteration is the `Err`
  result.
- `NULLVEC` is not modelled. It is the initial `vertex` of `divide_by_length`, and
  is never compared because at least one point is always yielded.
- `linspace` (in `ezdxf.math`) is not part of this model. Its values are taken
  to be exactly `k * stop / (count - 1)`.
- `__len__` and `__iter__` are modelled as the length of the vertex sequence
  and the sequence itself. They carry no contract of their own.
- Slices with a step or `None` bounds are not modelled; slices take two integer
  bounds, normalised as Python does.
- `max_t` and `polyline` are plain field accessors of `ApproxParamT`. The
  `hasattr(curve, "point")` assertion is not modelled: a curve is a function
  from parameters to points.
- Polylines.SegmentFraction: states the bounds of the interpolation
  fraction, not that the fraction times the segment length gives back the offset.
  That identity is proved separately, in `Polylines.VertexAtArcLength`.
- ParamApprox.ParamOfDistance and ParamApprox.DistanceOfParam: do not cover
  segments of length at most 1e-12. There `param_t` makes no correction and
  returns the end parameter of the segment, so no round trip holds.
- The code differs from the class's documentation in two places:
  - `divide` rejects only counts below 2, although its docstring says the count
    must be greater than 2. The model follows the code.
  - `divide` calls the unchecked `_vertex_at`. A one-vertex polyline therefore
    yields `count` copies of its vertex, and an empty one raises IndexError.
