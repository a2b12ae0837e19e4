/** Stations: the cumulative distance from the first vertex of a vertex list
    to each of its vertices, measured along the list. */
module Stations {
  import opened Points
  import opened PyLists

  /** The length of segment `i`, from vertex i-1 to vertex i. */
  function SegmentLength<P(!new)>(sp: Space<P>, vs: seq<P>, i: nat): real
    requires 1 <= i < |vs|
  {
    sp.gap(vs[i - 1], vs[i])
  }

  /** The station list of `vs`: one entry per vertex, the first 0, each later
      one the previous plus the length of the segment that ends at its vertex. */
  function Distances<P(!new)>(sp: Space<P>, vs: seq<P>): (r: seq<real>)
    ensures |r| == |vs|
    ensures |vs| > 0 ==> r[0] == 0.0
    ensures forall i {:trigger SegmentLength(sp, vs, i)} :: 0 < i < |vs| ==> r[i] == r[i - 1] + SegmentLength(sp, vs, i)
    decreases |vs|
  {
    if |vs| == 0 then []
    else if |vs| == 1 then [0.0]
    else
      var prefix := Distances(sp, vs[..|vs| - 1]);
      assert forall i :: 0 < i < |vs| - 1 ==> SegmentLength(sp, vs[..|vs| - 1], i) == SegmentLength(sp, vs, i);
      prefix + [prefix[|vs| - 2] + SegmentLength(sp, vs, |vs| - 1)]
  }

  /** Reference definition of the path length: the sum of the segment
      lengths, added up from the front. */
  function PathLength<P(!new)>(sp: Space<P>, vs: seq<P>): real
    decreases |vs|
  {
    if |vs| < 2 then 0.0 else sp.gap(vs[0], vs[1]) + PathLength(sp, vs[1..])
  }

  /** With non-negative magnitudes the stations never decrease and are never negative. */
  lemma {:induction false} DistancesSorted<P(!new)>(sp: Space<P>, vs: seq<P>)
    requires sp.Metric()
    ensures NonDecreasing(Distances(sp, vs))
    ensures forall i :: 0 <= i < |vs| ==> Distances(sp, vs)[i] >= 0.0
  {
    var r := Distances(sp, vs);
    var j := 0;
    while j < |r|
      invariant 0 <= j <= |r|
      invariant forall i, k :: 0 <= i <= k < j ==> r[i] <= r[k]
      invariant forall i :: 0 <= i < j ==> r[i] >= 0.0
    {
      if j > 0 {
        assert r[j] == r[j - 1] + SegmentLength(sp, vs, j);
      }
      j := j + 1;
    }
  }

  /** The stations of a sub-list are the stations of the whole list, shifted
      so that the sub-list's own first vertex is at 0. */
  lemma {:induction false} DistancesOfSlice<P(!new)>(sp: Space<P>, vs: seq<P>, lo: nat, hi: nat)
    requires lo <= hi <= |vs|
    ensures forall k :: 0 <= k < hi - lo ==>
              Distances(sp, vs[lo..hi])[k] == Distances(sp, vs)[lo + k] - Distances(sp, vs)[lo]
  {
    var s, r, d := vs[lo..hi], Distances(sp, vs[lo..hi]), Distances(sp, vs);
    var k := 0;
    while k < hi - lo
      invariant 0 <= k <= hi - lo
      invariant forall j :: 0 <= j < k ==> r[j] == d[lo + j] - d[lo]
    {
      if k > 0 {
        assert s[k - 1] == vs[lo + k - 1] && s[k] == vs[lo + k];
        assert r[k] == r[k - 1] + SegmentLength(sp, s, k);
        assert d[lo + k] == d[lo + k - 1] + SegmentLength(sp, vs, lo + k);
      }
      k := k + 1;
    }
  }

  /** The last station is the sum of all segment lengths. */
  lemma {:induction false} LastStationIsPathLength<P(!new)>(sp: Space<P>, vs: seq<P>)
    requires |vs| > 0
    ensures Distances(sp, vs)[|vs| - 1] == PathLength(sp, vs)
    decreases |vs|
  {
    if |vs| >= 2 {
      var d, t := Distances(sp, vs), Distances(sp, vs[1..]);
      LastStationIsPathLength(sp, vs[1..]);
      DistancesOfSlice(sp, vs, 1, |vs|);
      assert vs[1..|vs|] == vs[1..];
      assert t[|vs| - 2] == d[|vs| - 1] - d[1];
      assert d[1] == SegmentLength(sp, vs, 1);
    }
  }

  /** The accumulation loop of `_distances`: walks the vertices once, adding
      each segment length to the running station. */
  method AccumulateStations<P(!new)>(sp: Space<P>, vs: seq<P>) returns (ds: seq<real>)
    ensures |ds| == |vs|
    ensures ds == Distances(sp, vs)
  {
    var station := 0.0;
    ds := [];
    var i := 0;
    while i < |vs|
      invariant 0 <= i <= |vs|
      invariant ds == Distances(sp, vs[..i])
      invariant station == if i == 0 then 0.0 else ds[i - 1]
    {
      assert vs[..i + 1][..i] == vs[..i];
      if |ds| > 0 {
        station := station + sp.gap(vs[i - 1], vs[i]);
        ds := ds + [station];
        assert SegmentLength(sp, vs[..i + 1], i) == sp.gap(vs[i - 1], vs[i]);
      } else {
        ds := ds + [station];
      }
      i := i + 1;
    }
    assert vs[..i] == vs;
  }
}
