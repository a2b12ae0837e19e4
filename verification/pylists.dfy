/** The pieces of Python's list semantics the engine relies on: integer
    indexing with negative indices, slice bounds, and `bisect.bisect_left`. */
module PyLists {
  import opened Outcomes

  /** The position a Python index denotes: negative indices count from the end. */
  function Wrap(k: int, n: nat): int {
    if k < 0 then k + n else k
  }

  /** `s[k]` for an integer `k`: IndexError outside `-|s| <= k < |s|`. */
  function At<T>(s: seq<T>, k: int): (r: Result<T>)
    ensures r.Ok? <==> -|s| <= k < |s|
    ensures r.Ok? ==> 0 <= Wrap(k, |s|) < |s| && r.value == s[Wrap(k, |s|)]
    ensures r.Err? ==> r.error == IndexOutOfRange
  {
    if -|s| <= k < |s| then Ok(s[Wrap(k, |s|)]) else Err(IndexOutOfRange)
  }

  /** A slice bound `k` of a list of length `n`, as Python normalises it:
      negative bounds count from the end, then the bound is clamped to [0, n]. */
  function SliceBound(k: int, n: nat): (r: nat)
    ensures r <= n
    ensures 0 <= k <= n ==> r == k
    ensures k < 0 && 0 <= k + n ==> r == k + n
  {
    if k < 0 then (if k + n < 0 then 0 else k + n)
    else if k > n then n else k
  }

  ghost predicate NonDecreasing(a: seq<real>) {
    forall i, j :: 0 <= i <= j < |a| ==> a[i] <= a[j]
  }

  /** The binary search loop of `bisect_left` on the window [lo, hi). Its loop
      invariant is the precondition: everything left of `lo` is below `x`,
      the entry at `hi` is not. */
  function BisectRange(a: seq<real>, x: real, lo: nat, hi: nat): (r: nat)
    requires lo <= hi <= |a|
    requires lo == 0 || a[lo - 1] < x
    requires hi == |a| || x <= a[hi]
    ensures lo <= r <= hi
    ensures r == 0 || a[r - 1] < x
    ensures r == |a| || x <= a[r]
    decreases hi - lo
  {
    if lo < hi then
      var mid := (lo + hi) / 2;
      if a[mid] < x then BisectRange(a, x, mid + 1, hi) else BisectRange(a, x, lo, mid)
    else
      lo
  }

  /** Reference definition of the lower bound: the index of the first entry
      not below `x`, found by a linear scan. */
  function LowerBound(a: seq<real>, x: real): (r: nat)
    ensures r <= |a|
    ensures forall i :: 0 <= i < r ==> a[i] < x
    ensures r == |a| || x <= a[r]
  {
    if |a| == 0 || x <= a[0] then 0 else 1 + LowerBound(a[1..], x)
  }

  /** `bisect.bisect_left(a, x)`. On any list the result is a local bracket of
      `x`: the entry before it is below `x`, the entry at it is not. */
  function BisectLeft(a: seq<real>, x: real): (r: nat)
    ensures r <= |a|
    ensures r == 0 || a[r - 1] < x
    ensures r == |a| || x <= a[r]
  {
    BisectRange(a, x, 0, |a|)
  }

  /** On a sorted list the binary search splits the entries below `x` from
      the entries at or above it, so it finds the linear lower bound. */
  lemma BisectLeftIsLowerBound(a: seq<real>, x: real)
    requires NonDecreasing(a)
    ensures forall i :: 0 <= i < BisectLeft(a, x) ==> a[i] < x
    ensures forall i :: BisectLeft(a, x) <= i < |a| ==> x <= a[i]
    ensures BisectLeft(a, x) == LowerBound(a, x)
  {
  }
}
