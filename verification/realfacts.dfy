/** Facts of real arithmetic the proofs of the engine lean on. */
module RealFacts {

  /** A part of a positive whole is a fraction in [0, 1]: positive for a
      positive part and below 1 for a part short of the whole. */
  lemma FractionBounds(x: real, w: real)
    requires 0.0 <= x <= w && 0.0 < w
    ensures 0.0 <= x / w <= 1.0
    ensures 0.0 < x ==> 0.0 < x / w
    ensures x < w ==> x / w < 1.0
    ensures x == w ==> x / w == 1.0
  {
    var f := x / w;
    assert f * w == x;
    if f >= 1.0 {
      assert (f - 1.0) * w >= 0.0;
      assert (f - 1.0) * w == 0.0;
      assert f == 1.0 && x == w;
    }
    if f <= 0.0 {
      assert (-f) * w >= 0.0;
      assert f == 0.0 && x == 0.0;
    }
  }

  /** The k-th of `n + 1` evenly spaced values from 0 to `total` lies in [0, total]. */
  lemma EvenSpacingBounds(total: real, k: nat, n: nat)
    requires total >= 0.0 && n > 0 && k <= n
    ensures 0.0 <= k as real * total / n as real <= total
    ensures k == 0 ==> k as real * total / n as real == 0.0
    ensures k == n ==> k as real * total / n as real == total
  {
    var q := k as real * total / n as real;
    assert q * n as real == k as real * total;
    assert k as real * total <= n as real * total;
  }

  /** With a positive step, `k` steps fit into `total` exactly when `k` is at
      most the floor of `total / step`. */
  lemma StepsFit(total: real, step: real, k: int)
    requires step > 0.0
    ensures k as real * step <= total <==> k <= (total / step).Floor
  {
    var q := total / step;
    assert q * step == total;
    if k as real * step <= total {
      assert k as real <= q;
    } else {
      assert k as real > q;
    }
  }

  /** Multiplying by a positive step keeps the order of step counts. */
  lemma ScaleOrder(a: int, b: int, step: real)
    requires step > 0.0
    ensures a as real * step < b as real * step <==> a < b
  {
    assert b as real * step - a as real * step == (b - a) as real * step;
  }

  /** A step count whose distance is still inside `total`, while `count`
      steps are past it, is below `count`; the next step adds `step`. */
  lemma StepInside(k: nat, count: int, step: real, distance: real, total: real)
    requires step > 0.0 && distance == k as real * step
    requires distance <= total < count as real * step
    ensures k < count && 0.0 <= distance
    ensures distance + step == (k + 1) as real * step
  {
    ScaleOrder(k, count, step);
  }

  /** A step count whose distance is past `total`, while one step fewer than
      `count` is not, is at least `count`. */
  lemma StepPast(k: int, count: int, step: real, distance: real, total: real)
    requires step > 0.0 && distance == k as real * step
    requires (count - 1) as real * step <= total < distance
    ensures k >= count
  {
    ScaleOrder(count - 1, k, step);
  }

  /** A fraction `f` of `n` scales back: `f * n` is the part it was taken of. */
  lemma FractionScalesBack(f: real, x: real, n: real)
    requires n != 0.0 && f == x / n
    ensures f * n == x
  {
  }

  /** Dividing by `n` and multiplying back by `n` restores the value. */
  lemma DivideAndScale(x: real, n: real)
    requires n != 0.0
    ensures (x / n) * n == x
    ensures n * (x / n) == x
  {
  }

  /** Scaling by `a` and dividing by `b` is undone by scaling by `b` and
      dividing by `a`. */
  lemma CancelScale(a: real, b: real, x: real, y: real)
    requires a != 0.0 && b != 0.0
    requires y == a * x / b
    ensures b * y / a == x
  {
    assert y * b == a * x;
    assert b * y == a * x;
  }

  /** One more step of a positive size: `s * (k + 1)` is `s * k + s`. */
  lemma NextStep(s: real, k: int)
    ensures s * (k + 1) as real == s * k as real + s
  {
  }

  /** An interpolation back from the top of a segment: with a weight `w`
      and a gap `g` in (0, s], `hi - w * g / s` lies in [hi - w, hi], strictly
      below `hi` when `w` is positive. */
  lemma BackInterpolation(hi: real, w: real, g: real, s: real)
    requires s > 0.0 && w >= 0.0 && 0.0 < g <= s
    ensures hi - w <= hi - w * g / s <= hi
    ensures w > 0.0 ==> hi - w * g / s < hi
    ensures w > 0.0 && g < s ==> hi - w < hi - w * g / s
  {
    var f := g / s;
    FractionBounds(g, s);
    assert w * g / s == w * f;
  }

  /** The k-th share of `x` split into `n` parts is `k` times one share. */
  lemma ShareOfWhole(k: real, x: real, n: real)
    requires n != 0.0
    ensures k * x / n == (x / n) * k == k * (x / n)
  {
    var u := x / n;
    assert u * n == x;
    assert k * x == (u * k) * n;
  }

  /** Scaling and dividing by the same positive amounts keeps the order of
      two values. */
  lemma ShareOrder(step: real, s1: real, s2: real, length: real)
    requires step > 0.0 && length > 0.0 && s1 <= s2
    ensures step * s1 / length <= step * s2 / length
  {
    var q1, q2 := step * s1 / length, step * s2 / length;
    assert q1 * length == step * s1;
    assert q2 * length == step * s2;
    assert (q1 - q2) * length == step * (s1 - s2);
    if q1 >= q2 {
      assert (q1 - q2) * length >= 0.0;
      assert step * (s2 - s1) >= 0.0;
      assert (q1 - q2) * length == 0.0;
      assert q1 == q2;
    }
  }

  /** The share `short / length` (below 1) of a positive step is below the
      step, and positive when `short` is. */
  lemma ShareOfStep(step: real, short: real, length: real)
    requires step > 0.0 && 0.0 <= short < length
    ensures 0.0 <= step * short / length < step
    ensures 0.0 < short ==> 0.0 < step * short / length
  {
    FractionBounds(short, length);
    assert step * short / length == step * (short / length);
  }
}
