/** The point type of the engine is abstract: the engine only ever measures the
    distance between two points and interpolates linearly between them. */
module Points {

  /** The two vector operations the engine borrows from its point type:
      `gap(a, b)` is the magnitude of `b - a`, and `lerp(a, b, f)` is the point
      a fraction `f` of the way from `a` to `b`. */
  datatype Space<!P(!new)> = Space(gap: (P, P) -> real, lerp: (P, P, real) -> P) {

    /** A magnitude is never negative. */
    ghost predicate Metric() {
      forall a, b :: gap(a, b) >= 0.0
    }

    /** Interpolating at 0 gives the start point and at 1 the end point. */
    ghost predicate LerpEndpoints() {
      forall a, b :: lerp(a, b, 0.0) == a && lerp(a, b, 1.0) == b
    }

    /** Interpolating a fraction `f` of the way covers the fraction `f` of the
        distance: true of straight segments in any normed vector space. */
    ghost predicate Proportional() {
      forall a, b, f :: 0.0 <= f <= 1.0 ==> gap(a, lerp(a, b, f)) == f * gap(a, b)
    }

    /** Points at distance zero are equal (exact stand-in for `isclose`). */
    ghost predicate Separating() {
      forall a, b :: gap(a, b) == 0.0 ==> a == b
    }
  }
}
