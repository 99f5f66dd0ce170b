/**
 * The transcendental functions of JavaScript's `Math` that the Fourier utilities
 * call. Their values are not modelled: they are carried as parameters, and only the
 * few facts a proof needs are stated, each as a named predicate that holds of the
 * real functions.
 */
module Trig {

  datatype JsMath = JsMath(
    pi: real,
    cos: real -> real,
    sin: real -> real,
    hypot: (real, real) -> real,
    atan2: (real, real) -> real)

  /** `Math.hypot` is a length, so never negative. */
  ghost predicate HypotNonNegative(hypot: (real, real) -> real) {
    forall x, y :: hypot(x, y) >= 0.0
  }

  /** `Math.hypot(x, y)` is zero only for the zero vector. */
  ghost predicate HypotZeroOnlyAtOrigin(hypot: (real, real) -> real) {
    forall x, y :: hypot(x, y) == 0.0 <==> (x == 0.0 && y == 0.0)
  }

  /** `Math.cos(0) = 1` and `Math.sin(0) = 0`. */
  ghost predicate UnitAtZero(m: JsMath) {
    m.cos(0.0) == 1.0 && m.sin(0.0) == 0.0
  }

  /** `Math.atan2(0, 0) = 0`, and the angle of a vector in the closed upper half-plane
      lies in `[0, π]`, so is never negative. */
  ghost predicate Atan2UpperHalf(atan2: (real, real) -> real) {
    atan2(0.0, 0.0) == 0.0 && forall y, x :: y >= 0.0 ==> atan2(y, x) >= 0.0
  }
}
