/**
 * Two-dimensional vectors with the operations the filament engine uses.
 *
 * Components are exact reals, not floating point. A norm `abs(v)` is never
 * computed. Every comparison `abs(v) <= d` (or `> d`) with `d >= 0` is stated as
 * `Abs2(v) <= d * d`, which is equivalent for reals.
 */
module Geometry {

  type Vector = (real, real)

  function Sum(lhs: Vector, rhs: Vector): Vector
  {
    (lhs.0 + rhs.0, lhs.1 + rhs.1)
  }

  function Diff(lhs: Vector, rhs: Vector): Vector
  {
    (lhs.0 - rhs.0, lhs.1 - rhs.1)
  }

  function Mul(scale: real, v: Vector): Vector
  {
    (scale * v.0, scale * v.1)
  }

  /** The square of the norm. */
  function Abs2(v: Vector): real
  {
    v.0 * v.0 + v.1 * v.1
  }

  function Dot(lhs: Vector, rhs: Vector): real
  {
    lhs.0 * rhs.0 + lhs.1 * rhs.1
  }

  /** `abs(diff(p, q)) <= d`, for a distance `d >= 0`. */
  predicate Within(p: Vector, q: Vector, d: real)
  {
    Abs2(Diff(p, q)) <= d * d
  }

  /** `abs(p) > d`, for a distance `d >= 0`. */
  predicate Beyond(p: Vector, d: real)
  {
    Abs2(p) > d * d
  }
}
