/**
  Symbolic stand-ins for the Unity.Mathematics values that the fractal moves
  around. Nothing here is evaluated: a rotation or a vector is the term that
  built it, so two values are equal only when they were built the same way.
  That is all the index, ordering and footprint facts about the fractal need.

  Angles are written as multiples of pi: `RotateZ(-0.5)` is
  `quaternion.RotateZ(-0.5f * PI)`.
 */
module Geometry {

  /** A quaternion. `Zero` is `default(quaternion)`, the all-zero value a
      freshly cleared native array holds. */
  datatype Quat =
    | Zero
    | Identity
    | RotateX(halfTurnsX: real)
    | RotateY(halfTurnsY: real)
    | RotateZ(halfTurnsZ: real)
    | Mul(lhs: Quat, rhs: Quat)

  /** A float3. `Origin` is `default(float3)`; the five unit directions are
      `up()`, `right()`, `left()`, `forward()` and `back()`. */
  datatype Vec =
    | Origin
    | Up
    | Right
    | Left
    | Forward
    | Back
    | Add(a: Vec, b: Vec)
    | Rotate(q: Quat, v: Vec)
    | Scale(factor: real, w: Vec)

  /** A float3x4 instance matrix: the rotation matrix of `rotation` times a
      uniform `scale`, with `translation` in the last column. `Cleared` is the
      zero matrix of a freshly allocated array. */
  datatype Matrix =
    | Cleared
    | Trs(rotation: Quat, scale: real, translation: Vec)
}
