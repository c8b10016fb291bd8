/** The part of glm's `vec3` that the renderer uses: points, directions and
    colours are triples of reals (glm's single-precision floats, without rounding). */
module Vectors {

  /** A glm `vec3`; as a colour, `x`, `y`, `z` are glm's `r`, `g`, `b`. */
  datatype Vec3 = Vec3(x: real, y: real, z: real)

  const Origin := Vec3(0.0, 0.0, 0.0)

  /** glm's `vec3(0.0f)` used as a colour. */
  const Black := Vec3(0.0, 0.0, 0.0)

  /** glm's component-wise `a + b`. */
  function Add(a: Vec3, b: Vec3): Vec3
  {
    Vec3(a.x + b.x, a.y + b.y, a.z + b.z)
  }

  /** glm's `s * v`. */
  function Scale(s: real, v: Vec3): Vec3
  {
    Vec3(s * v.x, s * v.y, s * v.z)
  }

  /** `std::min(a, b)`: `b < a ? b : a`. */
  function Min(a: real, b: real): real
  {
    if b < a then b else a
  }

  /** `std::max(a, b)`: `a < b ? b : a`. */
  function Max(a: real, b: real): real
  {
    if a < b then b else a
  }
}
