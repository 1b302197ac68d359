/** Unity's Vector3 and Vector2 as exact real-valued records, with the few
    operations the character script applies to them. Floating-point
    rounding is not modelled. */
module Vectors {

  datatype Vec3 = Vec3(x: real, y: real, z: real)
  datatype Vec2 = Vec2(x: real, y: real)

  const Zero: Vec3 := Vec3(0.0, 0.0, 0.0)
  /** Vector3.up */
  const Up: Vec3 := Vec3(0.0, 1.0, 0.0)
  /** Vector3.forward */
  const Forward: Vec3 := Vec3(0.0, 0.0, 1.0)

  function Add(a: Vec3, b: Vec3): Vec3 {
    Vec3(a.x + b.x, a.y + b.y, a.z + b.z)
  }

  function Sub(a: Vec3, b: Vec3): Vec3 {
    Vec3(a.x - b.x, a.y - b.y, a.z - b.z)
  }

  function Scale(v: Vec3, k: real): Vec3 {
    Vec3(v.x * k, v.y * k, v.z * k)
  }

  function Negate(v: Vec3): Vec3 {
    Vec3(-v.x, -v.y, -v.z)
  }

  /** `v` with its x component overwritten (C#: `vTest.x = x`). */
  function WithX(v: Vec3, x: real): Vec3 {
    v.(x := x)
  }

  /** `v` with its y component overwritten (C#: `vTest.y = y`). */
  function WithY(v: Vec3, y: real): Vec3 {
    v.(y := y)
  }

  /** `new Vector2(v.x, v.y)`: the z component is dropped. */
  function Flatten(v: Vec3): Vec2 {
    Vec2(v.x, v.y)
  }

  /** What the model knows of `Vector3.magnitude`: it is never negative and
      it is zero on the zero vector. Dafny has no square root, so the norm
      itself is a parameter. */
  ghost predicate NormLaws(f: Vec3 -> real) {
    && (forall v :: f(v) >= 0.0)
    && f(Zero) == 0.0
  }

  type Norm = f: Vec3 -> real | NormLaws(f) witness (v: Vec3) => 0.0
}
