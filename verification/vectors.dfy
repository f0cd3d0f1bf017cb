/** Three-component vectors over the reals, standing in for Unity's
    single-precision `Vector3` (rounding is not modelled). */
module Vectors {

  datatype Vec3 = Vec3(x: real, y: real, z: real)

  /** `Vector3.zero`, also the default value of a fresh `Vector3[]` slot. */
  const Zero: Vec3 := Vec3(0.0, 0.0, 0.0)

  function Add(a: Vec3, b: Vec3): Vec3 {
    Vec3(a.x + b.x, a.y + b.y, a.z + b.z)
  }

  function Sub(a: Vec3, b: Vec3): Vec3 {
    Vec3(a.x - b.x, a.y - b.y, a.z - b.z)
  }

  function Scale(k: real, a: Vec3): Vec3 {
    Vec3(k * a.x, k * a.y, k * a.z)
  }

  /** Squared Euclidean length; `v.magnitude` is its square root. */
  function SqLen(v: Vec3): real {
    v.x * v.x + v.y * v.y + v.z * v.z
  }
}
