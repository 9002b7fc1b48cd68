/** Points and directions in space, over the reals. */
module Vectors {

  datatype Vec3 = Vec3(x: real, y: real, z: real) {

    function Add(o: Vec3): Vec3 {
      Vec3(x + o.x, y + o.y, z + o.z)
    }

    function Sub(o: Vec3): Vec3 {
      Vec3(x - o.x, y - o.y, z - o.z)
    }

    function Mul(k: real): Vec3 {
      Vec3(x * k, y * k, z * k)
    }

    function Dot(o: Vec3): real {
      x * o.x + y * o.y + z * o.z
    }
  }

  const ZERO: Vec3 := Vec3(0.0, 0.0, 0.0)

  /** A length: nonnegative, its square the vector's product with itself. */
  ghost predicate IsLength(length: Vec3 -> real) {
    forall v :: length(v) >= 0.0 && length(v) * length(v) == v.Dot(v)
  }

  lemma DotMul(v: Vec3, w: Vec3, k: real)
    ensures v.Mul(k).Dot(w) == k * v.Dot(w) && v.Dot(w.Mul(k)) == k * v.Dot(w)
  {
    assert v.x * k * w.x == k * (v.x * w.x) && v.y * k * w.y == k * (v.y * w.y) && v.z * k * w.z == k * (v.z * w.z);
  }

  lemma DotSub(u: Vec3, v: Vec3, w: Vec3)
    ensures u.Sub(v).Dot(w) == u.Dot(w) - v.Dot(w)
  {
  }
}
