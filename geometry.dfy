/** Three-component vectors over the reals, standing for `glm::vec3`.
    Floating-point rounding is not modelled. */
module Geometry {

  datatype Vec3 = Vec3(x: real, y: real, z: real)
  {
    function Plus(v: Vec3): Vec3 {
      Vec3(x + v.x, y + v.y, z + v.z)
    }

    function Minus(v: Vec3): Vec3 {
      Vec3(x - v.x, y - v.y, z - v.z)
    }

    /** Component-wise product with a scalar (`v * k` in glm). */
    function Times(k: real): Vec3 {
      Vec3(x * k, y * k, z * k)
    }

    /** The squared Euclidean length; `glm::length(v)` is its non-negative square root. */
    function SqLength(): real {
      x * x + y * y + z * z
    }
  }

  const Zero: Vec3 := Vec3(0.0, 0.0, 0.0)
  const One: Vec3 := Vec3(1.0, 1.0, 1.0)

  /** `glm::length(p - q) < d`, stated without a square root: a length is never
      negative, so it is below `d` exactly when `d` is positive and the squared
      length is below `d * d`. */
  predicate Near(p: Vec3, q: Vec3, d: real) {
    d > 0.0 && p.Minus(q).SqLength() < d * d
  }

  /** The squared comparison agrees with comparing the length itself: for the
      non-negative root `len` of the squared distance, `Near` holds iff `len < d`. */
  lemma NearMatchesLength(p: Vec3, q: Vec3, d: real, len: real)
    requires len >= 0.0 && len * len == p.Minus(q).SqLength()
    ensures Near(p, q, d) <==> len < d
  {
    if d > 0.0 {
      // d * d - len * len factors as (d - len) * (d + len), whose second factor is positive
      assert d * d - len * len == (d - len) * (d + len);
      assert d + len > 0.0;
      if len < d {
        assert (d - len) * (d + len) > 0.0;
      } else {
        assert (len - d) * (d + len) >= 0.0;
      }
    }
  }
}
