/** Model matrices as glm builds them. Every glm call the scene graph makes
    (`glm::translate(m, v)`, `glm::rotate(m, a, axis)`, `glm::scale(m, s)`)
    right-multiplies `m` by one elementary matrix, so a matrix is kept as the
    word of elementary factors whose product it is. The product is then word
    concatenation, which is associative with the empty word as identity: any
    equation proved here holds for the 4x4 matrices themselves. */
module Matrices {
  import opened Wrappers
  import opened Geometry

  datatype Factor =
    | Translate(offset: Vec3)
    | RotateX(angle: real)
    | RotateY(angle: real)
    | RotateZ(angle: real)
    | ScaleBy(factors: Vec3)
  {
    /** True of a factor that can only move a point: a translation, a rotation by
        angle 0 or a scaling by (1, 1, 1) (the last two are the identity matrix). */
    predicate IsShift() {
      match this
      case Translate(_) => true
      case RotateX(a) => a == 0.0
      case RotateY(a) => a == 0.0
      case RotateZ(a) => a == 0.0
      case ScaleBy(s) => s == One
    }

    /** How far a shift factor moves a point. */
    function Shift(): Vec3 {
      if Translate? then offset else Zero
    }
  }

  type Mat = seq<Factor>

  /** `glm::mat4(1.0f)`. */
  const Identity: Mat := []

  function Mul(a: Mat, b: Mat): Mat {
    a + b
  }

  function SumOfShifts(m: Mat): Vec3 {
    if m == [] then Zero else m[0].Shift().Plus(SumOfShifts(m[1..]))
  }

  /** The translation a matrix performs, when it is a pure translation (every
      factor a shift); `None` when some factor rotates or scales. */
  function Displacement(m: Mat): Option<Vec3> {
    if forall i | 0 <= i < |m| :: m[i].IsShift() then Some(SumOfShifts(m)) else None
  }

  lemma {:induction false} SumOfShiftsOfProduct(a: Mat, b: Mat)
    ensures SumOfShifts(Mul(a, b)) == SumOfShifts(a).Plus(SumOfShifts(b))
  {
    if a != [] {
      assert Mul(a, b)[1..] == Mul(a[1..], b);
      SumOfShiftsOfProduct(a[1..], b);
    } else {
      assert Mul(a, b) == b;
    }
  }

  /** Composing two translation-only words translates by the sum of their
      offsets; conversely a word of factors is translation-only only if both of
      its halves are. The converse is about the words: as 4x4 matrices, two
      rotations that cancel multiply to a translation. */
  lemma DisplacementOfProduct(a: Mat, b: Mat)
    ensures Displacement(Mul(a, b)).Some? <==> Displacement(a).Some? && Displacement(b).Some?
    ensures Displacement(Mul(a, b)).Some? ==>
              Displacement(Mul(a, b)).value == Displacement(a).value.Plus(Displacement(b).value)
  {
    var ab := Mul(a, b);
    if Displacement(a).Some? && Displacement(b).Some? {
      forall i | 0 <= i < |ab| ensures ab[i].IsShift() {
        if i >= |a| { assert ab[i] == b[i - |a|]; }
      }
    }
    if Displacement(ab).Some? {
      forall i | 0 <= i < |a| ensures a[i].IsShift() { assert ab[i] == a[i]; }
      forall i | 0 <= i < |b| ensures b[i].IsShift() { assert ab[|a| + i] == b[i]; }
      SumOfShiftsOfProduct(a, b);
    }
  }
}
