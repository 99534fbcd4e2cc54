/**
 * The 3D maths of `Node3d`: homogeneous 4-vectors and 4x4 matrices over the
 * reals with the products GLM computes, and quaternions. Floating-point
 * rounding is not modelled. A matrix is stored row by row: `m.row0.w` is
 * row 0, column 3, the x part of the translation column.
 *
 * What GLM computes from a quaternion (`glm::angleAxis`, `glm::toMat4` and
 * the quaternion product) is not part of this model: `QuatOps` carries
 * those three functions as parameters.
 */
module Projective3 {
  import opened Affine2

  datatype Vec4 = Vec4(x: real, y: real, z: real, w: real)

  /** A 4x4 matrix, row by row. */
  datatype Mat4 = Mat4(row0: Vec4, row1: Vec4, row2: Vec4, row3: Vec4)

  /** `glm::quat`, stored as (w, x, y, z). */
  datatype Quat = Quat(w: real, x: real, y: real, z: real)

  /** `glm::angleAxis`, `glm::toMat4` and `quat * quat`. */
  datatype QuatOps = QuatOps(angleAxis: (real, Vec3) -> Quat, toMat4: Quat -> Mat4, mul: (Quat, Quat) -> Quat)

  /** `mat4(1)`. */
  const Identity4: Mat4 := Mat4(Vec4(1.0, 0.0, 0.0, 0.0), Vec4(0.0, 1.0, 0.0, 0.0),
                                Vec4(0.0, 0.0, 1.0, 0.0), Vec4(0.0, 0.0, 0.0, 1.0))

  /** The identity rotation, (w, x, y, z) = (1, 0, 0, 0). */
  const IdentityQuat: Quat := Quat(1.0, 0.0, 0.0, 0.0)

  const XAxis: Vec3 := Vec3(1.0, 0.0, 0.0)
  const YAxis: Vec3 := Vec3(0.0, 1.0, 0.0)
  const ZAxis: Vec3 := Vec3(0.0, 0.0, 1.0)

  function Neg3(v: Vec3): Vec3 {
    Vec3(-v.x, -v.y, -v.z)
  }

  /** Componentwise product, `vec3 * vec3`. */
  function Scaled3(a: Vec3, b: Vec3): Vec3 {
    Vec3(a.x * b.x, a.y * b.y, a.z * b.z)
  }

  /** `vec4(p, w)`. */
  function Lift4(p: Vec3, w: real): Vec4 {
    Vec4(p.x, p.y, p.z, w)
  }

  /** `glm::xyz`: the first three components, with no division by w. */
  function Drop4(v: Vec4): Vec3 {
    Vec3(v.x, v.y, v.z)
  }

  function Add4(a: Vec4, b: Vec4): Vec4 {
    Vec4(a.x + b.x, a.y + b.y, a.z + b.z, a.w + b.w)
  }

  function Scale4(c: real, a: Vec4): Vec4 {
    Vec4(c * a.x, c * a.y, c * a.z, c * a.w)
  }

  /** The dot product of two 4-vectors. */
  function Dot4(u: Vec4, v: Vec4): real {
    u.x * v.x + u.y * v.y + u.z * v.z + u.w * v.w
  }

  /** The row `u` times the matrix `b`: the rows of `b` weighted by the entries of `u`. */
  function RowTimes(u: Vec4, b: Mat4): Vec4 {
    Vec4(u.x * b.row0.x + u.y * b.row1.x + u.z * b.row2.x + u.w * b.row3.x,
         u.x * b.row0.y + u.y * b.row1.y + u.z * b.row2.y + u.w * b.row3.y,
         u.x * b.row0.z + u.y * b.row1.z + u.z * b.row2.z + u.w * b.row3.z,
         u.x * b.row0.w + u.y * b.row1.w + u.z * b.row2.w + u.w * b.row3.w)
  }

  /** Matrix product: row `i` of the product is row `i` of `a` times `b`. */
  function Mul4(a: Mat4, b: Mat4): Mat4 {
    Mat4(RowTimes(a.row0, b), RowTimes(a.row1, b), RowTimes(a.row2, b), RowTimes(a.row3, b))
  }

  /** Matrix times column vector. */
  function Apply4(m: Mat4, v: Vec4): Vec4 {
    Vec4(Dot4(m.row0, v), Dot4(m.row1, v), Dot4(m.row2, v), Dot4(m.row3, v))
  }

  /** The homogeneous translation by `v`. */
  function Translation4(v: Vec3): Mat4 {
    Mat4(Vec4(1.0, 0.0, 0.0, v.x), Vec4(0.0, 1.0, 0.0, v.y), Vec4(0.0, 0.0, 1.0, v.z), Vec4(0.0, 0.0, 0.0, 1.0))
  }

  /** `glm::translate(m, v)`: `m` followed, on the right, by the translation by `v`. */
  function Translate4(m: Mat4, v: Vec3): Mat4 {
    Mul4(m, Translation4(v))
  }

  /** A matrix that keeps the homogeneous coordinate: its bottom row is (0, 0, 0, 1). */
  predicate IsAffine4(m: Mat4) {
    m.row3.x == 0.0 && m.row3.y == 0.0 && m.row3.z == 0.0 && m.row3.w == 1.0
  }

  /** The dot product is linear in its first argument. */
  lemma DotLinear(a: Vec4, b: Vec4, c: real, v: Vec4)
    ensures Dot4(Add4(a, b), v) == Dot4(a, v) + Dot4(b, v)
    ensures Dot4(Scale4(c, a), v) == c * Dot4(a, v)
  {
  }

  /** The row `u` times `b`, dotted with `v`, is the sum of the weighted rows of `b` dotted with `v`. */
  lemma RowSplits(u: Vec4, b: Mat4, v: Vec4)
    ensures Dot4(RowTimes(u, b), v)
         == Dot4(Scale4(u.x, b.row0), v) + Dot4(Scale4(u.y, b.row1), v) + Dot4(Scale4(u.z, b.row2), v) + Dot4(Scale4(u.w, b.row3), v)
  {
    var s0 := Scale4(u.x, b.row0);
    var s1 := Scale4(u.y, b.row1);
    var s2 := Scale4(u.z, b.row2);
    var s3 := Scale4(u.w, b.row3);
    assert RowTimes(u, b) == Add4(Add4(Add4(s0, s1), s2), s3);
    DotLinear(Add4(Add4(s0, s1), s2), s3, 0.0, v);
    DotLinear(Add4(s0, s1), s2, 0.0, v);
    DotLinear(s0, s1, 0.0, v);
  }

  /** A row of the product times `v` is the row of the left factor times `b v`. */
  lemma RowThrough(u: Vec4, b: Mat4, v: Vec4)
    ensures Dot4(RowTimes(u, b), v) == Dot4(u, Apply4(b, v))
  {
    RowSplits(u, b, v);
    DotLinear(b.row0, b.row0, u.x, v);
    DotLinear(b.row1, b.row1, u.y, v);
    DotLinear(b.row2, b.row2, u.z, v);
    DotLinear(b.row3, b.row3, u.w, v);
  }

  /** Applying a product is applying its factors one after the other. */
  lemma ApplyMul4(a: Mat4, b: Mat4, v: Vec4)
    ensures Apply4(Mul4(a, b), v) == Apply4(a, Apply4(b, v))
  {
    RowThrough(a.row0, b, v);
    RowThrough(a.row1, b, v);
    RowThrough(a.row2, b, v);
    RowThrough(a.row3, b, v);
  }

  /** The identity matrix changes no vector. */
  lemma ApplyIdentity4(v: Vec4)
    ensures Apply4(Identity4, v) == v
  {
  }

  /** A translation moves a point (w = 1) by `v`. */
  lemma Translation4Moves(v: Vec3, p: Vec3)
    ensures Apply4(Translation4(v), Lift4(p, 1.0)) == Lift4(Vec3(p.x + v.x, p.y + v.y, p.z + v.z), 1.0)
  {
  }

  /** A matrix with bottom row (0, 0, 0, 1) keeps w = 1. */
  lemma AffineKeepsW(m: Mat4, p: Vec3)
    requires IsAffine4(m)
    ensures Apply4(m, Lift4(p, 1.0)).w == 1.0
    ensures Lift4(Drop4(Apply4(m, Lift4(p, 1.0))), 1.0) == Apply4(m, Lift4(p, 1.0))
  {
  }
}
