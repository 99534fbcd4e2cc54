/**
 * The 2D maths of `Node2d`: points, homogeneous 3-vectors and 3x3 matrices
 * over the reals, with the products GLM computes. Floating-point rounding
 * is not modelled. A matrix is stored row by row: `m.row0.z` is row 0,
 * column 2, the x part of the translation column.
 */
module Affine2 {

  datatype Vec2 = Vec2(x: real, y: real)

  datatype Vec3 = Vec3(x: real, y: real, z: real)

  /** A 3x3 matrix, row by row. */
  datatype Mat3 = Mat3(row0: Vec3, row1: Vec3, row2: Vec3)

  /** `mat3(1)`. */
  const Identity: Mat3 := Mat3(Vec3(1.0, 0.0, 0.0), Vec3(0.0, 1.0, 0.0), Vec3(0.0, 0.0, 1.0))

  function Neg(v: Vec2): Vec2 {
    Vec2(-v.x, -v.y)
  }

  /** Componentwise product, `vec2 * vec2`. */
  function Scaled(a: Vec2, b: Vec2): Vec2 {
    Vec2(a.x * b.x, a.y * b.y)
  }

  /** `vec3(pt, z)`. */
  function Lift(p: Vec2, z: real): Vec3 {
    Vec3(p.x, p.y, z)
  }

  /** `glm::xy`: the first two components. */
  function Drop(v: Vec3): Vec2 {
    Vec2(v.x, v.y)
  }

  function Add3(a: Vec3, b: Vec3): Vec3 {
    Vec3(a.x + b.x, a.y + b.y, a.z + b.z)
  }

  function Scale3(c: real, a: Vec3): Vec3 {
    Vec3(c * a.x, c * a.y, c * a.z)
  }

  /** The dot product of two 3-vectors. */
  function Dot3(u: Vec3, v: Vec3): real {
    u.x * v.x + u.y * v.y + u.z * v.z
  }

  /** The row `u` times the matrix `b`: the rows of `b` weighted by the entries of `u`. */
  function RowTimes3(u: Vec3, b: Mat3): Vec3 {
    Vec3(u.x * b.row0.x + u.y * b.row1.x + u.z * b.row2.x,
         u.x * b.row0.y + u.y * b.row1.y + u.z * b.row2.y,
         u.x * b.row0.z + u.y * b.row1.z + u.z * b.row2.z)
  }

  /** Matrix product: row `i` of the product is row `i` of `a` times `b`. */
  function Mul(a: Mat3, b: Mat3): Mat3 {
    Mat3(RowTimes3(a.row0, b), RowTimes3(a.row1, b), RowTimes3(a.row2, b))
  }

  /** Matrix times column vector. */
  function Apply(m: Mat3, v: Vec3): Vec3 {
    Vec3(Dot3(m.row0, v), Dot3(m.row1, v), Dot3(m.row2, v))
  }

  /** The homogeneous translation by `v`. */
  function Translation(v: Vec2): Mat3 {
    Mat3(Vec3(1.0, 0.0, v.x), Vec3(0.0, 1.0, v.y), Vec3(0.0, 0.0, 1.0))
  }

  /** `glm::translate(m, v)`: `m` followed, on the right, by the translation by `v`. */
  function Translate(m: Mat3, v: Vec2): Mat3 {
    Mul(m, Translation(v))
  }

  /** A matrix that keeps the homogeneous coordinate: its bottom row is (0, 0, 1). */
  predicate IsAffine(m: Mat3) {
    m.row2.x == 0.0 && m.row2.y == 0.0 && m.row2.z == 1.0
  }

  /** The dot product is linear in its first argument. */
  lemma DotLinear3(a: Vec3, b: Vec3, c: real, v: Vec3)
    ensures Dot3(Add3(a, b), v) == Dot3(a, v) + Dot3(b, v)
    ensures Dot3(Scale3(c, a), v) == c * Dot3(a, v)
  {
  }

  /** The row `u` times `b`, dotted with `v`, is the sum of the weighted rows of `b` dotted with `v`. */
  lemma RowSplits3(u: Vec3, b: Mat3, v: Vec3)
    ensures Dot3(RowTimes3(u, b), v) == Dot3(Scale3(u.x, b.row0), v) + Dot3(Scale3(u.y, b.row1), v) + Dot3(Scale3(u.z, b.row2), v)
  {
    var s0 := Scale3(u.x, b.row0);
    var s1 := Scale3(u.y, b.row1);
    var s2 := Scale3(u.z, b.row2);
    assert RowTimes3(u, b) == Add3(Add3(s0, s1), s2);
    DotLinear3(Add3(s0, s1), s2, 0.0, v);
    DotLinear3(s0, s1, 0.0, v);
  }

  /** A row of the product times `v` is the row of the left factor times `b v`. */
  lemma RowThrough3(u: Vec3, b: Mat3, v: Vec3)
    ensures Dot3(RowTimes3(u, b), v) == Dot3(u, Apply(b, v))
  {
    RowSplits3(u, b, v);
    DotLinear3(b.row0, b.row0, u.x, v);
    DotLinear3(b.row1, b.row1, u.y, v);
    DotLinear3(b.row2, b.row2, u.z, v);
  }

  /** Applying a product is applying its factors one after the other. */
  lemma ApplyMul(a: Mat3, b: Mat3, v: Vec3)
    ensures Apply(Mul(a, b), v) == Apply(a, Apply(b, v))
  {
    RowThrough3(a.row0, b, v);
    RowThrough3(a.row1, b, v);
    RowThrough3(a.row2, b, v);
  }

  /** The identity matrix changes no vector. */
  lemma ApplyIdentity(v: Vec3)
    ensures Apply(Identity, v) == v
  {
  }

  /** A translation moves a point (homogeneous coordinate 1) by `v` and leaves a direction (coordinate 0) alone. */
  lemma TranslationMoves(v: Vec2, p: Vec2)
    ensures Apply(Translation(v), Lift(p, 1.0)) == Lift(Vec2(p.x + v.x, p.y + v.y), 1.0)
    ensures Apply(Translation(v), Lift(p, 0.0)) == Lift(p, 0.0)
  {
  }

  /** Products of matrices that keep the homogeneous coordinate keep it too. */
  lemma AffineMul(a: Mat3, b: Mat3)
    requires IsAffine(a) && IsAffine(b)
    ensures IsAffine(Mul(a, b))
  {
  }
}
