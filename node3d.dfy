/**
 * `Node3d`: the 3D transform cache of the scene's 3D nodes.
 *
 * A `Node3d` adds to its `NodeBase` part a position, a scale, a pivot and a
 * size (3-vectors), a rotation quaternion, a dirty flag and two cached 4x4
 * matrices (local and world). `Nodes3d` holds these fields for every 3D node
 * of a scene, by id. What GLM computes from quaternions is the `QuatOps`
 * parameter; the inverses GLM computes are inputs.
 */
module Node3d {
  import opened Wrappers
  import opened Forest
  import opened Naming
  import opened SceneGraph
  import opened Affine2
  import opened Projective3
  import opened Cascade
  import Node2d

  /** The fields `Node3d` adds to a node. */
  datatype Frame = Frame(dirty: bool, position: Vec3, scale: Vec3, pivot: Vec3, size: Vec3, rotation: Quat,
                         local: Mat4, world: Mat4)

  /**
   * The fields of a new node: zero size, position and pivot, unit scale,
   * identity matrices. The dirty flag is never set by the constructor, and
   * what `mRotation()` holds depends on how GLM's quaternion is built by
   * default (the identity or all zeros): both are parameters.
   */
  function Initial(dirty: bool, rotation: Quat): Frame {
    Frame(dirty, Vec3(0.0, 0.0, 0.0), Vec3(1.0, 1.0, 1.0), Vec3(0.0, 0.0, 0.0), Vec3(0.0, 0.0, 0.0), rotation,
          Identity4, Identity4)
  }

  /**
   * The local matrix `transform()` builds: the identity, translated by the
   * position, rotated by the quaternion's matrix, translated by the scale
   * (a translation, not a scaling), and translated back by the pivot.
   */
  function LocalMatrix(ops: QuatOps, fr: Frame): Mat4 {
    Translate4(Translate4(Mul4(Translate4(Identity4, fr.position), ops.toMat4(fr.rotation)), fr.scale), Neg3(fr.pivot))
  }

  /** `transform()`: nothing when clean; otherwise rebuild the local matrix and clear the flag. */
  function Refreshed(ops: QuatOps, fr: Frame): Frame {
    if !fr.dirty then fr else fr.(local := LocalMatrix(ops, fr), dirty := false)
  }

  /** One node of `deepTransform(w)`: `transform()`, then world := w times local. */
  function Visit(ops: QuatOps, fr: Frame, w: Mat4): Frame {
    var r := Refreshed(ops, fr);
    r.(world := Mul4(w, r.local))
  }

  function StepOf(ops: QuatOps): (Frame, Mat4) -> Frame {
    (fr, w) => Visit(ops, fr, w)
  }

  function WorldOf(fr: Frame): Mat4 {
    fr.world
  }

  /** The rotation `setRotation(x, y, z, use_degrees)` stores: x, then y, then z rotations, multiplied in that order. */
  function EulerRotation(ops: QuatOps, ax: real, ay: real, az: real, useDegrees: bool): (r: Quat)
    ensures !useDegrees ==>
              r == ops.mul(ops.mul(ops.angleAxis(ax, XAxis), ops.angleAxis(ay, YAxis)), ops.angleAxis(az, ZAxis))
    ensures useDegrees ==>
              r == ops.mul(ops.mul(ops.angleAxis(ax * 180.0 / Node2d.MPi, XAxis), ops.angleAxis(ay * 180.0 / Node2d.MPi, YAxis)),
                           ops.angleAxis(az * 180.0 / Node2d.MPi, ZAxis))
  {
    var x := ops.angleAxis(Node2d.DegreesFlag(ax, useDegrees), XAxis);
    var y := ops.angleAxis(Node2d.DegreesFlag(ay, useDegrees), YAxis);
    var z := ops.angleAxis(Node2d.DegreesFlag(az, useDegrees), ZAxis);
    ops.mul(ops.mul(x, y), z)
  }

  // ---------------------------------------------------------------------
  // The transform cache
  // ---------------------------------------------------------------------

  /**
   * `transform()` leaves a clean node alone, leaves every node clean, touches
   * only the local matrix and the flag, and a second call changes nothing.
   */
  lemma RefreshedSettles(ops: QuatOps, fr: Frame)
    ensures var r := Refreshed(ops, fr);
            !r.dirty &&
            (!fr.dirty ==> r == fr) &&
            (fr.dirty ==> r.local == LocalMatrix(ops, fr)) &&
            r.(local := fr.local, dirty := fr.dirty) == fr &&
            Refreshed(ops, r) == r
  {
    var r := Refreshed(ops, fr);
    assert !r.dirty;
  }

  /** Visiting a visited node again is the same as visiting its old state under the new world. */
  lemma VisitSettles(ops: QuatOps)
    ensures Settles(StepOf(ops))
  {
    forall a, m1, m2
      ensures StepOf(ops)(StepOf(ops)(a, m1), m2) == StepOf(ops)(a, m2)
    {
      var r := Refreshed(ops, a);
      assert !r.dirty;
      assert Refreshed(ops, Visit(ops, a, m1)) == r.(world := Mul4(m1, r.local));
    }
  }

  /**
   * Because the scale is a translation, the point `pivot - scale` of the
   * node's own space lands on `position` in the parent's space, whatever the
   * rotation, as long as the rotation matrix fixes the homogeneous origin.
   */
  lemma LocalPlacesPivot(ops: QuatOps, fr: Frame)
    requires Apply4(ops.toMat4(fr.rotation), Vec4(0.0, 0.0, 0.0, 1.0)) == Vec4(0.0, 0.0, 0.0, 1.0)
    ensures Apply4(LocalMatrix(ops, fr), Lift4(Vec3(fr.pivot.x - fr.scale.x, fr.pivot.y - fr.scale.y, fr.pivot.z - fr.scale.z), 1.0))
         == Lift4(fr.position, 1.0)
  {
    var p := Vec3(fr.pivot.x - fr.scale.x, fr.pivot.y - fr.scale.y, fr.pivot.z - fr.scale.z);
    var o := Vec4(0.0, 0.0, 0.0, 1.0);
    var t0 := Translate4(Identity4, fr.position);
    var t1 := Mul4(t0, ops.toMat4(fr.rotation));
    var t2 := Translate4(t1, fr.scale);
    ApplyMul4(t2, Translation4(Neg3(fr.pivot)), Lift4(p, 1.0));
    assert Apply4(Translation4(Neg3(fr.pivot)), Lift4(p, 1.0)) == Lift4(Neg3(fr.scale), 1.0);
    ApplyMul4(t1, Translation4(fr.scale), Lift4(Neg3(fr.scale), 1.0));
    assert Apply4(Translation4(fr.scale), Lift4(Neg3(fr.scale), 1.0)) == o;
    ApplyMul4(t0, ops.toMat4(fr.rotation), o);
    ApplyMul4(Identity4, Translation4(fr.position), o);
    ApplyIdentity4(Lift4(fr.position, 1.0));
  }

  // ---------------------------------------------------------------------
  // Point conversions
  // ---------------------------------------------------------------------

  /** `glm::xyz(m * vec4(pt, 1))`: every 3D conversion between node spaces has this form; w is dropped, not divided by. */
  function Affine(m: Mat4, pt: Vec3): Vec3 {
    Drop4(Apply4(m, Lift4(pt, 1.0)))
  }

  /** One row of a matrix applied to (x, y, z, 1): the translation entry is added. */
  function AffineRow(u: Vec4, pt: Vec3): real {
    u.x * pt.x + u.y * pt.y + u.z * pt.z + u.w
  }

  /** `objectToParent(pt, object)`: through the node's local matrix. */
  function ObjectToParent(pt: Vec3, node: Frame): (r: Vec3)
    ensures r == Vec3(AffineRow(node.local.row0, pt), AffineRow(node.local.row1, pt), AffineRow(node.local.row2, pt))
  {
    Affine(node.local, pt)
  }

  /** `objectToWorld(pt, object)`: through the node's world matrix. */
  function ObjectToWorld(pt: Vec3, node: Frame): (r: Vec3)
    ensures r == Vec3(AffineRow(node.world.row0, pt), AffineRow(node.world.row1, pt), AffineRow(node.world.row2, pt))
  {
    Affine(node.world, pt)
  }

  /** `parentToObject(pt, object)`, where `inverse` is `glm::inverse(object.getTransform())`. */
  function ParentToObject(pt: Vec3, inverse: Mat4): (r: Vec3)
    ensures r == Vec3(AffineRow(inverse.row0, pt), AffineRow(inverse.row1, pt), AffineRow(inverse.row2, pt))
  {
    Affine(inverse, pt)
  }

  /** `worldToObject(pt, object)`, where `inverse` is `glm::inverse(object.getWorldTransform())`. */
  function WorldToObject(pt: Vec3, inverse: Mat4): (r: Vec3)
    ensures r == Vec3(AffineRow(inverse.row0, pt), AffineRow(inverse.row1, pt), AffineRow(inverse.row2, pt))
  {
    Affine(inverse, pt)
  }

  /**
   * For a refreshed node whose rotation matrix fixes the homogeneous origin,
   * `objectToParent` takes `pivot - scale` to the node's position.
   */
  lemma ObjectToParentPlacesPivot(ops: QuatOps, fr: Frame)
    requires fr.local == LocalMatrix(ops, fr)
    requires Apply4(ops.toMat4(fr.rotation), Vec4(0.0, 0.0, 0.0, 1.0)) == Vec4(0.0, 0.0, 0.0, 1.0)
    ensures ObjectToParent(Vec3(fr.pivot.x - fr.scale.x, fr.pivot.y - fr.scale.y, fr.pivot.z - fr.scale.z), fr) == fr.position
  {
    LocalPlacesPivot(ops, fr);
  }

  /**
   * The inverse conversion undoes the forward one for a matrix whose bottom
   * row is (0, 0, 0, 1): `parentToObject` after `objectToParent`, and
   * `worldToObject` after `objectToWorld`.
   */
  lemma AffineRoundTrip(m: Mat4, inverse: Mat4, pt: Vec3)
    requires Mul4(inverse, m) == Identity4 && IsAffine4(m)
    ensures Affine(inverse, Affine(m, pt)) == pt
  {
    var v := Lift4(pt, 1.0);
    AffineKeepsW(m, pt);
    ApplyMul4(inverse, m, v);
    ApplyIdentity4(v);
  }

  lemma ParentRoundTrip(node: Frame, inverse: Mat4, pt: Vec3)
    requires Mul4(inverse, node.local) == Identity4 && IsAffine4(node.local)
    ensures ParentToObject(ObjectToParent(pt, node), inverse) == pt
  {
    AffineRoundTrip(node.local, inverse, pt);
  }

  lemma WorldRoundTrip(node: Frame, inverse: Mat4, pt: Vec3)
    requires Mul4(inverse, node.world) == Identity4 && IsAffine4(node.world)
    ensures WorldToObject(ObjectToWorld(pt, node), inverse) == pt
  {
    AffineRoundTrip(node.world, inverse, pt);
  }

  // ---------------------------------------------------------------------
  // Viewport and projection
  // ---------------------------------------------------------------------

  /** A viewport whose width and height are not zero: the divisions in `unproject` are defined. */
  predicate Proper(viewport: Node2d.Area) {
    viewport.Width() != 0 && viewport.Height() != 0
  }

  /** The first step of `unproject`: window coordinates and depth 0..1 to normalised device coordinates, w = 1. */
  function WindowToNdc(pt: Vec3, viewport: Node2d.Area): Vec4
    requires Proper(viewport)
  {
    Vec4((pt.x - viewport.x1 as real) / viewport.Width() as real * 2.0 - 1.0,
         (pt.y - viewport.y1 as real) / viewport.Height() as real * 2.0 - 1.0,
         2.0 * pt.z - 1.0,
         1.0)
  }

  /** The division by w of `unproject` and `objectToViewport`: by nothing when w is zero. */
  function Homogenize(b: Vec4): (r: Vec3)
    ensures b.w != 0.0 ==> r == Vec3(b.x / b.w, b.y / b.w, b.z / b.w)
    ensures b.w == 0.0 ==> r == Vec3(0.0, 0.0, 0.0)
  {
    var bw := if b.w != 0.0 then 1.0 / b.w else b.w;
    Vec3(b.x * bw, b.y * bw, b.z * bw)
  }

  /** `unproject(pt, composed_inverse, viewport)`. */
  function Unproject(pt: Vec3, inverse: Mat4, viewport: Node2d.Area): (r: Vec3)
    requires Proper(viewport)
    ensures var b := Apply4(inverse, WindowToNdc(pt, viewport));
            b.w != 0.0 ==> r == Vec3(b.x / b.w, b.y / b.w, b.z / b.w)
    ensures Apply4(inverse, WindowToNdc(pt, viewport)).w == 0.0 ==> r == Vec3(0.0, 0.0, 0.0)
  {
    Homogenize(Apply4(inverse, WindowToNdc(pt, viewport)))
  }

  /**
   * `unproject`'s window mapping inverts the viewport mapping of
   * `objectToViewport` with y reflected: window y = Y1 is device y = -1 here
   * and device y = 1 there. Depth 0 and 1 are the near and far planes.
   */
  lemma WindowToNdcInvertsViewport(pt: Vec3, viewport: Node2d.Area)
    requires Proper(viewport)
    ensures var n := WindowToNdc(pt, viewport);
            Node2d.NdcToViewport(Vec2(n.x, -n.y), viewport) == Vec2(pt.x, pt.y) &&
            (pt.z == 0.0 ==> n.z == -1.0) && (pt.z == 1.0 ==> n.z == 1.0)
  {
    var w := viewport.Width() as real;
    var h := viewport.Height() as real;
    var n := WindowToNdc(pt, viewport);
    assert w * (n.x + 1.0) / 2.0 == pt.x - viewport.x1 as real;
    assert h * (1.0 - (-n.y + 1.0) / 2.0) == pt.y - viewport.y1 as real;
  }

  /** The point at fraction `t` of the way from `a` to `b`: `lerp(a, b, t)`. */
  function Lerp(a: Vec3, b: Vec3, t: real): Vec3 {
    Vec3(a.x + (b.x - a.x) * t, a.y + (b.y - a.y) * t, a.z + (b.z - a.z) * t)
  }

  /**
   * The point of the line through `p0` and `p1` where z is 0, found as
   * `lerp(p0, p1, alpha)`; the near point `p0` when the line has constant z.
   * When z varies along the line, no other point of it lies in the plane z = 0.
   */
  function PlaneCrossing(p0: Vec3, p1: Vec3): (r: Vec3)
    ensures p1.z != p0.z ==> r.z == 0.0
    ensures p1.z == p0.z ==> r == p0
    ensures exists t :: r == Lerp(p0, p1, t)
    ensures p1.z != p0.z ==> forall t :: Lerp(p0, p1, t).z == 0.0 ==> Lerp(p0, p1, t) == r
  {
    var d := p1.z - p0.z;
    var alpha := if p1.z == p0.z then 0.0 else (0.0 - p0.z) / d;
    assert p1.z != p0.z ==> d * alpha == 0.0 - p0.z;
    assert p1.z != p0.z ==> forall t :: Lerp(p0, p1, t).z == 0.0 ==> t == alpha by {
      if p1.z != p0.z {
        forall t | Lerp(p0, p1, t).z == 0.0
          ensures t == alpha
        {
          assert d * t == d * alpha;
        }
      }
    }
    Lerp(p0, p1, alpha)
  }

  /**
   * The ray cast of `viewportToObject` from an already reflected window point
   * `p`: unproject it on the near and the far plane, and take the point of
   * that line where z is 0 (the near point when the line has constant z).
   * The result lies on the line through the two points; when they differ in
   * z it is the only point of that line in the plane z = 0.
   */
  function CastRay(p: Vec2, inverse: Mat4, viewport: Node2d.Area): (r: Vec3)
    requires Proper(viewport)
    ensures var p0 := Unproject(Vec3(p.x, p.y, 0.0), inverse, viewport);
            var p1 := Unproject(Vec3(p.x, p.y, 1.0), inverse, viewport);
            (p1.z != p0.z ==> r.z == 0.0) && (p1.z == p0.z ==> r == p0)
    ensures var p0 := Unproject(Vec3(p.x, p.y, 0.0), inverse, viewport);
            var p1 := Unproject(Vec3(p.x, p.y, 1.0), inverse, viewport);
            exists t :: r == Lerp(p0, p1, t)
    ensures var p0 := Unproject(Vec3(p.x, p.y, 0.0), inverse, viewport);
            var p1 := Unproject(Vec3(p.x, p.y, 1.0), inverse, viewport);
            p1.z != p0.z ==> forall t :: Lerp(p0, p1, t).z == 0.0 ==> Lerp(p0, p1, t) == r
  {
    PlaneCrossing(Unproject(Vec3(p.x, p.y, 0.0), inverse, viewport), Unproject(Vec3(p.x, p.y, 1.0), inverse, viewport))
  }

  /** The reflection of window y that `viewportToObject` applies: the height minus y, whatever Y1 is. */
  function FlipAsWritten(pt: Vec2, viewport: Node2d.Area): Vec2 {
    Vec2(pt.x, viewport.Height() as real - pt.y)
  }

  /** The reflection that undoes `objectToViewport`'s: about the middle of the viewport, Y1 + Y2 minus y. */
  function Flip(pt: Vec2, viewport: Node2d.Area): Vec2 {
    Vec2(pt.x, (viewport.y1 + viewport.y2) as real - pt.y)
  }

  /** The device y, in -1..1, of window y as `unproject` computes it. */
  function DeviceY(pt: Vec2, viewport: Node2d.Area): real
    requires Proper(viewport)
  {
    (pt.y - viewport.y1 as real) / viewport.Height() as real * 2.0 - 1.0
  }

  /**
   * A window point with the same x whose device y is `-DeviceY(pt) - shift`
   * has window y `Y1 + Y2 - y - shift * H / 2`: the reflection is determined
   * by what it does to device y.
   */
  lemma DeviceYDetermines(pt: Vec2, q: Vec2, viewport: Node2d.Area, shift: real)
    requires Proper(viewport)
    requires DeviceY(q, viewport) == -DeviceY(pt, viewport) - shift
    ensures q.y == (viewport.y1 + viewport.y2) as real - pt.y - shift * viewport.Height() as real / 2.0
  {
    var h := viewport.Height() as real;
    var a := q.y - viewport.y1 as real;
    var b := pt.y - viewport.y1 as real;
    assert a / h * 2.0 + b / h * 2.0 == 2.0 - shift;
    assert (a / h + b / h) * h == a + b;
    assert a + b == (2.0 - shift) / 2.0 * h;
  }

  /**
   * `viewportToObject(pt, composed_inverse, viewport)`, as written: it casts
   * the ray through the point whose device y is minus that of `pt`, shifted
   * by `4 * Y1 / H`; the shift vanishes only when the viewport's top edge is
   * at 0.
   */
  function ViewportToObjectAsWritten(pt: Vec2, inverse: Mat4, viewport: Node2d.Area): (r: Vec3)
    requires Proper(viewport)
    ensures forall q: Vec2 :: q.x == pt.x &&
              DeviceY(q, viewport) == -DeviceY(pt, viewport) - 4.0 * viewport.y1 as real / viewport.Height() as real
              ==> r == CastRay(q, inverse, viewport)
  {
    var shift := 4.0 * viewport.y1 as real / viewport.Height() as real;
    assert forall q: Vec2 | q.x == pt.x && DeviceY(q, viewport) == -DeviceY(pt, viewport) - shift
      :: q == FlipAsWritten(pt, viewport) by {
      forall q: Vec2 | q.x == pt.x && DeviceY(q, viewport) == -DeviceY(pt, viewport) - shift
        ensures q == FlipAsWritten(pt, viewport)
      {
        DeviceYDetermines(pt, q, viewport, shift);
      }
    }
    CastRay(FlipAsWritten(pt, viewport), inverse, viewport)
  }

  /**
   * `viewportToObject(pt, composed_inverse, viewport)`, with the reflection
   * about the viewport's own middle: it casts the ray through the point whose
   * device y is minus that of `pt`.
   */
  function ViewportToObject(pt: Vec2, inverse: Mat4, viewport: Node2d.Area): (r: Vec3)
    requires Proper(viewport)
    ensures forall q: Vec2 :: q.x == pt.x && DeviceY(q, viewport) == -DeviceY(pt, viewport)
              ==> r == CastRay(q, inverse, viewport)
  {
    assert forall q: Vec2 | q.x == pt.x && DeviceY(q, viewport) == -DeviceY(pt, viewport)
      :: q == Flip(pt, viewport) by {
      forall q: Vec2 | q.x == pt.x && DeviceY(q, viewport) == -DeviceY(pt, viewport)
        ensures q == Flip(pt, viewport)
      {
        DeviceYDetermines(pt, q, viewport, 0.0);
      }
    }
    CastRay(Flip(pt, viewport), inverse, viewport)
  }

  /**
   * The window point that `objectToViewport` gives for device coordinates
   * `b`, reflected and mapped back by `unproject`, is `b` again.
   */
  lemma FlipRoundTrip(b: Vec2, z: real, viewport: Node2d.Area)
    requires Proper(viewport)
    ensures var q := Flip(Node2d.NdcToViewport(b, viewport), viewport);
            var n := WindowToNdc(Vec3(q.x, q.y, z), viewport);
            n.x == b.x && n.y == b.y
  {
    var q := Flip(Node2d.NdcToViewport(b, viewport), viewport);
    var n := WindowToNdc(Vec3(q.x, q.y, z), viewport);
    var h := viewport.Height() as real;
    var w := viewport.Width() as real;
    assert q.y - viewport.y1 as real == h * (b.y + 1.0) / 2.0;
    assert q.x - viewport.x1 as real == w * (b.x + 1.0) / 2.0;
  }

  /** On a viewport whose top edge is at 0 the two reflections agree. */
  lemma FlipsAgreeAtOrigin(pt: Vec2, viewport: Node2d.Area)
    requires viewport.y1 == 0
    ensures FlipAsWritten(pt, viewport) == Flip(pt, viewport)
  {
  }

  /**
   * As written the round trip fails on a viewport whose top edge is not at
   * 0: the centre of the device square, shown in the viewport from (0, 10)
   * to (100, 110), comes back at device y = -0.4.
   */
  lemma FlipAsWrittenMissesCentre()
    ensures var viewport := Node2d.Area(0, 10, 100, 110);
            var q := FlipAsWritten(Node2d.NdcToViewport(Vec2(0.0, 0.0), viewport), viewport);
            WindowToNdc(Vec3(q.x, q.y, 0.0), viewport).y == -0.4
  {
    var viewport := Node2d.Area(0, 10, 100, 110);
    assert Node2d.NdcToViewport(Vec2(0.0, 0.0), viewport) == Vec2(50.0, 60.0);
  }

  /** `objectToViewport(pt, composed, viewport)`: into clip space, divided by w, then into the viewport. */
  function ObjectToViewport(pt: Vec3, composed: Mat4, viewport: Node2d.Area): (r: Vec2)
    ensures var b := Apply4(composed, Lift4(pt, 1.0));
            b.w != 0.0 ==> r == Node2d.NdcToViewport(Vec2(b.x / b.w, b.y / b.w), viewport)
    ensures Apply4(composed, Lift4(pt, 1.0)).w == 0.0 ==>
            r == Vec2(viewport.x1 as real + viewport.Width() as real / 2.0, viewport.y1 as real + viewport.Height() as real / 2.0)
  {
    var b := Homogenize(Apply4(composed, Lift4(pt, 1.0)));
    Node2d.NdcCorners(viewport);
    Node2d.NdcToViewport(Vec2(b.x, b.y), viewport)
  }

  /** `unproject(pt, object)`: a stub that always answers the origin. */
  function UnprojectOf(pt: Vec3, node: Frame): (r: Vec3)
    ensures r == Vec3(0.0, 0.0, 0.0)
  {
    Vec3(0.0, 0.0, 0.0)
  }

  /** `viewportToObject(pt, object)`: a stub that always answers the origin. */
  function ViewportToObjectOf(pt: Vec2, node: Frame): (r: Vec3)
    ensures r == Vec3(0.0, 0.0, 0.0)
  {
    Vec3(0.0, 0.0, 0.0)
  }

  /** `objectToViewport(pt, object)`: a stub that always answers the origin. */
  function ObjectToViewportOf(pt: Vec3, node: Frame): (r: Vec2)
    ensures r == Vec2(0.0, 0.0)
  {
    Vec2(0.0, 0.0)
  }

  // ---------------------------------------------------------------------
  // Pivot percentage and comparators
  // ---------------------------------------------------------------------

  /** `vec3::length()` in GLM: the number of components, not the norm. */
  function ComponentCount(v: Vec3): nat {
    3
  }

  /**
   * `getPivotPercentage()`: the pivot divided by the size. The guard
   * `mSize.length() > 0` compares the component count, so the zero branch is
   * never taken; a zero size component would divide by zero.
   */
  function PivotPercentage(fr: Frame): (r: Vec3)
    requires fr.size.x != 0.0 && fr.size.y != 0.0 && fr.size.z != 0.0
    ensures Scaled3(r, fr.size) == fr.pivot
  {
    assert ComponentCount(fr.size) as real > 0.0;
    Vec3(fr.pivot.x / fr.size.x, fr.pivot.y / fr.size.y, fr.pivot.z / fr.size.z)
  }

  /** `getPivotPercentage` inverts `setPivotPercentage` on a size with no zero component. */
  lemma PivotPercentageRoundTrip(fr: Frame, p: Vec3)
    requires fr.size.x != 0.0 && fr.size.y != 0.0 && fr.size.z != 0.0
    ensures PivotPercentage(fr.(pivot := Scaled3(p, fr.size))) == p
  {
  }

  /** `sortPositionX`: strictly smaller x position. */
  predicate SortPositionX(lhs: Frame, rhs: Frame) {
    lhs.position.x < rhs.position.x
  }

  /** `sortPositionY`: strictly smaller y position. */
  predicate SortPositionY(lhs: Frame, rhs: Frame) {
    lhs.position.y < rhs.position.y
  }

  /** `sortPositionZ`: strictly smaller z position. */
  predicate SortPositionZ(lhs: Frame, rhs: Frame) {
    lhs.position.z < rhs.position.z
  }

  /** The position comparators are strict weak orders: irreflexive, transitive, and with transitive ties. */
  lemma PositionOrdersAreStrictWeak(a: Frame, b: Frame, c: Frame)
    ensures !SortPositionX(a, a) && !SortPositionY(a, a) && !SortPositionZ(a, a)
    ensures SortPositionX(a, b) && SortPositionX(b, c) ==> SortPositionX(a, c)
    ensures SortPositionY(a, b) && SortPositionY(b, c) ==> SortPositionY(a, c)
    ensures SortPositionZ(a, b) && SortPositionZ(b, c) ==> SortPositionZ(a, c)
    ensures !SortPositionX(a, b) && !SortPositionX(b, a) && !SortPositionX(b, c) && !SortPositionX(c, b)
            ==> !SortPositionX(a, c) && !SortPositionX(c, a)
    ensures !SortPositionY(a, b) && !SortPositionY(b, a) && !SortPositionY(b, c) && !SortPositionY(c, b)
            ==> !SortPositionY(a, c) && !SortPositionY(c, a)
    ensures !SortPositionZ(a, b) && !SortPositionZ(b, a) && !SortPositionZ(b, c) && !SortPositionZ(c, b)
            ==> !SortPositionZ(a, c) && !SortPositionZ(c, a)
  {
  }

  /** `sortBySize` compares component counts, which are always equal: it never reports "less". */
  function SortBySize(lhs: Frame, rhs: Frame): (r: bool)
    ensures !r
  {
    ComponentCount(lhs.size) < ComponentCount(rhs.size)
  }

  // ---------------------------------------------------------------------
  // The 3D nodes of a scene
  // ---------------------------------------------------------------------

  class Nodes3d {
    const graph: Scene
    /** `glm::angleAxis`, `glm::toMat4` and the quaternion product. */
    const ops: QuatOps
    var frames: map<Id, Frame>

    /** Every 3D node is a node of the graph whose class converts to `Node3d`. */
    ghost predicate Valid()
      reads this, graph
    {
      graph.Valid() &&
      forall x :: x in frames ==> x in graph.nodes && IsA(graph.nodes[x].kind, Node3dClass)
    }

    constructor (graph: Scene, ops: QuatOps)
      requires graph.Valid()
      ensures Valid() && this.graph == graph && this.ops == ops && frames == map[]
    {
      this.graph := graph;
      this.ops := ops;
      frames := map[];
    }

    /**
     * `Node3d::create(name, active)`: a new scene node with the initial 3D
     * fields; `dirty` and `rotation` are the first values of the flag and the
     * quaternion.
     */
    method Create(base: string, active: bool, counter: NameCounter, dirty: bool, rotation: Quat) returns (id: Id)
      requires Valid() && counter.Valid()
      modifies graph, counter, this
      ensures Valid() && counter.Valid()
      ensures id !in old(graph.nodes)
      ensures graph.nodes == old(graph.nodes)[id := Node(ObjectName(base, old(counter.value)), active, Node3dKind, None, [])]
      ensures graph.hooks == old(graph.hooks)
      ensures counter.value == (old(counter.value) + 1) % UINT64_LIMIT
      ensures frames == old(frames)[id := Initial(dirty, rotation)]
    {
      ghost var before := graph.nodes;
      id := graph.NewNode(base, active, Node3dKind, counter);
      forall x | x in frames
        ensures x in graph.nodes && IsA(graph.nodes[x].kind, Node3dClass)
      {
        assert x in before && x != id;
        assert graph.nodes[x] == before[x];
      }
      frames := frames[id := Initial(dirty, rotation)];
    }

    /** `getTransform()`: the cached local matrix, not recomputed. */
    function GetTransform(x: Id): (m: Mat4)
      requires x in frames
      reads this
      ensures m == frames[x].local
    {
      frames[x].local
    }

    /** `getWorldTransform()`: the cached world matrix, not recomputed. */
    function GetWorldTransform(x: Id): (m: Mat4)
      requires x in frames
      reads this
      ensures m == frames[x].world
    {
      frames[x].world
    }

    /** `setPosition(pt)` and `setPosition(x, y, z)`: store the position and mark the node dirty. */
    method SetPosition(x: Id, pt: Vec3)
      requires Valid() && x in frames
      modifies this
      ensures Valid()
      ensures frames == old(frames)[x := old(frames)[x].(position := pt, dirty := true)]
    {
      frames := frames[x := frames[x].(position := pt, dirty := true)];
    }

    /** `setScale(scale)`: the same factor on all three axes; marks the node dirty. */
    method SetUniformScale(x: Id, scale: real)
      requires Valid() && x in frames
      modifies this
      ensures Valid()
      ensures frames == old(frames)[x := old(frames)[x].(scale := Vec3(scale, scale, scale), dirty := true)]
    {
      SetScale(x, Vec3(scale, scale, scale));
    }

    /** `setScale(vec3)` and `setScale(x, y, z)`: store the scale and mark the node dirty. */
    method SetScale(x: Id, scale: Vec3)
      requires Valid() && x in frames
      modifies this
      ensures Valid()
      ensures frames == old(frames)[x := old(frames)[x].(scale := scale, dirty := true)]
    {
      frames := frames[x := frames[x].(scale := scale, dirty := true)];
    }

    /** `setRotation(radians, axis)`: the quaternion of that angle about that axis; marks the node dirty. */
    method SetRotationAxis(x: Id, radians: real, axis: Vec3)
      requires Valid() && x in frames
      modifies this
      ensures Valid()
      ensures frames == old(frames)[x := old(frames)[x].(rotation := ops.angleAxis(radians, axis), dirty := true)]
    {
      frames := frames[x := frames[x].(rotation := ops.angleAxis(radians, axis), dirty := true)];
    }

    /** `setRotation(radians)`: the axis defaults to z. */
    method SetRotationAngle(x: Id, radians: real)
      requires Valid() && x in frames
      modifies this
      ensures Valid()
      ensures frames == old(frames)[x := old(frames)[x].(rotation := ops.angleAxis(radians, ZAxis), dirty := true)]
    {
      SetRotationAxis(x, radians, ZAxis);
    }

    /** `setRotation(quat)`: store the quaternion and mark the node dirty. */
    method SetRotationQuat(x: Id, rotation: Quat)
      requires Valid() && x in frames
      modifies this
      ensures Valid()
      ensures frames == old(frames)[x := old(frames)[x].(rotation := rotation, dirty := true)]
    {
      frames := frames[x := frames[x].(rotation := rotation, dirty := true)];
    }

    /**
     * `setRotation(angle_x, angle_y, angle_z, use_degrees)`: with
     * `use_degrees` each angle is multiplied by 180/pi first; the rotation is
     * the x, y and z rotations multiplied in that order. Marks the node dirty.
     */
    method SetRotationEuler(x: Id, ax: real, ay: real, az: real, useDegrees: bool)
      requires Valid() && x in frames
      modifies this
      ensures Valid()
      ensures frames == old(frames)[x := old(frames)[x].(rotation := EulerRotation(ops, ax, ay, az, useDegrees), dirty := true)]
    {
      var anglex, angley, anglez := ax, ay, az;
      if useDegrees {
        anglex := anglex * 180.0 / Node2d.MPi;
        angley := angley * 180.0 / Node2d.MPi;
        anglez := anglez * 180.0 / Node2d.MPi;
      }
      var xrot := ops.angleAxis(anglex, XAxis);
      var yrot := ops.angleAxis(angley, YAxis);
      var zrot := ops.angleAxis(anglez, ZAxis);
      frames := frames[x := frames[x].(rotation := ops.mul(ops.mul(xrot, yrot), zrot), dirty := true)];
    }

    /** `setPivot(pt)` and `setPivot(x, y, z)`: store the pivot and mark the node dirty. */
    method SetPivot(x: Id, pt: Vec3)
      requires Valid() && x in frames
      modifies this
      ensures Valid()
      ensures frames == old(frames)[x := old(frames)[x].(pivot := pt, dirty := true)]
    {
      frames := frames[x := frames[x].(pivot := pt, dirty := true)];
    }

    /** `setPivotPercentage(pt)`: the pivot becomes `pt` times the size, componentwise; marks the node dirty. */
    method SetPivotPercentage(x: Id, pt: Vec3)
      requires Valid() && x in frames
      modifies this
      ensures Valid()
      ensures frames == old(frames)[x := old(frames)[x].(pivot := Scaled3(pt, old(frames)[x].size), dirty := true)]
    {
      frames := frames[x := frames[x].(pivot := Scaled3(pt, frames[x].size), dirty := true)];
    }

    /**
     * A write through one of the mutable accessors `position()`, `scale()`,
     * `rotation()` or `pivot()`: the field changes and the dirty flag does not.
     */
    method WriteThrough(x: Id, position: Vec3, scale: Vec3, rotation: Quat, pivot: Vec3)
      requires Valid() && x in frames
      modifies this
      ensures Valid()
      ensures frames == old(frames)[x := old(frames)[x].(position := position, scale := scale, rotation := rotation, pivot := pivot)]
    {
      frames := frames[x := frames[x].(position := position, scale := scale, rotation := rotation, pivot := pivot)];
    }

    /** `transform()` on node `x`. */
    method Transform(x: Id)
      requires Valid() && x in frames
      modifies this
      ensures Valid()
      ensures frames == old(frames)[x := Refreshed(ops, old(frames)[x])]
    {
      if !frames[x].dirty {
        return;
      }
      var fr := frames[x];
      var m := Identity4;
      m := Translate4(m, fr.position);
      m := Mul4(m, ops.toMat4(fr.rotation));
      m := Translate4(m, fr.scale);
      m := Translate4(m, Neg3(fr.pivot));
      assert m == LocalMatrix(ops, fr);
      frames := frames[x := fr.(local := m, dirty := false)];
    }

    /**
     * `deepTransform(world)` on node `x` (the world defaults to the
     * identity): every node of the subtree gets the visit that
     * `Cascade.Visits` describes, and no other node changes.
     */
    method DeepTransform(x: Id, world: Mat4, ghost rank: map<Id, nat>)
      requires Valid() && Ranked(graph.nodes, rank) && x in rank && Framed(graph.nodes, rank, frames, x)
      modifies this
      ensures Valid() && frames.Keys == old(frames).Keys
      ensures frames == old(frames) + Visits(graph.nodes, rank, old(frames), x, world, StepOf(ops), WorldOf)
      decreases rank[x], 1
    {
      ghost var fs := frames;
      VisitNode(x, world);
      ghost var v := StepOf(ops)(fs[x], world);
      assert v == Visit(ops, fs[x], world);
      AgreeOnVisit(fs, x, world);
      DeepTransformChildren(x, rank, fs);
      VisitThenChildren(graph.nodes, rank, fs, x, world, StepOf(ops), WorldOf);
    }

    /** The first two statements of `deepTransform(world)`: `transform()`, then world := world times local. */
    method VisitNode(x: Id, world: Mat4)
      requires Valid() && x in frames
      modifies this
      ensures Valid() && frames.Keys == old(frames).Keys
      ensures frames == old(frames)[x := Visit(ops, old(frames)[x], world)]
    {
      Transform(x);
      var fr := frames[x];
      frames := frames[x := fr.(world := Mul4(world, fr.local))];
    }

    /** After the visit of `x` alone, the map agrees with the old one. */
    lemma AgreeOnVisit(fs: map<Id, Frame>, x: Id, world: Mat4)
      requires x in fs
      ensures Agree(fs, fs[x := StepOf(ops)(fs[x], world)], StepOf(ops))
    {
      VisitSettles(ops);
    }

    /** The loop of `deepTransform` over the children of `x`, under the world matrix `x` now holds. */
    method DeepTransformChildren(x: Id, ghost rank: map<Id, nat>, ghost fs: map<Id, Frame>)
      requires Valid() && Ranked(graph.nodes, rank) && x in rank && Framed(graph.nodes, rank, fs, x)
      requires x in frames && Agree(fs, frames, StepOf(ops))
      modifies this
      ensures Valid() && frames.Keys == old(frames).Keys
      ensures frames == old(frames) + VisitsAll(graph.nodes, rank, fs, graph.nodes[x].children, rank[x], old(frames)[x].world, StepOf(ops), WorldOf)
      decreases rank[x], 0
    {
      ghost var f := graph.nodes;
      ghost var step := StepOf(ops);
      ghost var start := frames;
      var cs := graph.nodes[x].children;
      FramedChildren(f, rank, fs, x);
      VisitSettles(ops);
      ProgressStart(f, rank, fs, x, start, start[x].world, step, WorldOf);
      var i := 0;
      while i < |cs|
        invariant 0 <= i <= |cs| && Valid() && frames.Keys == start.Keys
        invariant Progress(f, rank, fs, x, start, frames, i, start[x].world, step, WorldOf)
      {
        var c := cs[i];
        ghost var before := frames;
        VisitsAgree(f, rank, fs, frames, c, start[x].world, step, WorldOf);
        DeepTransform(c, frames[x].world, rank);
        ChildStep(f, rank, fs, x, start, before, i, start[x].world, step, WorldOf);
        i := i + 1;
      }
      ProgressEnd(f, rank, fs, x, start, frames, start[x].world, step, WorldOf);
    }
  }
}
