/**
 * `Node2d`: the 2D transform cache of the scene's 2D nodes.
 *
 * A `Node2d` adds to its `NodeBase` part a position, a scale, a pivot, a
 * size, a rotation angle, a dirty flag and two cached matrices (local and
 * world). `Nodes2d` holds these fields for every 2D node of a scene, by id;
 * the tree itself is the scene's node map. The rotation matrix GLM builds
 * from an angle (`glm::rotate`) is a parameter of the model, as is the
 * inverse GLM computes (`glm::inverse`).
 */
module Node2d {
  import opened Wrappers
  import opened Forest
  import opened Naming
  import opened SceneGraph
  import opened Affine2
  import opened Cascade

  /** `M_PI` as a double. */
  const MPi: real := 3.141592653589793

  /** The fields `Node2d` adds to a node. */
  datatype Frame = Frame(dirty: bool, position: Vec2, scale: Vec2, pivot: Vec2, size: Vec2, rotation: real,
                         local: Mat3, world: Mat3)

  /**
   * The fields of a new node: zero size, position and pivot, unit scale,
   * no rotation, identity matrices. The constructor never sets the dirty
   * flag, so its first value is whatever the memory held: a parameter here.
   */
  function Initial(dirty: bool): Frame {
    Frame(dirty, Vec2(0.0, 0.0), Vec2(1.0, 1.0), Vec2(0.0, 0.0), Vec2(0.0, 0.0), 0.0, Identity, Identity)
  }

  /**
   * The local matrix `transform()` builds: the identity, translated by the
   * position, rotated, translated by the scale (a translation, not a
   * scaling), and translated back by the pivot.
   */
  function LocalMatrix(rotate: real -> Mat3, fr: Frame): Mat3 {
    Translate(Translate(Mul(Translate(Identity, fr.position), rotate(fr.rotation)), fr.scale), Neg(fr.pivot))
  }

  /** `transform()`: nothing when clean; otherwise rebuild the local matrix and clear the flag. */
  function Refreshed(rotate: real -> Mat3, fr: Frame): Frame {
    if !fr.dirty then fr else fr.(local := LocalMatrix(rotate, fr), dirty := false)
  }

  /** One node of `deepTransform(w)`: `transform()`, then world := w times local. */
  function Visit(rotate: real -> Mat3, fr: Frame, w: Mat3): Frame {
    var r := Refreshed(rotate, fr);
    r.(world := Mul(w, r.local))
  }

  function StepOf(rotate: real -> Mat3): (Frame, Mat3) -> Frame {
    (fr, w) => Visit(rotate, fr, w)
  }

  function WorldOf(fr: Frame): Mat3 {
    fr.world
  }

  // ---------------------------------------------------------------------
  // The transform cache
  // ---------------------------------------------------------------------

  /**
   * `transform()` leaves a clean node alone, leaves every node clean, touches
   * only the local matrix and the flag, and a second call changes nothing.
   */
  lemma RefreshedSettles(rotate: real -> Mat3, fr: Frame)
    ensures var r := Refreshed(rotate, fr);
            !r.dirty &&
            (!fr.dirty ==> r == fr) &&
            (fr.dirty ==> r.local == LocalMatrix(rotate, fr)) &&
            r.(local := fr.local, dirty := fr.dirty) == fr &&
            Refreshed(rotate, r) == r
  {
  }

  /** Visiting a visited node again is the same as visiting its old state under the new world. */
  lemma VisitSettles(rotate: real -> Mat3)
    ensures Settles(StepOf(rotate))
  {
    forall a, m1, m2
      ensures StepOf(rotate)(StepOf(rotate)(a, m1), m2) == StepOf(rotate)(a, m2)
    {
      var r := Refreshed(rotate, a);
      assert Refreshed(rotate, Visit(rotate, a, m1)) == r.(world := Mul(m1, r.local));
    }
  }

  /**
   * Because the scale is a translation, the point `pivot - scale` of the
   * node's own space lands on `position` in the parent's space, whatever the
   * rotation, as long as the rotation matrix keeps the homogeneous
   * coordinate and fixes the origin.
   */
  lemma LocalPlacesPivot(rotate: real -> Mat3, fr: Frame)
    requires var r := rotate(fr.rotation); r.row0.z == 0.0 && r.row1.z == 0.0 && r.row2.z == 1.0
    ensures Apply(LocalMatrix(rotate, fr), Lift(Vec2(fr.pivot.x - fr.scale.x, fr.pivot.y - fr.scale.y), 1.0))
         == Lift(fr.position, 1.0)
  {
    var p := Vec2(fr.pivot.x - fr.scale.x, fr.pivot.y - fr.scale.y);
    var t0 := Translate(Identity, fr.position);
    var t1 := Mul(t0, rotate(fr.rotation));
    var t2 := Translate(t1, fr.scale);
    ApplyMul(t2, Translation(Neg(fr.pivot)), Lift(p, 1.0));
    assert Apply(Translation(Neg(fr.pivot)), Lift(p, 1.0)) == Vec3(-fr.scale.x, -fr.scale.y, 1.0);
    ApplyMul(t1, Translation(fr.scale), Vec3(-fr.scale.x, -fr.scale.y, 1.0));
    assert Apply(Translation(fr.scale), Vec3(-fr.scale.x, -fr.scale.y, 1.0)) == Vec3(0.0, 0.0, 1.0);
    ApplyMul(t0, rotate(fr.rotation), Vec3(0.0, 0.0, 1.0));
    ApplyMul(Identity, Translation(fr.position), Vec3(0.0, 0.0, 1.0));
  }

  // ---------------------------------------------------------------------
  // Point conversions
  // ---------------------------------------------------------------------

  /** `glm::xy(m * vec3(pt, 0))`: every 2D conversion has this form. */
  function Linear(m: Mat3, pt: Vec2): Vec2 {
    Drop(Apply(m, Lift(pt, 0.0)))
  }

  /** `objectToParent(pt, object)`: through the node's local matrix. */
  function ObjectToParent(pt: Vec2, node: Frame): (r: Vec2)
    ensures r == Vec2(node.local.row0.x * pt.x + node.local.row0.y * pt.y, node.local.row1.x * pt.x + node.local.row1.y * pt.y)
  {
    Linear(node.local, pt)
  }

  /** `objectToWorld(pt, object)`: through the node's world matrix. */
  function ObjectToWorld(pt: Vec2, node: Frame): (r: Vec2)
    ensures r == Vec2(node.world.row0.x * pt.x + node.world.row0.y * pt.y, node.world.row1.x * pt.x + node.world.row1.y * pt.y)
  {
    Linear(node.world, pt)
  }

  /** `parentToObject(pt, object)`, where `inverse` is `glm::inverse(object.getTransform())`. */
  function ParentToObject(pt: Vec2, inverse: Mat3): (r: Vec2)
    ensures r == Vec2(inverse.row0.x * pt.x + inverse.row0.y * pt.y, inverse.row1.x * pt.x + inverse.row1.y * pt.y)
  {
    Linear(inverse, pt)
  }

  /** `worldToObject(pt, object)`, where `inverse` is `glm::inverse(object.getWorldTransform())`. */
  function WorldToObject(pt: Vec2, inverse: Mat3): (r: Vec2)
    ensures r == Vec2(inverse.row0.x * pt.x + inverse.row0.y * pt.y, inverse.row1.x * pt.x + inverse.row1.y * pt.y)
  {
    Linear(inverse, pt)
  }

  /** A conversion with a zero third coordinate ignores the translation column: the origin stays put. */
  lemma LinearKeepsOrigin(m: Mat3, v: Vec2)
    ensures Linear(m, Vec2(0.0, 0.0)) == Vec2(0.0, 0.0)
    ensures Linear(Translate(m, v), Vec2(0.0, 0.0)) == Vec2(0.0, 0.0)
  {
  }

  /** A translation on the right of the matrix changes no conversion. */
  lemma LinearIgnoresTranslation(m: Mat3, v: Vec2, pt: Vec2)
    ensures Linear(Translate(m, v), pt) == Linear(m, pt)
  {
    ApplyMul(m, Translation(v), Lift(pt, 0.0));
  }

  /**
   * For a refreshed node whose rotation matrix keeps the homogeneous
   * coordinate, `objectToParent` is the rotation alone: position, scale and
   * pivot play no part.
   */
  lemma ObjectToParentIsRotation(rotate: real -> Mat3, fr: Frame, pt: Vec2)
    requires fr.local == LocalMatrix(rotate, fr)
    requires var r := rotate(fr.rotation); r.row2.x == 0.0 && r.row2.y == 0.0
    ensures ObjectToParent(pt, fr) == Linear(rotate(fr.rotation), pt)
  {
    var t0 := Translate(Identity, fr.position);
    var t1 := Mul(t0, rotate(fr.rotation));
    var t2 := Translate(t1, fr.scale);
    LinearIgnoresTranslation(t2, Neg(fr.pivot), pt);
    LinearIgnoresTranslation(t1, fr.scale, pt);
    var q := Apply(rotate(fr.rotation), Lift(pt, 0.0));
    ApplyMul(t0, rotate(fr.rotation), Lift(pt, 0.0));
    ApplyMul(Identity, Translation(fr.position), q);
  }

  /**
   * The inverse conversion undoes the forward one for a matrix whose bottom
   * row is (0, 0, 1): `parentToObject` after `objectToParent`, and
   * `worldToObject` after `objectToWorld`.
   */
  lemma LinearRoundTrip(m: Mat3, inverse: Mat3, pt: Vec2)
    requires Mul(inverse, m) == Identity && IsAffine(m)
    ensures Linear(inverse, Linear(m, pt)) == pt
  {
    var v := Lift(pt, 0.0);
    assert Lift(Linear(m, pt), 0.0) == Apply(m, v);
    ApplyMul(inverse, m, v);
    ApplyIdentity(v);
  }

  lemma ParentRoundTrip(node: Frame, inverse: Mat3, pt: Vec2)
    requires Mul(inverse, node.local) == Identity && IsAffine(node.local)
    ensures ParentToObject(ObjectToParent(pt, node), inverse) == pt
  {
    LinearRoundTrip(node.local, inverse, pt);
  }

  lemma WorldRoundTrip(node: Frame, inverse: Mat3, pt: Vec2)
    requires Mul(inverse, node.world) == Identity && IsAffine(node.world)
    ensures WorldToObject(ObjectToWorld(pt, node), inverse) == pt
  {
    LinearRoundTrip(node.world, inverse, pt);
  }

  // ---------------------------------------------------------------------
  // Viewport
  // ---------------------------------------------------------------------

  /** `ci::Area`: integer corners; width and height are their differences. */
  datatype Area = Area(x1: int, y1: int, x2: int, y2: int) {
    function Width(): int { x2 - x1 }
    function Height(): int { y2 - y1 }
  }

  /** Normalised device coordinates to the viewport: x from -1..1 to X1..X1+W, y from 1..-1 to Y1..Y1+H. */
  function NdcToViewport(b: Vec2, viewport: Area): Vec2 {
    Vec2(viewport.x1 as real + viewport.Width() as real * (b.x + 1.0) / 2.0,
         viewport.y1 as real + viewport.Height() as real * (1.0 - (b.y + 1.0) / 2.0))
  }

  /** `objectToViewport(pt, transform, viewport)`. */
  function ObjectToViewport(pt: Vec2, transform: Mat3, viewport: Area): (r: Vec2)
    ensures r == NdcToViewport(Linear(transform, pt), viewport)
  {
    var b := Drop(Apply(transform, Lift(pt, 0.0)));
    Vec2(viewport.x1 as real + viewport.Width() as real * (b.x + 1.0) / 2.0,
         viewport.y1 as real + viewport.Height() as real * (1.0 - (b.y + 1.0) / 2.0))
  }

  /** The corners and the centre of the device square land on the corners and the centre of the viewport, y flipped. */
  lemma NdcCorners(viewport: Area)
    ensures NdcToViewport(Vec2(-1.0, 1.0), viewport) == Vec2(viewport.x1 as real, viewport.y1 as real)
    ensures NdcToViewport(Vec2(1.0, -1.0), viewport) == Vec2(viewport.x2 as real, viewport.y2 as real)
    ensures NdcToViewport(Vec2(0.0, 0.0), viewport)
         == Vec2(viewport.x1 as real + viewport.Width() as real / 2.0, viewport.y1 as real + viewport.Height() as real / 2.0)
  {
  }

  /** The viewport mapping is one-to-one on a viewport of nonzero width and height. */
  lemma NdcToViewportInjective(a: Vec2, b: Vec2, viewport: Area)
    requires viewport.Width() != 0 && viewport.Height() != 0
    requires NdcToViewport(a, viewport) == NdcToViewport(b, viewport)
    ensures a == b
  {
    var w := viewport.Width() as real;
    var h := viewport.Height() as real;
    assert w * (a.x + 1.0) == w * (b.x + 1.0);
    assert h * (1.0 - (a.y + 1.0) / 2.0) == h * (1.0 - (b.y + 1.0) / 2.0);
  }

  /** `viewportToObject(pt, object)`: a stub that always answers the origin. */
  function ViewportToObject(pt: Vec2, node: Frame): (r: Vec2)
    ensures r == Vec2(0.0, 0.0)
  {
    Vec2(0.0, 0.0)
  }

  /** `viewportToObject(pt, inverse_transform, viewport)`: its body is commented out; it answers the origin. */
  function ViewportToObjectWith(pt: Vec2, inverse: Mat3, viewport: Area): (r: Vec2)
    ensures r == Vec2(0.0, 0.0)
  {
    Vec2(0.0, 0.0)
  }

  /** `objectToViewport(pt, object)`: a stub that always answers the origin. */
  function ObjectToViewportOf(pt: Vec2, node: Frame): (r: Vec2)
    ensures r == Vec2(0.0, 0.0)
  {
    Vec2(0.0, 0.0)
  }

  // ---------------------------------------------------------------------
  // Pivot percentage and comparators
  // ---------------------------------------------------------------------

  /** `vec2::length()` in GLM: the number of components, not the norm. */
  function ComponentCount(v: Vec2): nat {
    2
  }

  /**
   * `getPivotPercentage()`: the pivot divided by the size. The guard
   * `mSize.length() > 0` compares the component count, so the zero branch is
   * never taken; a zero size component would divide by zero.
   */
  function PivotPercentage(fr: Frame): (r: Vec2)
    requires fr.size.x != 0.0 && fr.size.y != 0.0
    ensures Scaled(r, fr.size) == fr.pivot
  {
    assert ComponentCount(fr.size) as real > 0.0;
    Vec2(fr.pivot.x / fr.size.x, fr.pivot.y / fr.size.y)
  }

  /** `getPivotPercentage` inverts `setPivotPercentage` on a size with no zero component. */
  lemma PivotPercentageRoundTrip(fr: Frame, p: Vec2)
    requires fr.size.x != 0.0 && fr.size.y != 0.0
    ensures PivotPercentage(fr.(pivot := Scaled(p, fr.size))) == p
  {
  }

  /** `sortHorizontally`: strictly smaller x position. */
  predicate SortHorizontally(lhs: Frame, rhs: Frame) {
    lhs.position.x < rhs.position.x
  }

  /** `sortVertically`: strictly smaller y position. */
  predicate SortVertically(lhs: Frame, rhs: Frame) {
    lhs.position.y < rhs.position.y
  }

  /** The position comparators are strict weak orders, as `std::sort` needs: irreflexive, transitive, and with transitive ties. */
  lemma PositionOrdersAreStrictWeak(a: Frame, b: Frame, c: Frame)
    ensures !SortHorizontally(a, a) && !SortVertically(a, a)
    ensures SortHorizontally(a, b) && SortHorizontally(b, c) ==> SortHorizontally(a, c)
    ensures SortVertically(a, b) && SortVertically(b, c) ==> SortVertically(a, c)
    ensures !SortHorizontally(a, b) && !SortHorizontally(b, a) && !SortHorizontally(b, c) && !SortHorizontally(c, b)
            ==> !SortHorizontally(a, c) && !SortHorizontally(c, a)
    ensures !SortVertically(a, b) && !SortVertically(b, a) && !SortVertically(b, c) && !SortVertically(c, b)
            ==> !SortVertically(a, c) && !SortVertically(c, a)
  {
  }

  /** `sortBySize` compares component counts, which are always equal: it never reports "less". */
  function SortBySize(lhs: Frame, rhs: Frame): (r: bool)
    ensures !r
  {
    ComponentCount(lhs.size) < ComponentCount(rhs.size)
  }

  // ---------------------------------------------------------------------
  // The 2D nodes of a scene
  // ---------------------------------------------------------------------

  class Nodes2d {
    const graph: Scene
    /** The matrix `glm::rotate` multiplies by for an angle. */
    const rotate: real -> Mat3
    var frames: map<Id, Frame>

    /** Every 2D node is a node of the graph whose class converts to `Node2d`. */
    ghost predicate Valid()
      reads this, graph
    {
      graph.Valid() &&
      forall x :: x in frames ==> x in graph.nodes && IsA(graph.nodes[x].kind, Node2dClass)
    }

    constructor (graph: Scene, rotate: real -> Mat3)
      requires graph.Valid()
      ensures Valid() && this.graph == graph && this.rotate == rotate && frames == map[]
    {
      this.graph := graph;
      this.rotate := rotate;
      frames := map[];
    }

    /** `Node2d::create(name, active)`: a new scene node with the initial 2D fields; `dirty` is the flag's unset first value. */
    method Create(base: string, active: bool, counter: NameCounter, dirty: bool) returns (id: Id)
      requires Valid() && counter.Valid()
      modifies graph, counter, this
      ensures Valid() && counter.Valid()
      ensures id !in old(graph.nodes)
      ensures graph.nodes == old(graph.nodes)[id := Node(ObjectName(base, old(counter.value)), active, Node2dKind, None, [])]
      ensures graph.hooks == old(graph.hooks)
      ensures counter.value == (old(counter.value) + 1) % UINT64_LIMIT
      ensures frames == old(frames)[id := Initial(dirty)]
    {
      ghost var before := graph.nodes;
      id := graph.NewNode(base, active, Node2dKind, counter);
      forall x | x in frames
        ensures x in graph.nodes && IsA(graph.nodes[x].kind, Node2dClass)
      {
        assert x in before && x != id;
        assert graph.nodes[x] == before[x];
      }
      frames := frames[id := Initial(dirty)];
    }

    /** `getTransform()`: the cached local matrix, not recomputed. */
    function GetTransform(x: Id): (m: Mat3)
      requires x in frames
      reads this
      ensures m == frames[x].local
    {
      frames[x].local
    }

    /** `getWorldTransform()`: the cached world matrix, not recomputed. */
    function GetWorldTransform(x: Id): (m: Mat3)
      requires x in frames
      reads this
      ensures m == frames[x].world
    {
      frames[x].world
    }

    /** `setPosition(pt)` and `setPosition(x, y)`: store the position and mark the node dirty. */
    method SetPosition(x: Id, pt: Vec2)
      requires Valid() && x in frames
      modifies this
      ensures Valid()
      ensures frames == old(frames)[x := old(frames)[x].(position := pt, dirty := true)]
    {
      frames := frames[x := frames[x].(position := pt, dirty := true)];
    }

    /** `setScale(scale)`: the same factor on both axes; marks the node dirty. */
    method SetUniformScale(x: Id, scale: real)
      requires Valid() && x in frames
      modifies this
      ensures Valid()
      ensures frames == old(frames)[x := old(frames)[x].(scale := Vec2(scale, scale), dirty := true)]
    {
      SetScale(x, Vec2(scale, scale));
    }

    /** `setScale(vec2)` and `setScale(w, h)`: store the scale and mark the node dirty. */
    method SetScale(x: Id, scale: Vec2)
      requires Valid() && x in frames
      modifies this
      ensures Valid()
      ensures frames == old(frames)[x := old(frames)[x].(scale := scale, dirty := true)]
    {
      frames := frames[x := frames[x].(scale := scale, dirty := true)];
    }

    /** `setRotation(radians, use_degrees)`: with `use_degrees` the angle is multiplied by 180/pi; marks the node dirty. */
    method SetRotation(x: Id, radians: real, useDegrees: bool)
      requires Valid() && x in frames
      modifies this
      ensures Valid()
      ensures frames == old(frames)[x := old(frames)[x].(rotation := DegreesFlag(radians, useDegrees), dirty := true)]
    {
      var r := if useDegrees then radians * 180.0 / MPi else radians;
      frames := frames[x := frames[x].(rotation := r, dirty := true)];
    }

    /** `setPivot(pt)` and `setPivot(x, y)`: store the pivot and mark the node dirty. */
    method SetPivot(x: Id, pt: Vec2)
      requires Valid() && x in frames
      modifies this
      ensures Valid()
      ensures frames == old(frames)[x := old(frames)[x].(pivot := pt, dirty := true)]
    {
      frames := frames[x := frames[x].(pivot := pt, dirty := true)];
    }

    /** `setSize(size)`: store the size only; the dirty flag and the cached matrices stay as they are. */
    method SetSize(x: Id, size: Vec2)
      requires Valid() && x in frames
      modifies this
      ensures Valid()
      ensures frames == old(frames)[x := old(frames)[x].(size := size)]
    {
      frames := frames[x := frames[x].(size := size)];
    }

    /** `setPivotPercentage(pt)`: the pivot becomes `pt` times the size, componentwise; marks the node dirty. */
    method SetPivotPercentage(x: Id, pt: Vec2)
      requires Valid() && x in frames
      modifies this
      ensures Valid()
      ensures frames == old(frames)[x := old(frames)[x].(pivot := Scaled(pt, old(frames)[x].size), dirty := true)]
    {
      frames := frames[x := frames[x].(pivot := Scaled(pt, frames[x].size), dirty := true)];
    }

    /**
     * A write through one of the mutable accessors `position()`, `scale()`,
     * `rotation()` or `getPivot()`: the field changes and the dirty flag
     * does not.
     */
    method WriteThrough(x: Id, position: Vec2, scale: Vec2, rotation: real, pivot: Vec2)
      requires Valid() && x in frames
      modifies this
      ensures Valid()
      ensures frames == old(frames)[x := old(frames)[x].(position := position, scale := scale, rotation := rotation, pivot := pivot)]
    {
      frames := frames[x := frames[x].(position := position, scale := scale, rotation := rotation, pivot := pivot)];
    }

    /** `transform()` on node `x`. */
    method Transform(x: Id)
      requires Valid() && x in frames
      modifies this
      ensures Valid()
      ensures frames == old(frames)[x := Refreshed(rotate, old(frames)[x])]
    {
      if !frames[x].dirty {
        return;
      }
      var fr := frames[x];
      var m := Mul(Identity, Translation(fr.position));
      m := Mul(m, rotate(fr.rotation));
      m := Mul(m, Translation(fr.scale));
      m := Mul(m, Translation(Neg(fr.pivot)));
      frames := frames[x := fr.(local := m, dirty := false)];
    }

    /**
     * `deepTransform(world)` on node `x` (the world defaults to the
     * identity): every node of the subtree gets the visit that
     * `Cascade.Visits` describes, and no other node changes.
     */
    method DeepTransform(x: Id, world: Mat3, ghost rank: map<Id, nat>)
      requires Valid() && Ranked(graph.nodes, rank) && x in rank && Framed(graph.nodes, rank, frames, x)
      modifies this
      ensures Valid() && frames.Keys == old(frames).Keys
      ensures frames == old(frames) + Visits(graph.nodes, rank, old(frames), x, world, StepOf(rotate), WorldOf)
      decreases rank[x], 1
    {
      ghost var fs := frames;
      VisitNode(x, world);
      ghost var v := StepOf(rotate)(fs[x], world);
      assert v == Visit(rotate, fs[x], world);
      AgreeOnVisit(fs, x, world);
      DeepTransformChildren(x, rank, fs);
      VisitThenChildren(graph.nodes, rank, fs, x, world, StepOf(rotate), WorldOf);
    }

    /** The first two statements of `deepTransform(world)`: `transform()`, then world := world times local. */
    method VisitNode(x: Id, world: Mat3)
      requires Valid() && x in frames
      modifies this
      ensures Valid() && frames.Keys == old(frames).Keys
      ensures frames == old(frames)[x := Visit(rotate, old(frames)[x], world)]
    {
      Transform(x);
      var fr := frames[x];
      frames := frames[x := fr.(world := Mul(world, fr.local))];
    }

    /** After the visit of `x` alone, the map agrees with the old one. */
    lemma AgreeOnVisit(fs: map<Id, Frame>, x: Id, world: Mat3)
      requires x in fs
      ensures Agree(fs, fs[x := StepOf(rotate)(fs[x], world)], StepOf(rotate))
    {
      VisitSettles(rotate);
    }

    /** The loop of `deepTransform` over the children of `x`, under the world matrix `x` now holds. */
    method DeepTransformChildren(x: Id, ghost rank: map<Id, nat>, ghost fs: map<Id, Frame>)
      requires Valid() && Ranked(graph.nodes, rank) && x in rank && Framed(graph.nodes, rank, fs, x)
      requires x in frames && Agree(fs, frames, StepOf(rotate))
      modifies this
      ensures Valid() && frames.Keys == old(frames).Keys
      ensures frames == old(frames) + VisitsAll(graph.nodes, rank, fs, graph.nodes[x].children, rank[x], old(frames)[x].world, StepOf(rotate), WorldOf)
      decreases rank[x], 0
    {
      ghost var f := graph.nodes;
      ghost var step := StepOf(rotate);
      ghost var start := frames;
      var cs := graph.nodes[x].children;
      FramedChildren(f, rank, fs, x);
      VisitSettles(rotate);
      ProgressStart(f, rank, fs, x, start, start[x].world, step, WorldOf);
      var i := 0;
      while i < |cs|
        invariant 0 <= i <= |cs| && Valid() && frames.Keys == start.Keys
        invariant Progress(f, rank, fs, x, start, frames, i, start[x].world, step, WorldOf)
      {
        var c := cs[i];
        ghost var before := frames;
        VisitsAgree(f, rank, fs, frames, c, start[x].world, step, WorldOf);
        DeepTransform(c, frames[x].world, rank);
        ChildStep(f, rank, fs, x, start, before, i, start[x].world, step, WorldOf);
        i := i + 1;
      }
      ProgressEnd(f, rank, fs, x, start, frames, start[x].world, step, WorldOf);
    }
  }

  /** The angle `setRotation` stores: multiplied by 180/pi when the flag is set. */
  function DegreesFlag(radians: real, useDegrees: bool): (r: real)
    ensures useDegrees ==> r * MPi == radians * 180.0
    ensures !useDegrees ==> r == radians
  {
    if useDegrees then radians * 180.0 / MPi else radians
  }
}
