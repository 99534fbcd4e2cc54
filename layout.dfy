/**
 * The layout helpers of `Node2d`: aligning the children of a node on a line
 * and distributing them across a bounding rectangle.
 *
 * The horizontal and vertical versions are one algorithm along one axis:
 * LEFT/TOP, CENTER/MIDDLE and RIGHT/BOTTOM become `Low`, `Mid` and `High`.
 * The bounding rectangle `distribute*` reads from `getBounds()` is a
 * parameter. `std::sort` is a library call; the order it produces is the
 * function `SortedAlong`, which keeps ties in their child order.
 */
module Layout {
  import opened Forest
  import opened Affine2
  import opened Node2d

  datatype Axis = Horizontal | Vertical

  /** `HorizontalAlignment_t` and `VerticalAlignment_t`. */
  datatype HorizontalAlignment = Left | Center | Right
  datatype VerticalAlignment = Top | Middle | Bottom

  /** The alignment on one axis: the low edge, the middle, or the high edge. */
  datatype Alignment = Low | Mid | High

  function FromHorizontal(t: HorizontalAlignment): Alignment {
    match t
    case Left => Low
    case Center => Mid
    case Right => High
  }

  function FromVertical(t: VerticalAlignment): Alignment {
    match t
    case Top => Low
    case Middle => Mid
    case Bottom => High
  }

  /** `ci::Rectf`: `getWidth()` is `x2 - x1`, `getHeight()` is `y2 - y1`. */
  datatype Rect = Rect(x1: real, y1: real, x2: real, y2: real)

  function Along(v: Vec2, axis: Axis): real {
    if axis == Horizontal then v.x else v.y
  }

  /** `v` with its coordinate on `axis` replaced by `a`. */
  function Placed(v: Vec2, axis: Axis, a: real): (r: Vec2)
    ensures Along(r, axis) == a
    ensures Along(r, if axis == Horizontal then Vertical else Horizontal)
         == Along(v, if axis == Horizontal then Vertical else Horizontal)
  {
    if axis == Horizontal then Vec2(a, v.y) else Vec2(v.x, a)
  }

  /** `getX1()` or `getY1()`. */
  function Start(b: Rect, axis: Axis): real {
    if axis == Horizontal then b.x1 else b.y1
  }

  /** `getWidth()` or `getHeight()`. */
  function Extent(b: Rect, axis: Axis): real {
    if axis == Horizontal then b.x2 - b.x1 else b.y2 - b.y1
  }

  /** One component of `getPivotPercentage()`; the division needs a nonzero size on that axis. */
  function Fraction(fr: Frame, axis: Axis): (r: real)
    requires Along(fr.size, axis) != 0.0
    ensures r * Along(fr.size, axis) == Along(fr.pivot, axis)
  {
    Along(fr.pivot, axis) / Along(fr.size, axis)
  }

  /** The frames the alignment needs a pivot fraction of. */
  predicate Measurable(fr: Frame, axis: Axis, t: Alignment) {
    t != Mid ==> Along(fr.size, axis) != 0.0
  }

  /** Where a child goes on the axis for line `a`: `a + px * sx`, `a`, or `a - (1 - px) * sx`. */
  function Target(fr: Frame, axis: Axis, a: real, t: Alignment): real
    requires Measurable(fr, axis, t)
  {
    match t
    case Low => a + Fraction(fr, axis) * Along(fr.size, axis)
    case Mid => a
    case High => a - (1.0 - Fraction(fr, axis)) * Along(fr.size, axis)
  }

  /** The child after `setPosition`: the new coordinate on the axis, the other kept, and the dirty flag raised. */
  function AlignedAt(fr: Frame, axis: Axis, a: real, t: Alignment): Frame
    requires Measurable(fr, axis, t)
  {
    fr.(position := Placed(fr.position, axis, Target(fr, axis, a, t)), dirty := true)
  }

  /**
   * Alignment on `a`: `Low` puts the child's low edge (position minus
   * pivot) on `a`, `Mid` its position, `High` its high edge (low edge plus
   * size). The other coordinate, the size, the pivot and the matrices stay,
   * and aligning twice is aligning once.
   */
  lemma AlignedEdges(fr: Frame, axis: Axis, a: real, t: Alignment)
    requires Measurable(fr, axis, t)
    ensures var r := AlignedAt(fr, axis, a, t);
            var edge := Along(r.position, axis) - Along(fr.pivot, axis);
            (t == Low ==> edge == a) &&
            (t == Mid ==> Along(r.position, axis) == a) &&
            (t == High ==> edge + Along(fr.size, axis) == a) &&
            r.dirty &&
            r.(position := fr.position, dirty := fr.dirty) == fr &&
            Measurable(r, axis, t) && AlignedAt(r, axis, a, t) == r
  {
    var r := AlignedAt(fr, axis, a, t);
    if axis == Horizontal {
      assert r.position.y == fr.position.y;
    } else {
      assert r.position.x == fr.position.x;
    }
  }

  /** The state of every 2D node after aligning the children `cs` on `a`. */
  ghost predicate AlignedChildren(old_: map<Id, Frame>, new_: map<Id, Frame>, cs: seq<Id>, axis: Axis, a: real, t: Alignment)
  {
    new_.Keys == old_.Keys &&
    forall c :: c in old_ ==>
      if c in cs then Measurable(old_[c], axis, t) && new_[c] == AlignedAt(old_[c], axis, a, t)
      else new_[c] == old_[c]
  }

  /** `alignHorizontally` and `alignVertically` along `axis`: each child in turn gets `setPosition` with the target. */
  method Align(nodes: Nodes2d, x: Id, axis: Axis, a: real, t: Alignment)
    requires nodes.Valid() && x in nodes.graph.nodes
    requires forall c :: c in nodes.graph.nodes[x].children ==> c in nodes.frames && Measurable(nodes.frames[c], axis, t)
    modifies nodes
    ensures nodes.Valid()
    ensures AlignedChildren(old(nodes.frames), nodes.frames, nodes.graph.nodes[x].children, axis, a, t)
  {
    var cs := nodes.graph.nodes[x].children;
    ghost var start := nodes.frames;
    var i := 0;
    while i < |cs|
      invariant 0 <= i <= |cs| && nodes.Valid()
      invariant AlignedChildren(start, nodes.frames, cs[..i], axis, a, t)
    {
      var c := cs[i];
      var fr := nodes.frames[c];
      ghost var before := nodes.frames;
      nodes.SetPosition(c, Placed(fr.position, axis, Target(fr, axis, a, t)));
      AlignStep(start, before, nodes.frames, cs, i, axis, a, t);
      i := i + 1;
    }
    assert cs[..|cs|] == cs;
  }

  /** One turn of the alignment loop: the next child is aligned, whether or not it was already. */
  lemma AlignStep(start: map<Id, Frame>, before: map<Id, Frame>, after: map<Id, Frame>, cs: seq<Id>, i: nat,
                  axis: Axis, a: real, t: Alignment)
    requires i < |cs| && cs[i] in start && Measurable(start[cs[i]], axis, t)
    requires AlignedChildren(start, before, cs[..i], axis, a, t)
    requires var fr := before[cs[i]];
             Measurable(fr, axis, t) &&
             after == before[cs[i] := fr.(position := Placed(fr.position, axis, Target(fr, axis, a, t)), dirty := true)]
    ensures AlignedChildren(start, after, cs[..i + 1], axis, a, t)
  {
    AlignedEdges(start[cs[i]], axis, a, t);
    assert cs[..i + 1] == cs[..i] + [cs[i]];
  }

  /** `alignHorizontally(object, x, type)`. */
  method AlignHorizontally(nodes: Nodes2d, parent: Id, x: real, t: HorizontalAlignment)
    requires nodes.Valid() && parent in nodes.graph.nodes
    requires forall c :: c in nodes.graph.nodes[parent].children ==>
               c in nodes.frames && Measurable(nodes.frames[c], Horizontal, FromHorizontal(t))
    modifies nodes
    ensures nodes.Valid()
    ensures AlignedChildren(old(nodes.frames), nodes.frames, nodes.graph.nodes[parent].children, Horizontal, x, FromHorizontal(t))
  {
    Align(nodes, parent, Horizontal, x, FromHorizontal(t));
  }

  /** `alignVertically(object, y, type)`. */
  method AlignVertically(nodes: Nodes2d, parent: Id, y: real, t: VerticalAlignment)
    requires nodes.Valid() && parent in nodes.graph.nodes
    requires forall c :: c in nodes.graph.nodes[parent].children ==>
               c in nodes.frames && Measurable(nodes.frames[c], Vertical, FromVertical(t))
    modifies nodes
    ensures nodes.Valid()
    ensures AlignedChildren(old(nodes.frames), nodes.frames, nodes.graph.nodes[parent].children, Vertical, y, FromVertical(t))
  {
    Align(nodes, parent, Vertical, y, FromVertical(t));
  }

  // ---------------------------------------------------------------------
  // The sorted copy
  // ---------------------------------------------------------------------

  /** `sortHorizontally` or `sortVertically`: strictly smaller position on the axis. */
  predicate Before(fs: map<Id, Frame>, axis: Axis, a: Id, b: Id)
    requires a in fs && b in fs
  {
    Along(fs[a].position, axis) < Along(fs[b].position, axis)
  }

  /** No element comes before one to its left. */
  ghost predicate Sorted(fs: map<Id, Frame>, axis: Axis, s: seq<Id>)
    requires forall c :: c in s ==> c in fs
  {
    forall i, j :: 0 <= i < j < |s| ==> !Before(fs, axis, s[j], s[i])
  }

  /** `c` put after every element not after it. */
  function Insert(fs: map<Id, Frame>, axis: Axis, s: seq<Id>, c: Id): (r: seq<Id>)
    requires c in fs && forall y :: y in s ==> y in fs
    ensures multiset(r) == multiset(s) + multiset{c}
    ensures forall y :: y in r ==> y == c || y in s
  {
    if s == [] then [c]
    else if !Before(fs, axis, c, s[0]) then
      assert s == [s[0]] + s[1..];
      [s[0]] + Insert(fs, axis, s[1..], c)
    else [c] + s
  }

  /** The copy of the children sorted along the axis: the same children, each as often as before. */
  function SortedAlong(fs: map<Id, Frame>, axis: Axis, cs: seq<Id>): (r: seq<Id>)
    requires forall c :: c in cs ==> c in fs
    ensures multiset(r) == multiset(cs)
    ensures forall y :: y in r ==> y in cs
  {
    if cs == [] then []
    else
      assert cs == cs[..|cs| - 1] + [cs[|cs| - 1]];
      Insert(fs, axis, SortedAlong(fs, axis, cs[..|cs| - 1]), cs[|cs| - 1])
  }

  lemma ConsSorted(fs: map<Id, Frame>, axis: Axis, h: Id, t: seq<Id>)
    requires h in fs && forall y :: y in t ==> y in fs
    requires Sorted(fs, axis, t) && forall y :: y in t ==> !Before(fs, axis, y, h)
    ensures Sorted(fs, axis, [h] + t)
  {
    var s := [h] + t;
    forall i, j | 0 <= i < j < |s|
      ensures !Before(fs, axis, s[j], s[i])
    {
      assert s[j] == t[j - 1];
      if i > 0 {
        assert s[i] == t[i - 1];
      }
    }
  }

  lemma ConsNoDup(h: Id, t: seq<Id>)
    requires NoDup(t) && h !in t
    ensures NoDup([h] + t)
  {
    var s := [h] + t;
    forall i, j | 0 <= i < j < |s|
      ensures s[i] != s[j]
    {
      assert s[j] == t[j - 1];
      if i > 0 {
        assert s[i] == t[i - 1];
      }
    }
  }

  /** In a sorted sequence nothing comes before the head. */
  lemma HeadFirst(fs: map<Id, Frame>, axis: Axis, s: seq<Id>)
    requires forall y :: y in s ==> y in fs
    requires Sorted(fs, axis, s) && s != []
    ensures forall y :: y in s ==> !Before(fs, axis, y, s[0])
  {
    forall y | y in s
      ensures !Before(fs, axis, y, s[0])
    {
      var k :| 0 <= k < |s| && s[k] == y;
      assert k == 0 || !Before(fs, axis, s[k], s[0]);
    }
  }

  /** Inserting into a sorted sequence keeps it sorted. */
  lemma {:induction false} InsertSorted(fs: map<Id, Frame>, axis: Axis, s: seq<Id>, c: Id)
    requires c in fs && forall y :: y in s ==> y in fs
    requires Sorted(fs, axis, s)
    ensures Sorted(fs, axis, Insert(fs, axis, s, c))
  {
    if s == [] {
    } else if !Before(fs, axis, c, s[0]) {
      InsertSorted(fs, axis, s[1..], c);
      HeadFirst(fs, axis, s);
      ConsSorted(fs, axis, s[0], Insert(fs, axis, s[1..], c));
    } else {
      HeadFirst(fs, axis, s);
      ConsSorted(fs, axis, c, s);
    }
  }

  /** Inserting a new element into a sequence without duplicates adds none. */
  lemma {:induction false} InsertNoDup(fs: map<Id, Frame>, axis: Axis, s: seq<Id>, c: Id)
    requires c in fs && forall y :: y in s ==> y in fs
    requires NoDup(s) && c !in s
    ensures NoDup(Insert(fs, axis, s, c))
  {
    if s == [] {
    } else if !Before(fs, axis, c, s[0]) {
      InsertNoDup(fs, axis, s[1..], c);
      assert s[0] !in s[1..] by {
        forall i | 0 <= i < |s[1..]|
          ensures s[1..][i] != s[0]
        {
          assert s[1..][i] == s[i + 1];
        }
      }
      ConsNoDup(s[0], Insert(fs, axis, s[1..], c));
    } else {
      ConsNoDup(c, s);
    }
  }

  /** The sorted copy is in order. */
  lemma {:induction false} SortedAlongSorted(fs: map<Id, Frame>, axis: Axis, cs: seq<Id>)
    requires forall c :: c in cs ==> c in fs
    ensures Sorted(fs, axis, SortedAlong(fs, axis, cs))
  {
    if cs != [] {
      SortedAlongSorted(fs, axis, cs[..|cs| - 1]);
      InsertSorted(fs, axis, SortedAlong(fs, axis, cs[..|cs| - 1]), cs[|cs| - 1]);
    }
  }

  /** The sorted copy of a deque without duplicates has none. */
  lemma {:induction false} SortedAlongNoDup(fs: map<Id, Frame>, axis: Axis, cs: seq<Id>)
    requires forall c :: c in cs ==> c in fs
    requires NoDup(cs)
    ensures NoDup(SortedAlong(fs, axis, cs))
  {
    if cs != [] {
      var init := cs[..|cs| - 1];
      var last := cs[|cs| - 1];
      assert NoDup(init) by {
        forall i, j | 0 <= i < j < |init|
          ensures init[i] != init[j]
        {
          assert init[i] == cs[i] && init[j] == cs[j];
        }
      }
      assert last !in init by {
        forall i | 0 <= i < |init|
          ensures init[i] != last
        {
          assert init[i] == cs[i];
        }
      }
      SortedAlongNoDup(fs, axis, init);
      InsertNoDup(fs, axis, SortedAlong(fs, axis, init), last);
    }
  }

  /** An element of a sequence without duplicates sits at its own index. */
  lemma IndexOfNoDup(s: seq<Id>, k: nat)
    requires k < |s| && NoDup(s)
    ensures Index(s, s[k]) == k
  {
    var j := Index(s, s[k]);
    assert j <= k;
  }

  /** Without duplicates, the `k`-th element is not among the first `k`. */
  lemma NotEarlier(s: seq<Id>, k: nat)
    requires k < |s| && NoDup(s)
    ensures s[k] !in s[..k]
  {
    forall i | 0 <= i < k
      ensures s[..k][i] != s[k]
    {
      assert s[..k][i] == s[i];
    }
  }

  // ---------------------------------------------------------------------
  // Distribution
  // ---------------------------------------------------------------------

  /** The frames of the sorted children that the distribution reads a pivot fraction of. */
  predicate Distributable(fs: map<Id, Frame>, order: seq<Id>, axis: Axis, t: Alignment)
    requires forall c :: c in order ==> c in fs
  {
    |order| >= 1 &&
    (forall c :: c in order ==> Measurable(fs[c], axis, t)) &&
    (t == Mid ==> Along(fs[order[0]].size, axis) != 0.0 && Along(fs[order[|order| - 1]].size, axis) != 0.0)
  }

  /** The line of the first sorted child: `X1`, `X1 + px * sx` of the first, or `X1 + sx` of the first. */
  function FirstLine(fs: map<Id, Frame>, order: seq<Id>, axis: Axis, b: Rect, t: Alignment): real
    requires forall c :: c in order ==> c in fs
    requires Distributable(fs, order, axis, t)
  {
    var first := fs[order[0]];
    match t
    case Low => Start(b, axis)
    case Mid => Start(b, axis) + Fraction(first, axis) * Along(first.size, axis)
    case High => Start(b, axis) + Along(first.size, axis)
  }

  /**
   * The step between lines, the remaining extent divided by `n - 1`. With a
   * single child it is never added to a line that is used, so it is 0 here.
   */
  function Increment(fs: map<Id, Frame>, order: seq<Id>, axis: Axis, b: Rect, t: Alignment): real
    requires forall c :: c in order ==> c in fs
    requires Distributable(fs, order, axis, t)
  {
    var n := |order|;
    var first := fs[order[0]];
    var last := fs[order[n - 1]];
    if n == 1 then 0.0
    else
      var rest := match t
        case Low => Extent(b, axis) - Along(last.size, axis)
        case Mid => Extent(b, axis) - Fraction(first, axis) * Along(first.size, axis) - Fraction(last, axis) * Along(last.size, axis)
        case High => Extent(b, axis) - Along(first.size, axis);
      rest / (n - 1) as real
  }

  /** The line of the `k`-th sorted child. */
  function Line(fs: map<Id, Frame>, order: seq<Id>, axis: Axis, b: Rect, t: Alignment, k: nat): real
    requires forall c :: c in order ==> c in fs
    requires Distributable(fs, order, axis, t)
  {
    FirstLine(fs, order, axis, b, t) + k as real * Increment(fs, order, axis, b, t)
  }

  /** The state of every 2D node once the first `k` sorted children are placed. */
  ghost predicate PlacedUpTo(old_: map<Id, Frame>, new_: map<Id, Frame>, order: seq<Id>, k: nat, axis: Axis, b: Rect, t: Alignment)
    requires forall c :: c in order ==> c in old_
    requires Distributable(old_, order, axis, t) && k <= |order|
  {
    new_.Keys == old_.Keys &&
    forall c :: c in old_ ==>
      if c in order[..k] then new_[c] == AlignedAt(old_[c], axis, Line(old_, order, axis, b, t, Index(order, c)), t)
      else new_[c] == old_[c]
  }

  /** The state of every 2D node after distributing the sorted children `order`. */
  ghost predicate DistributedChildren(old_: map<Id, Frame>, new_: map<Id, Frame>, order: seq<Id>, axis: Axis, b: Rect, t: Alignment)
    requires forall c :: c in order ==> c in old_
    requires Distributable(old_, order, axis, t)
  {
    new_.Keys == old_.Keys &&
    forall c :: c in old_ ==>
      if c in order then new_[c] == AlignedAt(old_[c], axis, Line(old_, order, axis, b, t, Index(order, c)), t)
      else new_[c] == old_[c]
  }

  /** One turn of the distribution loop: the `k`-th sorted child gets its line. */
  lemma DistributeStep(start: map<Id, Frame>, before: map<Id, Frame>, after: map<Id, Frame>, order: seq<Id>, k: nat,
                       axis: Axis, b: Rect, t: Alignment, line: real)
    requires forall c :: c in order ==> c in start
    requires Distributable(start, order, axis, t) && NoDup(order) && k < |order|
    requires PlacedUpTo(start, before, order, k, axis, b, t)
    requires line == Line(start, order, axis, b, t, k)
    requires var fr := before[order[k]];
             Measurable(fr, axis, t) &&
             after == before[order[k] := fr.(position := Placed(fr.position, axis, Target(fr, axis, line, t)), dirty := true)]
    ensures PlacedUpTo(start, after, order, k + 1, axis, b, t)
  {
    NotEarlier(order, k);
    IndexOfNoDup(order, k);
    assert order[..k + 1] == order[..k] + [order[k]];
  }

  /** Once every sorted child is placed, the distribution is done. */
  lemma PlacedAll(start: map<Id, Frame>, now: map<Id, Frame>, order: seq<Id>, axis: Axis, b: Rect, t: Alignment)
    requires forall c :: c in order ==> c in start
    requires Distributable(start, order, axis, t)
    requires PlacedUpTo(start, now, order, |order|, axis, b, t)
    ensures DistributedChildren(start, now, order, axis, b, t)
  {
    assert order[..|order|] == order;
  }

  /**
   * `distributeHorizontally` and `distributeVertically` along `axis`: sort a
   * copy of the children, then give the `k`-th the position for line
   * `FirstLine + k * Increment`. `children.back()` on an empty deque is
   * undefined, so there is at least one child.
   */
  method Distribute(nodes: Nodes2d, x: Id, axis: Axis, b: Rect, t: Alignment)
    requires nodes.Valid() && x in nodes.graph.nodes && NoDup(nodes.graph.nodes[x].children)
    requires forall c :: c in nodes.graph.nodes[x].children ==> c in nodes.frames
    requires Distributable(nodes.frames, SortedAlong(nodes.frames, axis, nodes.graph.nodes[x].children), axis, t)
    modifies nodes
    ensures nodes.Valid()
    ensures DistributedChildren(old(nodes.frames), nodes.frames, SortedAlong(old(nodes.frames), axis, nodes.graph.nodes[x].children), axis, b, t)
  {
    var order := SortedAlong(nodes.frames, axis, nodes.graph.nodes[x].children);
    SortedAlongNoDup(nodes.frames, axis, nodes.graph.nodes[x].children);
    PlaceInOrder(nodes, order, axis, b, t);
  }

  /** The loop of `distribute*` over the sorted copy: the `k`-th child gets line `FirstLine + k * Increment`. */
  method PlaceInOrder(nodes: Nodes2d, order: seq<Id>, axis: Axis, b: Rect, t: Alignment)
    requires nodes.Valid() && NoDup(order) && forall c :: c in order ==> c in nodes.frames
    requires Distributable(nodes.frames, order, axis, t)
    modifies nodes
    ensures nodes.Valid()
    ensures DistributedChildren(old(nodes.frames), nodes.frames, order, axis, b, t)
  {
    ghost var start := nodes.frames;
    var line := FirstLine(nodes.frames, order, axis, b, t);
    var increment := Increment(nodes.frames, order, axis, b, t);
    var k := 0;
    while k < |order|
      invariant 0 <= k <= |order| && nodes.Valid()
      invariant increment == Increment(start, order, axis, b, t)
      invariant line == Line(start, order, axis, b, t, k)
      invariant PlacedUpTo(start, nodes.frames, order, k, axis, b, t)
    {
      PlaceOne(nodes, start, order, k, axis, b, t, line);
      LinesEvenlySpaced(start, order, axis, b, t, k);
      line := line + increment;
      k := k + 1;
    }
    PlacedAll(start, nodes.frames, order, axis, b, t);
  }

  /** One pass of the loop of `distribute*`: the `k`-th sorted child moves onto its line. */
  method PlaceOne(nodes: Nodes2d, ghost start: map<Id, Frame>, order: seq<Id>, k: nat, axis: Axis, b: Rect, t: Alignment, line: real)
    requires nodes.Valid() && NoDup(order) && k < |order| && forall c :: c in order ==> c in start
    requires Distributable(start, order, axis, t)
    requires PlacedUpTo(start, nodes.frames, order, k, axis, b, t) && line == Line(start, order, axis, b, t, k)
    modifies nodes
    ensures nodes.Valid() && PlacedUpTo(start, nodes.frames, order, k + 1, axis, b, t)
  {
    var c := order[k];
    var fr := nodes.frames[c];
    ghost var before := nodes.frames;
    NotEarlier(order, k);
    nodes.SetPosition(c, Placed(fr.position, axis, Target(fr, axis, line, t)));
    DistributeStep(start, before, nodes.frames, order, k, axis, b, t, line);
  }

  /** `distributeHorizontally(object, type)` with the bounding rectangle of the children. */
  method DistributeHorizontally(nodes: Nodes2d, parent: Id, bounds: Rect, t: HorizontalAlignment)
    requires nodes.Valid() && parent in nodes.graph.nodes && NoDup(nodes.graph.nodes[parent].children)
    requires forall c :: c in nodes.graph.nodes[parent].children ==> c in nodes.frames
    requires Distributable(nodes.frames, SortedAlong(nodes.frames, Horizontal, nodes.graph.nodes[parent].children), Horizontal, FromHorizontal(t))
    modifies nodes
    ensures nodes.Valid()
    ensures DistributedChildren(old(nodes.frames), nodes.frames, SortedAlong(old(nodes.frames), Horizontal, nodes.graph.nodes[parent].children),
                                Horizontal, bounds, FromHorizontal(t))
  {
    Distribute(nodes, parent, Horizontal, bounds, FromHorizontal(t));
  }

  /** `distributeVertically(object, type)` with the bounding rectangle of the children. */
  method DistributeVertically(nodes: Nodes2d, parent: Id, bounds: Rect, t: VerticalAlignment)
    requires nodes.Valid() && parent in nodes.graph.nodes && NoDup(nodes.graph.nodes[parent].children)
    requires forall c :: c in nodes.graph.nodes[parent].children ==> c in nodes.frames
    requires Distributable(nodes.frames, SortedAlong(nodes.frames, Vertical, nodes.graph.nodes[parent].children), Vertical, FromVertical(t))
    modifies nodes
    ensures nodes.Valid()
    ensures DistributedChildren(old(nodes.frames), nodes.frames, SortedAlong(old(nodes.frames), Vertical, nodes.graph.nodes[parent].children),
                                Vertical, bounds, FromVertical(t))
  {
    Distribute(nodes, parent, Vertical, bounds, FromVertical(t));
  }

  /**
   * What the distribution achieves, for two or more children: with `Low`
   * the first child's low edge is on the rectangle's start and the last
   * child's high edge on its end; with `High` the first child's high edge is
   * one first-child size past the start and the last child's high edge on
   * the end; with `Mid` the first and last positions sit their pivots inside
   * the two ends. Consecutive lines are one increment apart.
   */
  lemma DistributionSpansBounds(fs: map<Id, Frame>, order: seq<Id>, axis: Axis, b: Rect, t: Alignment)
    requires forall c :: c in order ==> c in fs
    requires Distributable(fs, order, axis, t) && |order| >= 2
    ensures var n := |order|;
            var first := fs[order[0]];
            var last := fs[order[n - 1]];
            var p0 := Along(AlignedAt(first, axis, Line(fs, order, axis, b, t, 0), t).position, axis);
            var pn := Along(AlignedAt(last, axis, Line(fs, order, axis, b, t, n - 1), t).position, axis);
            (t == Low ==> p0 - Along(first.pivot, axis) == Start(b, axis) &&
                          pn - Along(last.pivot, axis) + Along(last.size, axis) == Start(b, axis) + Extent(b, axis)) &&
            (t == Mid ==> p0 == Start(b, axis) + Along(first.pivot, axis) &&
                          pn == Start(b, axis) + Extent(b, axis) - Along(last.pivot, axis)) &&
            (t == High ==> p0 - Along(first.pivot, axis) + Along(first.size, axis) == Start(b, axis) + Along(first.size, axis) &&
                           pn - Along(last.pivot, axis) + Along(last.size, axis) == Start(b, axis) + Extent(b, axis))
  {
    var n := |order|;
    var first := fs[order[0]];
    var last := fs[order[n - 1]];
    var inc := Increment(fs, order, axis, b, t);
    var m := (n - 1) as real;
    assert m * inc == m * (inc * m) / m;
    AlignedEdges(first, axis, Line(fs, order, axis, b, t, 0), t);
    AlignedEdges(last, axis, Line(fs, order, axis, b, t, n - 1), t);
  }

  /** Consecutive sorted children get lines one increment apart. */
  lemma LinesEvenlySpaced(fs: map<Id, Frame>, order: seq<Id>, axis: Axis, b: Rect, t: Alignment, k: nat)
    requires forall c :: c in order ==> c in fs
    requires Distributable(fs, order, axis, t)
    ensures Line(fs, order, axis, b, t, k + 1) - Line(fs, order, axis, b, t, k) == Increment(fs, order, axis, b, t)
  {
  }
}
