/**
 * The node tree as a value.
 *
 * Every node of the scene graph is named by an `Id`; a node records its name,
 * its activity flag, its concrete class, the weak link to its parent and the
 * deque of its children (front = bottom, back = top). A whole scene graph is a
 * finite map from ids to nodes. Nothing here stops a node from being its own
 * ancestor. A rank that holds a node `x` (`Ranked(f, rank) && x in rank`) is
 * the condition under which the graph below `x` is a finite tree; it says
 * nothing about nodes outside the subtree of `x`, which may lie on cycles.
 * It is a precondition wherever the source walks down from `x`.
 */
module Forest {
  import opened Wrappers

  type Id = nat

  /** The concrete class of a node: the 2D and 3D node classes, their shape and mesh subclasses, and the legacy `Node`. */
  datatype Kind = Node2dKind | Shape2dKind | Node3dKind | MeshKind | LegacyKind

  /** The class named by `Y` in `dynamic_pointer_cast<Y>`. */
  datatype Target = AnyNode | Node2dClass | Shape2dClass | Node3dClass | MeshClass

  /** Whether a node of class `k` converts to a non-null pointer to `y`. */
  predicate IsA(k: Kind, y: Target) {
    match y
    case AnyNode => true
    case Node2dClass => k == Node2dKind || k == Shape2dKind
    case Shape2dClass => k == Shape2dKind
    case Node3dClass => k == Node3dKind || k == MeshKind
    case MeshClass => k == MeshKind
  }

  /** A call of one of the virtual hooks, in the order the calls happen. */
  datatype Hook =
    | AddedToScene(node: Id)
    | RemovedFromScene(node: Id)
    | Setup(node: Id)
    | Update(node: Id, elapsed: real)

  datatype Node = Node(name: string, active: bool, kind: Kind, parent: Option<Id>, children: seq<Id>)

  type Nodes = map<Id, Node>

  // ---------------------------------------------------------------------
  // Deque positions
  // ---------------------------------------------------------------------

  /** What `std::find` returns: the position of the first `x`, or the length when there is none. */
  function Index(s: seq<Id>, x: Id): (k: nat)
    ensures k <= |s|
    ensures k < |s| ==> s[k] == x
    ensures forall i :: 0 <= i < k ==> s[i] != x
  {
    if s == [] then 0 else if s[0] == x then 0 else 1 + Index(s[1..], x)
  }

  /** `erase` at a position. */
  function RemoveAt(s: seq<Id>, k: nat): (r: seq<Id>)
    requires k < |s|
    ensures |r| == |s| - 1
  {
    s[..k] + s[k + 1..]
  }

  predicate NoDup(s: seq<Id>) {
    forall i, j :: 0 <= i < j < |s| ==> s[i] != s[j]
  }

  lemma IndexFound(s: seq<Id>, x: Id)
    ensures Index(s, x) < |s| <==> x in s
  {
    if x in s {
      var i :| 0 <= i < |s| && s[i] == x;
      assert Index(s, x) <= i;
    }
  }

  /** Erasing the first `x` keeps every other element, in order, and drops one `x`. */
  lemma RemoveAtFirst(s: seq<Id>, x: Id)
    requires x in s
    ensures var k := Index(s, x);
            k < |s| &&
            multiset(RemoveAt(s, k)) == multiset(s) - multiset{x} &&
            (forall y :: y != x ==> (y in RemoveAt(s, k) <==> y in s))
  {
    IndexFound(s, x);
    var k := Index(s, x);
    assert s == s[..k] + [s[k]] + s[k + 1..];
  }

  /** Without duplicates, erasing `x` leaves no `x` behind and keeps the deque duplicate-free. */
  lemma RemoveAtNoDup(s: seq<Id>, k: nat)
    requires k < |s| && NoDup(s)
    ensures s[k] !in RemoveAt(s, k) && NoDup(RemoveAt(s, k))
  {
    var r := RemoveAt(s, k);
    forall i | 0 <= i < |r|
      ensures r[i] != s[k]
    {
      if i < k { assert r[i] == s[i]; } else { assert r[i] == s[i + 1]; }
    }
  }

  // ---------------------------------------------------------------------
  // Shapes of a node map
  // ---------------------------------------------------------------------

  /** Every parent link and every child entry names a node of the map. */
  ghost predicate Closed(f: Nodes) {
    forall x :: x in f ==>
      (f[x].parent.Some? ==> f[x].parent.value in f) &&
      (forall c :: c in f[x].children ==> c in f)
  }

  /** A new node without parent and without children keeps the links closed. */
  lemma ClosedAddRoot(f: Nodes, id: Id, nd: Node)
    requires Closed(f) && nd.parent.None? && nd.children == []
    ensures Closed(f[id := nd])
  {
    var g := f[id := nd];
    forall x | x in g
      ensures (g[x].parent.Some? ==> g[x].parent.value in g) && (forall c :: c in g[x].children ==> c in g)
    {
      if x != id {
        assert g[x] == f[x];
      }
    }
  }

  /** Parent links and child deques agree, and no deque holds a node twice. */
  ghost predicate Linked(f: Nodes) {
    Closed(f) &&
    (forall x :: x in f ==> NoDup(f[x].children)) &&
    (forall p, c :: p in f && c in f[p].children ==> f[c].parent == Some(p)) &&
    (forall c :: c in f && f[c].parent.Some? ==> c in f[f[c].parent.value].children)
  }

  /**
   * A rank on some nodes of the map that drops from each ranked node to each
   * of its children, so the children are ranked too. Below a ranked node there
   * is no cycle; nodes outside the rank are not constrained.
   */
  ghost predicate Ranked(f: Nodes, rank: map<Id, nat>) {
    (forall x :: x in rank ==> x in f) &&
    (forall p, c :: p in rank && p in f && c in f[p].children ==> c in rank && rank[c] < rank[p])
  }

  /** A downward path: each entry is a child of the entry before it. */
  ghost predicate Path(f: Nodes, s: seq<Id>) {
    |s| >= 1 &&
    (forall i :: 0 <= i < |s| ==> s[i] in f) &&
    (forall i :: 0 <= i < |s| - 1 ==> s[i + 1] in f[s[i]].children)
  }

  /** `x` lies in the subtree of `a` (a node lies in its own subtree). */
  ghost predicate Descends(f: Nodes, a: Id, x: Id) {
    exists s :: Path(f, s) && s[0] == a && s[|s| - 1] == x
  }

  lemma DescendsSelf(f: Nodes, a: Id)
    requires a in f
    ensures Descends(f, a, a)
  {
    assert Path(f, [a]);
  }

  /** A node's subtree contains the subtrees of its children. */
  lemma DescendsStep(f: Nodes, a: Id, c: Id, x: Id)
    requires a in f && c in f[a].children && Descends(f, c, x)
    ensures Descends(f, a, x)
  {
    var s :| Path(f, s) && s[0] == c && s[|s| - 1] == x;
    var t := [a] + s;
    assert Path(f, t);
    assert t[0] == a && t[|t| - 1] == x;
  }

  /** Every proper descendant of `a` lies below one of its children. */
  lemma DescendsChild(f: Nodes, a: Id, x: Id)
    requires Descends(f, a, x) && x != a
    ensures exists c :: c in f[a].children && Descends(f, c, x)
  {
    var s :| Path(f, s) && s[0] == a && s[|s| - 1] == x;
    var t := s[1..];
    assert Path(f, t);
    assert t[0] in f[a].children && t[|t| - 1] == x;
  }

  /** Ranks fall along a path from a ranked node, so no node lies strictly below itself. */
  lemma {:induction false} RankAlongPath(f: Nodes, rank: map<Id, nat>, s: seq<Id>)
    requires Ranked(f, rank) && Path(f, s) && s[0] in rank
    ensures s[|s| - 1] in rank
    ensures |s| > 1 ==> rank[s[|s| - 1]] < rank[s[0]]
    decreases |s|
  {
    if |s| > 1 {
      var t := s[1..];
      assert Path(f, t);
      assert s[1] in f[s[0]].children;
      RankAlongPath(f, rank, t);
    }
  }

  lemma DescendsRank(f: Nodes, rank: map<Id, nat>, a: Id, x: Id)
    requires Ranked(f, rank) && a in rank && Descends(f, a, x) && x != a
    ensures x in rank && rank[x] < rank[a]
  {
    var s :| Path(f, s) && s[0] == a && s[|s| - 1] == x;
    RankAlongPath(f, rank, s);
  }

  /**
   * With consistent links a node has one parent, so the nodes above it form a
   * chain: of two nodes whose subtrees both hold `x`, one holds the other.
   */
  lemma {:induction false} AncestorsFormChain(f: Nodes, a: Id, b: Id, x: Id, s: seq<Id>, t: seq<Id>)
    requires Linked(f)
    requires Path(f, s) && s[0] == a && s[|s| - 1] == x
    requires Path(f, t) && t[0] == b && t[|t| - 1] == x
    ensures Descends(f, a, b) || Descends(f, b, a)
    decreases |s| + |t|
  {
    if |s| == 1 {
      assert Path(f, t) && t[0] == b && t[|t| - 1] == a;
    } else if |t| == 1 {
      assert Path(f, s) && s[0] == a && s[|s| - 1] == b;
    } else {
      var q := s[|s| - 2];
      assert x in f[q].children && f[x].parent == Some(q);
      assert x in f[t[|t| - 2]].children && f[x].parent == Some(t[|t| - 2]);
      var s' := s[..|s| - 1];
      var t' := t[..|t| - 1];
      assert Path(f, s') && s'[0] == a && s'[|s'| - 1] == q;
      assert Path(f, t') && t'[0] == b && t'[|t'| - 1] == q;
      AncestorsFormChain(f, a, b, q, s', t');
    }
  }

  /** On a linked, ranked graph the subtrees of two different children of a node share nothing. */
  lemma SiblingSubtreesDisjoint(f: Nodes, rank: map<Id, nat>, p: Id, c1: Id, c2: Id, x: Id)
    requires Linked(f) && Ranked(f, rank) && p in rank
    requires c1 in f[p].children && c2 in f[p].children && c1 != c2
    ensures !(Descends(f, c1, x) && Descends(f, c2, x))
  {
    if Descends(f, c1, x) && Descends(f, c2, x) {
      var s :| Path(f, s) && s[0] == c1 && s[|s| - 1] == x;
      var t :| Path(f, t) && t[0] == c2 && t[|t| - 1] == x;
      AncestorsFormChain(f, c1, c2, x, s, t);
      if Descends(f, c1, c2) {
        BelowSibling(f, rank, p, c1, c2);
      } else {
        BelowSibling(f, rank, p, c2, c1);
      }
    }
  }

  /** A child never lies strictly below a sibling, since its one parent would then lie below that sibling too. */
  lemma BelowSibling(f: Nodes, rank: map<Id, nat>, p: Id, c1: Id, c2: Id)
    requires Linked(f) && Ranked(f, rank) && p in rank
    requires c1 in f[p].children && c2 in f[p].children && c1 != c2
    ensures !Descends(f, c1, c2)
  {
    if Descends(f, c1, c2) {
      assert c2 in f && rank[c1] < rank[p];
      DescendsViaParent(f, c1, c2);
      assert f[c2].parent == Some(p);
      DescendsRank(f, rank, c1, p);
    }
  }

  /** A node other than `a` in the subtree of `a` has a parent, and that parent is in the subtree too. */
  lemma DescendsViaParent(f: Nodes, a: Id, x: Id)
    requires Linked(f) && x in f && a != x && Descends(f, a, x)
    ensures f[x].parent.Some? && Descends(f, a, f[x].parent.value)
  {
    var s :| Path(f, s) && s[0] == a && s[|s| - 1] == x;
    var n := |s| - 1;
    var q := s[n - 1];
    assert x in f[q].children;
    assert f[x].parent == Some(q);
    var s' := s[..n];
    assert Path(f, s') && s'[0] == a && s'[n - 1] == q;
  }

  // ---------------------------------------------------------------------
  // Pre-order walk (deepSetup / deepUpdate)
  // ---------------------------------------------------------------------

  /** The node, then the walks of its children from front to back. */
  ghost function PreOrder(f: Nodes, rank: map<Id, nat>, x: Id): seq<Id>
    requires Ranked(f, rank) && Closed(f) && x in rank
    decreases rank[x], 1
  {
    [x] + PreOrderAll(f, rank, f[x].children, rank[x])
  }

  /** The walks of the nodes of `cs`, in the order of `cs`. */
  ghost function PreOrderAll(f: Nodes, rank: map<Id, nat>, cs: seq<Id>, bound: nat): seq<Id>
    requires Ranked(f, rank) && Closed(f)
    requires forall c :: c in cs ==> c in rank && rank[c] < bound
    decreases bound, 0, |cs|
  {
    if cs == [] then []
    else PreOrderAll(f, rank, cs[..|cs| - 1], bound) + PreOrder(f, rank, cs[|cs| - 1])
  }

  /** A child sits in the map and has a smaller rank than its parent. */
  lemma ChildRanked(f: Nodes, rank: map<Id, nat>, x: Id, k: nat)
    requires Ranked(f, rank) && Closed(f) && x in rank && k < |f[x].children|
    ensures f[x].children[k] in f && f[x].children[k] in rank && rank[f[x].children[k]] < rank[x]
  {
    assert f[x].children[k] in f[x].children;
  }

  /** The walks of the first `k` children of `x`. */
  ghost function ChildWalks(f: Nodes, rank: map<Id, nat>, x: Id, k: nat): seq<Id>
    requires Ranked(f, rank) && Closed(f) && x in rank && k <= |f[x].children|
  {
    PreOrderAll(f, rank, f[x].children[..k], rank[x])
  }

  /** No child walked yet; one more child; all of them. */
  lemma ChildWalksSteps(f: Nodes, rank: map<Id, nat>, x: Id, k: nat)
    requires Ranked(f, rank) && Closed(f) && x in rank && k < |f[x].children|
    ensures ChildWalks(f, rank, x, 0) == []
    ensures ChildWalks(f, rank, x, k + 1) == ChildWalks(f, rank, x, k) + PreOrder(f, rank, f[x].children[k])
  {
    assert f[x].children[..k + 1][..k] == f[x].children[..k];
  }

  lemma ChildWalksAll(f: Nodes, rank: map<Id, nat>, x: Id)
    requires Ranked(f, rank) && Closed(f) && x in rank
    ensures ChildWalks(f, rank, x, 0) == []
    ensures PreOrder(f, rank, x) == [x] + ChildWalks(f, rank, x, |f[x].children|)
  {
    assert f[x].children[..|f[x].children|] == f[x].children;
  }

  /** The walk from `x` visits exactly the subtree of `x`. */
  lemma {:induction false} PreOrderCoversSubtree(f: Nodes, rank: map<Id, nat>, x: Id, y: Id)
    requires Ranked(f, rank) && Closed(f) && x in rank
    ensures y in PreOrder(f, rank, x) <==> Descends(f, x, y)
    decreases rank[x], 1
  {
    var cs := f[x].children;
    PreOrderAllCovers(f, rank, cs, rank[x], y);
    if y == x {
      DescendsSelf(f, x);
    } else if Descends(f, x, y) {
      DescendsChild(f, x, y);
    } else if y in PreOrder(f, rank, x) {
      var c :| c in cs && Descends(f, c, y);
      DescendsStep(f, x, c, y);
    }
  }

  lemma {:induction false} PreOrderAllCovers(f: Nodes, rank: map<Id, nat>, cs: seq<Id>, bound: nat, y: Id)
    requires Ranked(f, rank) && Closed(f)
    requires forall c :: c in cs ==> c in rank && rank[c] < bound
    ensures y in PreOrderAll(f, rank, cs, bound) <==> exists c :: c in cs && Descends(f, c, y)
    decreases bound, 0, |cs|
  {
    if cs != [] {
      var last := cs[|cs| - 1];
      var init := cs[..|cs| - 1];
      assert cs == init + [last];
      PreOrderAllCovers(f, rank, init, bound, y);
      PreOrderCoversSubtree(f, rank, last, y);
      if exists c :: c in cs && Descends(f, c, y) {
        var c :| c in cs && Descends(f, c, y);
        if c != last {
          assert c in init;
        }
      }
    }
  }

  /** On a linked, ranked graph the walk visits every node of the subtree exactly once. */
  lemma {:induction false} PreOrderNoDup(f: Nodes, rank: map<Id, nat>, x: Id)
    requires Linked(f) && Ranked(f, rank) && x in rank
    ensures NoDup(PreOrder(f, rank, x))
    decreases rank[x], 1
  {
    var cs := f[x].children;
    var rest := PreOrderAll(f, rank, cs, rank[x]);
    PreOrderAllNoDup(f, rank, x, |cs|);
    assert cs[..|cs|] == cs;
    if x in rest {
      PreOrderAllCovers(f, rank, cs, rank[x], x);
      var c :| c in cs && Descends(f, c, x);
      DescendsRank(f, rank, c, x);
    }
    var r := [x] + rest;
    forall i, j | 0 <= i < j < |r|
      ensures r[i] != r[j]
    {
      if i == 0 {
        assert r[j] == rest[j - 1];
      } else {
        assert r[i] == rest[i - 1] && r[j] == rest[j - 1];
      }
    }
  }

  /** The walks of the first `k` children of `x` together visit no node twice. */
  lemma {:induction false} PreOrderAllNoDup(f: Nodes, rank: map<Id, nat>, x: Id, k: nat)
    requires Linked(f) && Ranked(f, rank) && x in rank && k <= |f[x].children|
    ensures NoDup(PreOrderAll(f, rank, f[x].children[..k], rank[x]))
    decreases rank[x], 0, k
  {
    if k > 0 {
      var cs := f[x].children[..k];
      var init := cs[..k - 1];
      var last := cs[k - 1];
      assert init == f[x].children[..k - 1];
      PreOrderAllNoDup(f, rank, x, k - 1);
      PreOrderNoDup(f, rank, last);
      var a := PreOrderAll(f, rank, init, rank[x]);
      var b := PreOrder(f, rank, last);
      EarlierWalksMissLast(f, rank, x, k, a, b);
      NoDupConcat(a, b);
    }
  }

  /** The walks of the first `k - 1` children of `x` share no node with the walk of child `k - 1`. */
  lemma EarlierWalksMissLast(f: Nodes, rank: map<Id, nat>, x: Id, k: nat, a: seq<Id>, b: seq<Id>)
    requires Linked(f) && Ranked(f, rank) && x in rank && 0 < k <= |f[x].children|
    requires a == PreOrderAll(f, rank, f[x].children[..k - 1], rank[x])
    requires b == PreOrder(f, rank, f[x].children[k - 1])
    ensures forall y :: y in a ==> y !in b
  {
    var cs := f[x].children;
    var init := cs[..k - 1];
    var last := cs[k - 1];
    forall y | y in a
      ensures y !in b
    {
      PreOrderAllCovers(f, rank, init, rank[x], y);
      var c :| c in init && Descends(f, c, y);
      if y in b {
        PreOrderCoversSubtree(f, rank, last, y);
        var m :| 0 <= m < k - 1 && init[m] == c;
        assert NoDup(cs) && cs[m] == c;
        SiblingSubtreesDisjoint(f, rank, x, c, last, y);
      }
    }
  }

  /** Two duplicate-free sequences with no common element join into a duplicate-free one. */
  lemma NoDupConcat(a: seq<Id>, b: seq<Id>)
    requires NoDup(a) && NoDup(b) && forall y :: y in a ==> y !in b
    ensures NoDup(a + b)
  {
    var r := a + b;
    forall i, j | 0 <= i < j < |r|
      ensures r[i] != r[j]
    {
      if j < |a| {
        assert r[i] == a[i] && r[j] == a[j];
      } else if i >= |a| {
        assert r[i] == b[i - |a|] && r[j] == b[j - |a|];
      } else {
        assert r[i] == a[i] && r[j] == b[j - |a|];
        assert r[i] in a;
      }
    }
  }
}
