/**
 * The node-tree operations of the node classes, as functions from the node
 * map before the call to the node map after it, and to the hook calls the
 * operation makes. `p` is always the node whose method runs (`this`), `n`
 * the node passed in.
 */
module TreeOps {
  import opened Wrappers
  import opened Forest

  // ---------------------------------------------------------------------
  // setParent
  // ---------------------------------------------------------------------

  /** `setParent(q)` on node `x` stores the link. */
  function WithParent(f: Nodes, x: Id, q: Option<Id>): (r: Nodes)
    requires x in f
    ensures r.Keys == f.Keys
  {
    f[x := f[x].(parent := q)]
  }

  /** `setParent` calls `addedToScene` exactly when the node had no parent before the call. */
  function SetParentHooks(f: Nodes, x: Id): seq<Hook>
    requires x in f
  {
    if f[x].parent.None? then [AddedToScene(x)] else []
  }

  // ---------------------------------------------------------------------
  // Queries
  // ---------------------------------------------------------------------

  /** `hasParent()`: whether the parent link is set. */
  function HasParent(f: Nodes, x: Id): bool
    requires x in f
  {
    f[x].parent.Some?
  }

  /** `getParent()`: the parent link itself. */
  function GetParent(f: Nodes, x: Id): Option<Id>
    requires x in f
  {
    f[x].parent
  }

  /** `getParent<Y>()`: the parent when it is a `Y`, otherwise null. */
  function GetParentAs(f: Nodes, x: Id, y: Target): (q: Option<Id>)
    requires Closed(f) && x in f
    ensures q.Some? ==> q == GetParent(f, x) && IsA(f[q.value].kind, y)
    ensures q.None? ==> !HasParent(f, x) || !IsA(f[f[x].parent.value].kind, y)
  {
    match f[x].parent
    case None => None
    case Some(p) => if IsA(f[p].kind, y) then Some(p) else None
  }

  /** `getChildCount()`: the length of the deque. */
  function GetChildCount(f: Nodes, x: Id): nat
    requires x in f
  {
    |f[x].children|
  }

  /** `hasChildren()`: a non-empty deque. */
  function HasChildren(f: Nodes, x: Id): bool
    requires x in f
  {
    |f[x].children| > 0
  }

  // ---------------------------------------------------------------------
  // removeChild
  // ---------------------------------------------------------------------

  /** `removeChild(n)`: if `n` is a child, clear its parent link and erase its entry. */
  function RemoveChildState(f: Nodes, p: Id, n: Id): (r: Nodes)
    requires p in f && n in f
    ensures r.Keys == f.Keys
  {
    var k := Index(f[p].children, n);
    if k == |f[p].children| then f
    else
      var f1 := WithParent(f, n, None);
      f1[p := f1[p].(children := RemoveAt(f[p].children, k))]
  }

  /** The hooks `removeChild(n)` calls: those of clearing the link, then `removedFromScene`. */
  function RemoveChildHooks(f: Nodes, p: Id, n: Id): seq<Hook>
    requires p in f && n in f
  {
    if n in f[p].children then SetParentHooks(f, n) + [RemovedFromScene(n)] else []
  }

  /** `removeChild(n)` returns true iff `n` is a child; a found child loses its entry and its parent, the rest keep their order. */
  lemma RemoveChildEffect(f: Nodes, p: Id, n: Id)
    requires p in f && n in f
    ensures var r := RemoveChildState(f, p, n);
            var cs := f[p].children;
            (n !in cs ==> r == f) &&
            (n in cs ==>
               r[n].parent == None &&
               r[p].children == RemoveAt(cs, Index(cs, n)) &&
               multiset(r[p].children) == multiset(cs) - multiset{n} &&
               (forall z :: z in f && z != n && z != p ==> r[z] == f[z]))
  {
    IndexFound(f[p].children, n);
    if n in f[p].children {
      RemoveAtFirst(f[p].children, n);
    }
  }

  /** On consistent links a removed child is gone from the deque and the links stay consistent. */
  lemma RemoveChildKeepsLinked(f: Nodes, p: Id, n: Id)
    requires Linked(f) && p in f && n in f
    ensures var r := RemoveChildState(f, p, n);
            Linked(r) && n !in r[p].children
  {
    var cs := f[p].children;
    IndexFound(cs, n);
    if n in cs {
      var k := Index(cs, n);
      RemoveAtNoDup(cs, k);
      RemoveAtFirst(cs, n);
      var f1 := WithParent(f, n, None);
      UnlinkKeepsLinked(f, p, n, RemoveAt(cs, k), f1[p := f1[p].(children := RemoveAt(cs, k))]);
    }
  }

  /**
   * Clearing the parent of a child `n` of `p` while `p` takes a duplicate-free
   * deque holding its other children and not `n` keeps the links consistent.
   */
  lemma UnlinkKeepsLinked(f: Nodes, p: Id, n: Id, rest: seq<Id>, r: Nodes)
    requires Linked(f) && p in f && n in f[p].children
    requires NoDup(rest) && n !in rest && forall c :: c != n ==> (c in rest <==> c in f[p].children)
    requires var f1 := f[n := f[n].(parent := None)]; r == f1[p := f1[p].(children := rest)]
    ensures Linked(r)
  {
    ParentOfChild(f, p, n);
    UnlinkKeepsChildLinks(f, p, n, rest, r);
    UnlinkKeepsParentLinks(f, p, n, rest, r);
    forall z | z in r
      ensures NoDup(r[z].children)
    {
      if z != p { assert r[z].children == f[z].children; }
    }
  }

  lemma UnlinkKeepsChildLinks(f: Nodes, p: Id, n: Id, rest: seq<Id>, r: Nodes)
    requires Linked(f) && p in f && n in f[p].children
    requires n !in rest && forall c :: c in rest ==> c in f[p].children
    requires var f1 := f[n := f[n].(parent := None)]; r == f1[p := f1[p].(children := rest)]
    ensures forall z, c :: z in r && c in r[z].children ==> c in r && r[c].parent == Some(z)
  {
    ParentOfChild(f, p, n);
    forall z, c | z in r && c in r[z].children
      ensures c in r && r[c].parent == Some(z)
    {
      assert c in f[z].children;
      ParentOfChild(f, z, c);
      assert c != n;
    }
  }

  lemma UnlinkKeepsParentLinks(f: Nodes, p: Id, n: Id, rest: seq<Id>, r: Nodes)
    requires Linked(f) && p in f && n in f[p].children
    requires forall c :: c != n && c in f[p].children ==> c in rest
    requires var f1 := f[n := f[n].(parent := None)]; r == f1[p := f1[p].(children := rest)]
    ensures forall c :: c in r && r[c].parent.Some? ==> r[c].parent.value in r && c in r[r[c].parent.value].children
  {
    forall c | c in r && r[c].parent.Some?
      ensures r[c].parent.value in r && c in r[r[c].parent.value].children
    {
      assert c != n && r[c].parent == f[c].parent;
    }
  }

  // ---------------------------------------------------------------------
  // addChild
  // ---------------------------------------------------------------------

  /** The cases `addChild(n)` refuses: a null pointer, the node itself, or a node that is already a child. */
  predicate AddChildRefused(f: Nodes, p: Id, n: Option<Id>)
    requires p in f
  {
    n.None? || n.value == p || n.value in f[p].children
  }

  /** `n` after its current parent, if it has one, ran `removeChild(n)`. */
  function Detached(f: Nodes, n: Id): (r: Nodes)
    requires Closed(f) && n in f
    ensures r.Keys == f.Keys
  {
    match f[n].parent
    case None => f
    case Some(q) => RemoveChildState(f, q, n)
  }

  function DetachHooks(f: Nodes, n: Id): seq<Hook>
    requires Closed(f) && n in f
  {
    match f[n].parent
    case None => []
    case Some(q) => RemoveChildHooks(f, q, n)
  }

  /** A successful `addChild(n)`: detach `n`, push it at the back, set its parent. */
  function AddChildState(f: Nodes, p: Id, n: Id): (r: Nodes)
    requires Closed(f) && p in f && n in f && n != p
    ensures r.Keys == f.Keys
  {
    var f1 := Detached(f, n);
    var f2 := f1[p := f1[p].(children := f1[p].children + [n])];
    f2[n := f2[n].(parent := Some(p))]
  }

  /** The hooks of a successful `addChild(n)`: detaching, `setParent`, then `addedToScene` once more. */
  function AddChildHooks(f: Nodes, p: Id, n: Id): seq<Hook>
    requires Closed(f) && p in f && n in f && n != p
  {
    DetachHooks(f, n) + SetParentHooks(Detached(f, n), n) + [AddedToScene(n)]
  }

  /** A successful `addChild(n)` puts `n` at the back of this node's deque and makes this node its parent. */
  lemma AddChildAttaches(f: Nodes, p: Id, n: Id)
    requires Closed(f) && p in f && n in f && !AddChildRefused(f, p, Some(n))
    ensures var r := AddChildState(f, p, n);
            r[n].parent == Some(p) &&
            r[p].children == f[p].children + [n] &&
            (forall z :: z in r && z != p && z != n ==> r[z].parent == f[z].parent)
  {
    DetachedElsewhere(f, p, n);
  }

  /** Detaching `n` from a parent whose deque does not hold it leaves `p`'s deque and every other parent link alone. */
  lemma DetachedElsewhere(f: Nodes, p: Id, n: Id)
    requires Closed(f) && p in f && n in f && n != p && n !in f[p].children
    ensures var f1 := Detached(f, n);
            f1[p].children == f[p].children &&
            (forall z :: z in f1 && z != n ==> f1[z].parent == f[z].parent)
  {
    match f[n].parent
    case None =>
    case Some(q) =>
      if q == p {
        IndexFound(f[p].children, n);
      }
  }

  /** Edges after `addChild(n)`: old edges, and the one new edge from this node to `n`. */
  lemma AddChildEdges(f: Nodes, p: Id, n: Id)
    requires Closed(f) && p in f && n in f && n != p
    ensures var r := AddChildState(f, p, n);
            forall z, c :: z in r && c in r[z].children ==> (c in f[z].children || (z == p && c == n))
  {
    var r := AddChildState(f, p, n);
    var f1 := Detached(f, n);
    forall z, c | z in r && c in r[z].children
      ensures c in f[z].children || (z == p && c == n)
    {
      match f[n].parent
      case None =>
      case Some(q) =>
        IndexFound(f[q].children, n);
        if z == q && n in f[q].children {
          RemoveAtFirst(f[q].children, n);
          if c != n {
            assert c in f1[q].children;
          }
        }
    }
  }

  /** Attaching a parentless node that no deque holds keeps the links consistent. */
  lemma AttachKeepsLinked(f1: Nodes, p: Id, n: Id)
    requires Linked(f1) && p in f1 && n in f1 && n != p
    requires f1[n].parent.None? && n !in f1[p].children
    ensures var f2 := f1[p := f1[p].(children := f1[p].children + [n])];
            Linked(f2[n := f2[n].(parent := Some(p))])
  {
    var f2 := f1[p := f1[p].(children := f1[p].children + [n])];
    var r := f2[n := f2[n].(parent := Some(p))];
    forall z, c | z in r && c in r[z].children
      ensures r[c].parent == Some(z)
    {
      if c != n && z == p {
        assert c in f1[p].children;
      }
    }
    var cs := r[p].children;
    forall i, j | 0 <= i < j < |cs|
      ensures cs[i] != cs[j]
    {
      if j == |cs| - 1 {
        assert cs[i] in f1[p].children;
      } else {
        assert cs[i] == f1[p].children[i] && cs[j] == f1[p].children[j];
      }
    }
  }

  /** On consistent links `addChild(n)` keeps them consistent. */
  lemma AddChildKeepsLinked(f: Nodes, p: Id, n: Id)
    requires Linked(f) && p in f && n in f && !AddChildRefused(f, p, Some(n))
    ensures Linked(AddChildState(f, p, n))
  {
    var f1 := Detached(f, n);
    match f[n].parent
    case None =>
      AttachKeepsLinked(f1, p, n);
    case Some(q) =>
      RemoveChildKeepsLinked(f, q, n);
      IndexFound(f[q].children, n);
      RemoveChildEffect(f, q, n);
      AttachKeepsLinked(f1, p, n);
  }

  /** On consistent links, after `addChild(n)` the node `n` sits once in this node's deque and in no other. */
  lemma AddChildUnique(f: Nodes, p: Id, n: Id)
    requires Linked(f) && p in f && n in f && !AddChildRefused(f, p, Some(n))
    ensures var r := AddChildState(f, p, n);
            n in r[p].children && NoDup(r[p].children) &&
            forall z :: z in r && z != p ==> n !in r[z].children
  {
    AddChildKeepsLinked(f, p, n);
    AddChildAttaches(f, p, n);
    var r := AddChildState(f, p, n);
    forall z | z in r && z != p
      ensures n !in r[z].children
    {
      if n in r[z].children {
        ParentOfChild(r, z, n);
      }
    }
  }

  /** On consistent links the hooks are: `removedFromScene` if `n` had a parent, then `addedToScene` twice. */
  lemma AddChildHooksTwice(f: Nodes, p: Id, n: Id)
    requires Linked(f) && p in f && n in f && !AddChildRefused(f, p, Some(n))
    ensures AddChildHooks(f, p, n) ==
            (if f[n].parent.Some? then [RemovedFromScene(n)] else []) + [AddedToScene(n), AddedToScene(n)]
  {
    match f[n].parent
    case None =>
    case Some(q) =>
      IndexFound(f[q].children, n);
      RemoveChildEffect(f, q, n);
  }

  /** `rank` raised by `bonus` on every node whose subtree holds `p`. */
  ghost function Raised(f: Nodes, rank: map<Id, nat>, p: Id, bonus: nat): map<Id, nat> {
    map x | x in rank :: if x in f && Descends(f, x, p) then rank[x] + bonus else rank[x]
  }

  /**
   * `addChild` makes no cycle when `n` is not above this node: the old rank,
   * raised on this node and everything above it, still drops along every edge.
   */
  lemma AddChildKeepsRanked(f: Nodes, rank: map<Id, nat>, p: Id, n: Id)
    requires Closed(f) && Ranked(f, rank) && p in rank && n in rank && !AddChildRefused(f, p, Some(n))
    requires !Descends(f, n, p)
    ensures Ranked(AddChildState(f, p, n), Raised(f, rank, p, rank[n] + 1))
  {
    AddChildEdges(f, p, n);
    RaisedRanked(f, rank, p, n, AddChildState(f, p, n));
  }

  /** Any map over the same nodes whose child links are old links or the link from `p` to `n` is ranked by the raised rank. */
  lemma RaisedRanked(f: Nodes, rank: map<Id, nat>, p: Id, n: Id, r: Nodes)
    requires Ranked(f, rank) && p in rank && n in rank && !Descends(f, n, p)
    requires r.Keys == f.Keys
    requires forall z, c :: z in r && c in r[z].children ==> (c in f[z].children || (z == p && c == n))
    ensures Ranked(r, Raised(f, rank, p, rank[n] + 1))
  {
    var rank' := Raised(f, rank, p, rank[n] + 1);
    forall z, c | z in rank' && z in r && c in r[z].children
      ensures c in rank' && rank'[c] < rank'[z]
    {
      RaisedEdge(f, rank, p, n, z, c);
    }
  }

  /** An old edge, or the new edge from `p` to `n`, still drops in the raised rank. */
  lemma RaisedEdge(f: Nodes, rank: map<Id, nat>, p: Id, n: Id, z: Id, c: Id)
    requires Ranked(f, rank) && p in rank && n in rank && !Descends(f, n, p)
    requires z in rank && (c in f[z].children || (z == p && c == n))
    ensures var rank' := Raised(f, rank, p, rank[n] + 1);
            c in rank' && rank'[c] < rank'[z]
  {
    if c in f[z].children {
      if Descends(f, c, p) {
        DescendsStep(f, z, c, p);
      }
    } else {
      DescendsSelf(f, p);
    }
  }

  /** Two nodes, `a` holding `b` as its only child. */
  function ParentAndChild(): (f: Nodes)
    ensures f.Keys == {0, 1} && f[0].children == [1] && f[1].parent == Some(0)
  {
    map[0 := Node("a", true, Node2dKind, None, [1]),
        1 := Node("b", true, Node2dKind, Some(0), [])]
  }

  /** The two-node map has consistent links. */
  lemma ParentAndChildLinked()
    ensures Linked(ParentAndChild())
  {
    var f := ParentAndChild();
    assert f[0].parent == None && f[1].children == [];
    forall x | x in f
      ensures x == 0 || x == 1
    {
    }
  }

  /** Nothing stops an ancestor from being added as a child: two linked nodes can end up each other's child. */
  lemma AddChildCanCloseCycle()
    ensures var f := ParentAndChild();
            Linked(f) && !AddChildRefused(f, 1, Some(0)) &&
            var r := AddChildState(f, 1, 0);
            0 in r[1].children && 1 in r[0].children &&
            forall rank :: Ranked(r, rank) ==> 0 !in rank && 1 !in rank
  {
    var f := ParentAndChild();
    ParentAndChildLinked();
    assert f[0].parent == None;
    assert Detached(f, 0) == f;
    var r := AddChildState(f, 1, 0);
    assert r[1].children == [0];
    assert r[0].children == [1];
    forall rank | Ranked(r, rank)
      ensures 0 !in rank && 1 !in rank
    {
      TwoCycleUnranked(r, 0, 1, rank);
    }
  }

  /** Two nodes that are each other's child lie outside every rank. */
  lemma TwoCycleUnranked(f: Nodes, a: Id, b: Id, rank: map<Id, nat>)
    requires a in f && b in f && b in f[a].children && a in f[b].children && Ranked(f, rank)
    ensures a !in rank && b !in rank
  {
  }

  /** Two nodes that are each other's parent and child, a 2D node and a 3D node, and a third node apart from them. */
  function CycleAndLoner(): (f: Nodes)
    ensures f.Keys == {0, 1, 2}
    ensures f[0].children == [1] && f[1].children == [0] && f[2].children == []
    ensures f[0].parent == Some(1) && f[1].parent == Some(0) && f[2].parent == None
  {
    map[0 := Node("a", true, Node2dKind, Some(1), [1]),
        1 := Node("b", true, Node3dKind, Some(0), [0]),
        2 := Node("c", true, Node2dKind, None, [])]
  }

  /**
   * A cycle elsewhere in the scene does not stop a rank from holding another
   * node, so the walks from that node are defined; the nodes on the cycle lie
   * outside every rank.
   */
  lemma DistantCycleKeepsRank()
    ensures var f := CycleAndLoner();
            Closed(f) && Ranked(f, map[2 := 0]) &&
            forall rank :: Ranked(f, rank) ==> 0 !in rank && 1 !in rank
  {
    var f := CycleAndLoner();
    forall rank | Ranked(f, rank)
      ensures 0 !in rank && 1 !in rank
    {
      TwoCycleUnranked(f, 0, 1, rank);
    }
  }

  /** On that cycle the climb of `getDeepParent<Node2d>()` from the 3D node stops at once at its 2D parent. */
  lemma ClimbStopsOnCycle()
    ensures var f := CycleAndLoner();
            Closed(f) && GroundedUntil(f, map[1 := 0], Node2dClass) &&
            GetDeepParent(f, map[1 := 0], 1, Node2dClass) == Some(0)
  {
  }

  // ---------------------------------------------------------------------
  // removeChildren, the destructor
  // ---------------------------------------------------------------------

  /** `removeChildren()` empties the deque and leaves the children's parent links as they were. */
  function RemoveChildrenState(f: Nodes, p: Id): (r: Nodes)
    requires p in f
    ensures r.Keys == f.Keys
  {
    f[p := f[p].(children := [])]
  }

  /** After `removeChildren()` every former child still names this node as its parent, so the links disagree. */
  lemma RemoveChildrenLeavesParents(f: Nodes, p: Id)
    requires Linked(f) && p in f && |f[p].children| > 0
    ensures var r := RemoveChildrenState(f, p);
            r[p].children == [] &&
            (forall c :: c in f[p].children && c != p ==> r[c].parent == Some(p)) &&
            !Linked(r)
  {
    var r := RemoveChildrenState(f, p);
    var c := f[p].children[0];
    assert c in f[p].children;
    if c == p {
      assert r[p].parent == Some(p) && p !in r[p].children;
    } else {
      assert r[c].parent == Some(p) && c !in r[p].children;
    }
  }

  /**
   * `removeChildren()` as its comments intend it, part way: the first `i`
   * children have left the deque and, one after the other, lost their
   * parent link.
   */
  function RemoveChildrenStage(f: Nodes, p: Id, i: nat): (r: Nodes)
    requires p in f && i <= |f[p].children|
    ensures r.Keys == f.Keys
    decreases i
  {
    if i == 0 then f
    else
      var n := RemoveChildrenStage(f, p, i - 1);
      var c := f[p].children[i - 1];
      var n1 := n[p := n[p].(children := f[p].children[i..])];
      if c in n1 then n1[c := n1[c].(parent := None)] else n1
  }

  /** `removeChildren()` corrected: every child's parent link is reset and the deque is empty. */
  function RemoveChildrenDetached(f: Nodes, p: Id): (r: Nodes)
    requires p in f
    ensures r.Keys == f.Keys
  {
    RemoveChildrenStage(f, p, |f[p].children|)
  }

  /** The `removedFromScene()` calls the corrected `removeChildren()` makes: one per child, front to back. */
  function RemovedHooks(cs: seq<Id>): (h: seq<Hook>)
    ensures |h| == |cs| && forall k :: 0 <= k < |cs| ==> h[k] == RemovedFromScene(cs[k])
  {
    if cs == [] then [] else RemovedHooks(cs[..|cs| - 1]) + [RemovedFromScene(cs[|cs| - 1])]
  }

  /** One more child done: one more `removedFromScene()` at the end of the trace. */
  lemma RemovedHooksSnoc(cs: seq<Id>, i: nat)
    requires i < |cs|
    ensures RemovedHooks(cs[..i + 1]) == RemovedHooks(cs[..i]) + [RemovedFromScene(cs[i])]
  {
    assert cs[..i + 1][..i] == cs[..i];
  }

  /** Node by node, stage `i`: the children done so far are detached, and the deque holds the rest. */
  lemma RemoveChildrenStageAt(f: Nodes, p: Id, i: nat)
    requires p in f && i <= |f[p].children|
    ensures var r := RemoveChildrenStage(f, p, i);
            var cs := f[p].children;
            forall z :: z in f ==>
              r[z] == (if z in cs[..i] then f[z].(parent := None) else f[z])
                        .(children := if z == p then cs[i..] else f[z].children)
  {
    forall z | z in f {
      StageAtNode(f, p, i, z);
    }
  }

  /** Stage `i` at one node `z`. */
  lemma {:induction false} StageAtNode(f: Nodes, p: Id, i: nat, z: Id)
    requires p in f && i <= |f[p].children| && z in f
    ensures var cs := f[p].children;
            RemoveChildrenStage(f, p, i)[z] ==
              (if z in cs[..i] then f[z].(parent := None) else f[z])
                .(children := if z == p then cs[i..] else f[z].children)
    decreases i
  {
    var cs := f[p].children;
    if i == 0 {
      assert cs[..0] == [] && cs[0..] == cs;
    } else {
      StageAtNode(f, p, i - 1, z);
      var c := cs[i - 1];
      assert cs[..i] == cs[..i - 1] + [c];
      assert z in cs[..i] <==> z == c || z in cs[..i - 1];
    }
  }

  /** Before the loop nothing has changed. */
  lemma RemoveChildrenStageStart(f: Nodes, p: Id)
    requires p in f
    ensures RemoveChildrenStage(f, p, 0) == f
  {
  }

  /** One pass of the corrected loop: pop the front child, then reset its parent link. */
  lemma RemoveChildrenStageStep(f: Nodes, p: Id, i: nat)
    requires Closed(f) && p in f && i < |f[p].children|
    ensures var n := RemoveChildrenStage(f, p, i);
            var c := f[p].children[i];
            var n1 := n[p := n[p].(children := n[p].children[1..])];
            n[p].children == f[p].children[i..] && n[p].children[0] == c &&
            c in n1 && RemoveChildrenStage(f, p, i + 1) == n1[c := n1[c].(parent := None)]
  {
    var cs := f[p].children;
    RemoveChildrenStageAt(f, p, i);
    assert cs[i] in cs;
    assert cs[i..][1..] == cs[i + 1..];
  }

  /** The corrected `removeChildren()` empties the deque, detaches every child and touches no other node. */
  lemma RemoveChildrenDetachedEffect(f: Nodes, p: Id)
    requires p in f
    ensures var r := RemoveChildrenDetached(f, p);
            var cs := f[p].children;
            r.Keys == f.Keys &&
            r[p] == (if p in cs then f[p].(parent := None) else f[p]).(children := []) &&
            (forall z :: z in f && z != p ==> r[z] == if z in cs then f[z].(parent := None) else f[z])
  {
    var cs := f[p].children;
    RemoveChildrenStageAt(f, p, |cs|);
    assert cs[..|cs|] == cs && cs[|cs|..] == [];
  }

  /** Unlike the code as written, the corrected `removeChildren()` keeps parent links and child deques in agreement. */
  lemma RemoveChildrenDetachedKeepsLinked(f: Nodes, p: Id)
    requires Linked(f) && p in f
    ensures Linked(RemoveChildrenDetached(f, p))
  {
    RemoveChildrenDetachedEffect(f, p);
    DetachAllKeepsLinked(f, p, RemoveChildrenDetached(f, p));
  }

  /** The state the corrected `removeChildren()` leaves: `p` has no children, and its former children no parent. */
  ghost predicate AllDetached(f: Nodes, p: Id, r: Nodes)
    requires p in f
  {
    r.Keys == f.Keys &&
    r[p] == (if p in f[p].children then f[p].(parent := None) else f[p]).(children := []) &&
    forall z :: z in f && z != p ==> r[z] == if z in f[p].children then f[z].(parent := None) else f[z]
  }

  /** Emptying the deque of `p` and resetting its children's parent links keeps the links in agreement. */
  lemma DetachAllKeepsLinked(f: Nodes, p: Id, r: Nodes)
    requires Linked(f) && p in f && AllDetached(f, p, r)
    ensures Linked(r)
  {
    DetachAllClosed(f, p, r);
    DetachAllChildLinks(f, p, r);
    DetachAllParentLinks(f, p, r);
  }

  lemma DetachAllClosed(f: Nodes, p: Id, r: Nodes)
    requires Linked(f) && p in f && AllDetached(f, p, r)
    ensures Closed(r) && forall x :: x in r ==> NoDup(r[x].children)
  {
    forall x | x in r
      ensures (r[x].parent.Some? ==> r[x].parent.value in r) && (forall c :: c in r[x].children ==> c in r)
      ensures NoDup(r[x].children)
    {
      assert r[x].children == [] || r[x].children == f[x].children;
      assert r[x].parent.None? || r[x].parent == f[x].parent;
    }
  }

  lemma DetachAllChildLinks(f: Nodes, p: Id, r: Nodes)
    requires Linked(f) && p in f && AllDetached(f, p, r)
    ensures forall z, c :: z in r && c in r[z].children ==> r[c].parent == Some(z)
  {
    forall z, c | z in r && c in r[z].children
      ensures r[c].parent == Some(z)
    {
      assert z != p && r[z].children == f[z].children;
      assert f[c].parent == Some(z);
      assert c !in f[p].children;
      assert c != p ==> r[c] == f[c];
    }
  }

  lemma DetachAllParentLinks(f: Nodes, p: Id, r: Nodes)
    requires Linked(f) && p in f && AllDetached(f, p, r)
    ensures forall c :: c in r && r[c].parent.Some? ==> c in r[r[c].parent.value].children
  {
    forall c | c in r && r[c].parent.Some?
      ensures c in r[r[c].parent.value].children
    {
      assert c !in f[p].children;
      assert r[c].parent == f[c].parent;
      var q := f[c].parent.value;
      assert c in f[q].children;
      assert q != p;
      assert r[q].children == f[q].children;
    }
  }

  /** The destructor resets the parent link (without calling `setParent`) and then runs `removeChildren()`. */
  function DestroyState(f: Nodes, x: Id): (r: Nodes)
    requires x in f
    ensures r.Keys == f.Keys
  {
    RemoveChildrenState(f[x := f[x].(parent := None)], x)
  }

  // ---------------------------------------------------------------------
  // moveToTop, moveToBottom
  // ---------------------------------------------------------------------

  /** `moveToTop(n)`: erase the first `n` and push it at the back; a non-child changes nothing. */
  function MoveToTopState(f: Nodes, p: Id, n: Id): (r: Nodes)
    requires p in f
    ensures r.Keys == f.Keys
  {
    var cs := f[p].children;
    var k := Index(cs, n);
    if k == |cs| then f else f[p := f[p].(children := RemoveAt(cs, k) + [n])]
  }

  /** `moveToBottom(n)`: erase the first `n` and push it at the front; a non-child changes nothing. */
  function MoveToBottomState(f: Nodes, p: Id, n: Id): (r: Nodes)
    requires p in f
    ensures r.Keys == f.Keys
  {
    var cs := f[p].children;
    var k := Index(cs, n);
    if k == |cs| then f else f[p := f[p].(children := [n] + RemoveAt(cs, k))]
  }

  /** `isOnTop(n)`: false on an empty deque, otherwise whether the back is `n`. */
  function IsOnTop(f: Nodes, p: Id, n: Option<Id>): (top: bool)
    requires p in f
  {
    var cs := f[p].children;
    |cs| > 0 && n == Some(cs[|cs| - 1])
  }

  /** `isOnBottom(n)`: false on an empty deque, otherwise whether the front is `n`. */
  function IsOnBottom(f: Nodes, p: Id, n: Option<Id>): (bottom: bool)
    requires p in f
  {
    var cs := f[p].children;
    |cs| > 0 && n == Some(cs[0])
  }

  /** The self forms ask the parent; a node without a parent is neither on top nor on bottom. */
  function IsOnTopSelf(f: Nodes, x: Id): (top: bool)
    requires Closed(f) && x in f
    ensures f[x].parent.None? ==> !top
  {
    match f[x].parent
    case None => false
    case Some(q) => IsOnTop(f, q, Some(x))
  }

  function IsOnBottomSelf(f: Nodes, x: Id): (bottom: bool)
    requires Closed(f) && x in f
    ensures f[x].parent.None? ==> !bottom
  {
    match f[x].parent
    case None => false
    case Some(q) => IsOnBottom(f, q, Some(x))
  }

  /**
   * On consistent links a child occurs once, so `isOnTop(n)` holds exactly
   * when `n` is found at the last position and `isOnBottom(n)` exactly when
   * it is found at the first; null is neither.
   */
  lemma TopAndBottomPositions(f: Nodes, p: Id, n: Id)
    requires Linked(f) && p in f
    ensures var cs := f[p].children;
            (IsOnTop(f, p, Some(n)) <==> n in cs && Index(cs, n) == |cs| - 1) &&
            (IsOnBottom(f, p, Some(n)) <==> n in cs && Index(cs, n) == 0) &&
            !IsOnTop(f, p, None) && !IsOnBottom(f, p, None)
  {
  }

  /** `moveToTop(n)` on a child: same length, same children, `n` on top, the others in their old order. */
  lemma MoveToTopEffect(f: Nodes, p: Id, n: Id)
    requires p in f
    ensures var r := MoveToTopState(f, p, n);
            var cs := f[p].children;
            (n !in cs ==> r == f) &&
            (n in cs ==>
               |r[p].children| == |cs| &&
               multiset(r[p].children) == multiset(cs) &&
               r[p].children[..|cs| - 1] == RemoveAt(cs, Index(cs, n)) &&
               IsOnTop(r, p, Some(n)) &&
               (forall z :: z in f && z != p ==> r[z] == f[z]))
  {
    var cs := f[p].children;
    IndexFound(cs, n);
    if n in cs {
      MovedChildren(cs, n);
      var r := MoveToTopState(f, p, n);
      assert r == f[p := f[p].(children := RemoveAt(cs, Index(cs, n)) + [n])];
    }
  }

  /** `moveToBottom(n)` on a child: same length, same children, `n` at the bottom, the others in their old order. */
  lemma MoveToBottomEffect(f: Nodes, p: Id, n: Id)
    requires p in f
    ensures var r := MoveToBottomState(f, p, n);
            var cs := f[p].children;
            (n !in cs ==> r == f) &&
            (n in cs ==>
               |r[p].children| == |cs| &&
               multiset(r[p].children) == multiset(cs) &&
               r[p].children[1..] == RemoveAt(cs, Index(cs, n)) &&
               IsOnBottom(r, p, Some(n)) &&
               (forall z :: z in f && z != p ==> r[z] == f[z]))
  {
    var cs := f[p].children;
    IndexFound(cs, n);
    if n in cs {
      MovedChildren(cs, n);
      var r := MoveToBottomState(f, p, n);
      assert r == f[p := f[p].(children := [n] + RemoveAt(cs, Index(cs, n)))];
    }
  }

  /** Erasing the first `n` and pushing it back at either end keeps the length and the multiset of the deque. */
  lemma MovedChildren(cs: seq<Id>, n: Id)
    requires n in cs
    ensures Index(cs, n) < |cs|
    ensures var rest := RemoveAt(cs, Index(cs, n));
            |rest + [n]| == |cs| && multiset(rest + [n]) == multiset(cs) && (rest + [n])[..|cs| - 1] == rest &&
            |[n] + rest| == |cs| && multiset([n] + rest) == multiset(cs) && ([n] + rest)[1..] == rest
  {
    RemoveAtFirst(cs, n);
    var rest := RemoveAt(cs, Index(cs, n));
    assert multiset(rest + [n]) == multiset(rest) + multiset{n};
    assert (rest + [n])[..|cs| - 1] == rest;
    assert multiset([n] + rest) == multiset{n} + multiset(rest);
  }

  lemma ParentOfChild(f: Nodes, z: Id, c: Id)
    requires Linked(f) && z in f && c in f[z].children
    ensures c in f && f[c].parent == Some(z)
  {
  }

  lemma NoDupCons(n: Id, rest: seq<Id>)
    requires NoDup(rest) && n !in rest
    ensures NoDup([n] + rest) && NoDup(rest + [n])
  {
    var a := [n] + rest;
    forall i, j | 0 <= i < j < |a|
      ensures a[i] != a[j]
    {
      if i == 0 { assert a[j] in rest; } else { assert a[i] == rest[i - 1] && a[j] == rest[j - 1]; }
    }
    var b := rest + [n];
    forall i, j | 0 <= i < j < |b|
      ensures b[i] != b[j]
    {
      if j == |b| - 1 { assert b[i] in rest; }
    }
  }

  /** Replacing a deque by a duplicate-free deque with the same members keeps consistent links consistent. */
  lemma SameMembersKeepLinked(f: Nodes, p: Id, cs: seq<Id>)
    requires Linked(f) && p in f && NoDup(cs)
    requires forall c :: c in cs <==> c in f[p].children
    ensures Linked(f[p := f[p].(children := cs)])
  {
  }

  /** Moving a child to the top keeps consistent links consistent. */
  lemma MoveToTopKeepsLinked(f: Nodes, p: Id, n: Id)
    requires Linked(f) && p in f
    ensures Linked(MoveToTopState(f, p, n))
  {
    var cs := f[p].children;
    IndexFound(cs, n);
    if n in cs {
      var k := Index(cs, n);
      var rest := RemoveAt(cs, k);
      RemoveAtFirst(cs, n);
      RemoveAtNoDup(cs, k);
      var top := rest + [n];
      assert multiset(top) == multiset(cs);
      forall c
        ensures c in top <==> c in cs
      {
        assert c in top <==> c in multiset(top);
      }
      NoDupCons(n, rest);
      SameMembersKeepLinked(f, p, top);
    }
  }

  /** Moving a child to the bottom keeps consistent links consistent. */
  lemma MoveToBottomKeepsLinked(f: Nodes, p: Id, n: Id)
    requires Linked(f) && p in f
    ensures Linked(MoveToBottomState(f, p, n))
  {
    var cs := f[p].children;
    IndexFound(cs, n);
    if n in cs {
      var k := Index(cs, n);
      var rest := RemoveAt(cs, k);
      RemoveAtFirst(cs, n);
      RemoveAtNoDup(cs, k);
      var bottom := [n] + rest;
      assert multiset(bottom) == multiset(cs);
      forall c
        ensures c in bottom <==> c in cs
      {
        assert c in bottom <==> c in multiset(bottom);
      }
      NoDupCons(n, rest);
      SameMembersKeepLinked(f, p, bottom);
    }
  }

  // ---------------------------------------------------------------------
  // Ancestors: getDeepParent
  // ---------------------------------------------------------------------

  /**
   * A depth on some nodes that grows from each node's parent to the node, the
   * parent being in it too: above a node that has a depth, the chain of
   * parent links ends. Nodes elsewhere are not constrained.
   */
  ghost predicate Grounded(f: Nodes, depth: map<Id, nat>) {
    forall x :: x in depth ==>
      x in f && (f[x].parent.Some? ==> f[x].parent.value in depth && depth[f[x].parent.value] < depth[x])
  }

  /** The chain of parent links from `x` upward: parent, grandparent, ... */
  ghost function Ancestors(f: Nodes, depth: map<Id, nat>, x: Id): (up: seq<Id>)
    requires Grounded(f, depth) && x in depth
    ensures forall a :: a in up ==> a in f
    decreases depth[x]
  {
    match f[x].parent
    case None => []
    case Some(q) => [q] + Ancestors(f, depth, q)
  }

  /**
   * A depth for the climb of `getDeepParent<Y>()`: it grows from each node's
   * parent to the node wherever that parent is not a `Y`, so the climb ends at
   * the first `Y` or at a node without a parent. Above that `Y` the chain may
   * loop.
   */
  ghost predicate GroundedUntil(f: Nodes, depth: map<Id, nat>, y: Target) {
    forall x :: x in depth ==>
      x in f &&
      (f[x].parent.Some? && f[x].parent.value in f && !IsA(f[f[x].parent.value].kind, y) ==>
         f[x].parent.value in depth && depth[f[x].parent.value] < depth[x])
  }

  /**
   * `getDeepParent<Y>()`: the parent if it is a `Y`, else the parent's own
   * answer; null for a node without a parent.
   */
  function GetDeepParent(f: Nodes, ghost depth: map<Id, nat>, x: Id, y: Target): Option<Id>
    requires Closed(f) && GroundedUntil(f, depth, y) && x in depth
    decreases depth[x]
  {
    match f[x].parent
    case None => None
    case Some(q) => if IsA(f[q].kind, y) then Some(q) else GetDeepParent(f, depth, q, y)
  }

  /** `s` follows parent links upward: each entry is the parent of the entry before it. */
  ghost predicate UpPath(f: Nodes, s: seq<Id>) {
    |s| >= 1 &&
    (forall i :: 0 <= i < |s| ==> s[i] in f) &&
    (forall i :: 0 <= i < |s| - 1 ==> f[s[i]].parent == Some(s[i + 1]))
  }

  /** No entry of `s` after the first is a `Y`. */
  ghost predicate NoneAbove(f: Nodes, s: seq<Id>, y: Target) {
    forall j :: 0 < j < |s| && s[j] in f ==> !IsA(f[s[j]].kind, y)
  }

  /** `s` climbs from `x` to a `Y` and passes no other `Y` on the way. */
  ghost predicate NearestChain(f: Nodes, s: seq<Id>, x: Id, y: Target) {
    UpPath(f, s) && s[0] == x && |s| >= 2 &&
    IsA(f[s[|s| - 1]].kind, y) && NoneAbove(f, s[..|s| - 1], y)
  }

  /**
   * `getDeepParent<Y>()` is the first `Y` on the parent chain of `x`: when it
   * answers a node, a chain climbs from `x` to that node past no other `Y`;
   * when it answers null, the chain reaches a node without a parent and meets
   * no `Y`; and whenever some chain from `x` meets a `Y`, the answer is not null.
   */
  lemma GetDeepParentIsNearest(f: Nodes, depth: map<Id, nat>, x: Id, y: Target)
    requires Closed(f) && GroundedUntil(f, depth, y) && x in depth
    ensures GetDeepParent(f, depth, x, y).Some? ==>
              exists s :: NearestChain(f, s, x, y) && s[|s| - 1] == GetDeepParent(f, depth, x, y).value
    ensures GetDeepParent(f, depth, x, y).None? ==>
              exists s :: UpPath(f, s) && s[0] == x && f[s[|s| - 1]].parent.None? && NoneAbove(f, s, y)
    ensures forall s :: UpPath(f, s) && s[0] == x && !NoneAbove(f, s, y) ==> GetDeepParent(f, depth, x, y).Some?
  {
    var r := GetDeepParent(f, depth, x, y);
    var s := DeepParentChain(f, depth, x, y);
    forall t | UpPath(f, t) && t[0] == x && !NoneAbove(f, t, y)
      ensures r.Some?
    {
      DeepParentMeetsY(f, depth, x, y, t);
    }
  }

  /** The chain `getDeepParent<Y>()` climbs: up to the answer, or up to a node without a parent. */
  lemma {:induction false} DeepParentChain(f: Nodes, depth: map<Id, nat>, x: Id, y: Target) returns (s: seq<Id>)
    requires Closed(f) && GroundedUntil(f, depth, y) && x in depth
    ensures GetDeepParent(f, depth, x, y).Some? ==>
              NearestChain(f, s, x, y) && s[|s| - 1] == GetDeepParent(f, depth, x, y).value
    ensures GetDeepParent(f, depth, x, y).None? ==>
              UpPath(f, s) && s[0] == x && f[s[|s| - 1]].parent.None? && NoneAbove(f, s, y)
    decreases depth[x]
  {
    match f[x].parent
    case None =>
      ChainAtRoot(f, x, y);
      s := [x];
    case Some(q) =>
      if IsA(f[q].kind, y) {
        s := [x, q];
        assert UpPath(f, s) && NoneAbove(f, s[..1], y);
      } else {
        var t := DeepParentChain(f, depth, q, y);
        ChainCons(f, x, q, t, y);
        s := [x] + t;
        assert s[|s| - 1] == t[|t| - 1];
      }
  }

  /** When some chain from `x` meets a `Y`, `getDeepParent<Y>()` is not null. */
  lemma {:induction false} DeepParentMeetsY(f: Nodes, depth: map<Id, nat>, x: Id, y: Target, s: seq<Id>)
    requires Closed(f) && GroundedUntil(f, depth, y) && x in depth
    requires UpPath(f, s) && s[0] == x && !NoneAbove(f, s, y)
    ensures GetDeepParent(f, depth, x, y).Some?
    decreases depth[x]
  {
    match f[x].parent
    case None =>
      ChainAtRoot(f, x, y);
    case Some(q) =>
      if !IsA(f[q].kind, y) {
        ChainTail(f, x, q, s, y);
        DeepParentMeetsY(f, depth, q, y, s[1..]);
      }
  }

  /** A node without a parent is the only chain from itself, and that chain meets no `Y`. */
  lemma ChainAtRoot(f: Nodes, x: Id, y: Target)
    requires x in f && f[x].parent.None?
    ensures UpPath(f, [x]) && NoneAbove(f, [x], y)
    ensures forall s :: UpPath(f, s) && s[0] == x ==> NoneAbove(f, s, y)
  {
    assert UpPath(f, [x]);
    forall s | UpPath(f, s) && s[0] == x
      ensures NoneAbove(f, s, y)
    {
      UpPathStep(f, s);
    }
  }

  /** A chain from the parent `q` of `x`, with `x` put in front, is a chain from `x` of the same kind. */
  lemma ChainCons(f: Nodes, x: Id, q: Id, t: seq<Id>, y: Target)
    requires x in f && f[x].parent == Some(q) && q in f && !IsA(f[q].kind, y)
    requires UpPath(f, t) && t[0] == q
    ensures UpPath(f, [x] + t) && ([x] + t)[0] == x
    ensures NoneAbove(f, t, y) ==> NoneAbove(f, [x] + t, y)
    ensures NearestChain(f, t, q, y) ==> NearestChain(f, [x] + t, x, y)
  {
    var s := [x] + t;
    assert s[..|s| - 1] == [x] + t[..|t| - 1];
  }

  /** A chain from `x` that meets a `Y` above its parent `q` gives a chain from `q` that meets it. */
  lemma ChainTail(f: Nodes, x: Id, q: Id, s: seq<Id>, y: Target)
    requires x in f && f[x].parent == Some(q) && q in f && !IsA(f[q].kind, y)
    requires UpPath(f, s) && s[0] == x && !NoneAbove(f, s, y)
    ensures UpPath(f, s[1..]) && s[1..][0] == q && !NoneAbove(f, s[1..], y)
  {
    UpPathStep(f, s);
    var j :| 0 < j < |s| && s[j] in f && IsA(f[s[j]].kind, y);
    assert s[1..][j - 1] == s[j];
  }

  /** A chain longer than one entry starts at a node whose parent is its second entry, and goes on from there. */
  lemma UpPathStep(f: Nodes, s: seq<Id>)
    requires UpPath(f, s)
    ensures |s| >= 2 ==> f[s[0]].parent == Some(s[1]) && UpPath(f, s[1..])
    ensures f[s[0]].parent.None? ==> |s| == 1
  {
    assert 0 < |s| - 1 ==> f[s[0]].parent == Some(s[1]);
  }

  /** Two chains from `x` that each end at the first `Y` are the same chain: parent links go one way. */
  lemma {:induction false} NearestChainUnique(f: Nodes, s: seq<Id>, t: seq<Id>, x: Id, y: Target)
    requires NearestChain(f, s, x, y) && NearestChain(f, t, x, y)
    ensures s == t
    decreases |s|
  {
    assert s[1] == t[1];
    if |s| == 2 || |t| == 2 {
    } else {
      var s', t' := s[1..], t[1..];
      assert s'[..|s'| - 1] == s[..|s| - 1][1..];
      assert t'[..|t'| - 1] == t[..|t| - 1][1..];
      assert UpPath(f, s') && UpPath(f, t');
      NearestChainUnique(f, s', t', s[1], y);
      assert s == [x] + s' && t == [x] + t';
    }
  }

  /** On consistent links the parent chain holds exactly the nodes whose subtree holds `x`, other than `x`. */
  lemma {:induction false} AncestorsAreAbove(f: Nodes, depth: map<Id, nat>, x: Id, a: Id)
    requires Linked(f) && Grounded(f, depth) && x in depth
    ensures a in Ancestors(f, depth, x) <==> a in f && a != x && Descends(f, a, x)
    decreases depth[x]
  {
    match f[x].parent
    case None =>
      if a in f && a != x && Descends(f, a, x) {
        DescendsViaParent(f, a, x);
        assert false;
      }
    case Some(q) =>
      AncestorsAreAbove(f, depth, q, a);
      if a in Ancestors(f, depth, x) {
        AncestorsShallower(f, depth, x, a);
        if a == q {
          DescendsSelf(f, q);
        }
        DescendsExtend(f, a, q, x);
      }
      if a in f && a != x && Descends(f, a, x) {
        DescendsViaParent(f, a, x);
      }
  }

  /** The subtree of `a` holding `q` holds every child of `q`. */
  lemma DescendsExtend(f: Nodes, a: Id, q: Id, x: Id)
    requires Closed(f) && q in f && x in f[q].children && Descends(f, a, q)
    ensures Descends(f, a, x)
  {
    var s :| Path(f, s) && s[0] == a && s[|s| - 1] == q;
    var t := s + [x];
    assert Path(f, t) && t[0] == a && t[|t| - 1] == x;
  }

  /** Every node on the parent chain of `x` sits strictly shallower than `x`. */
  lemma {:induction false} AncestorsShallower(f: Nodes, depth: map<Id, nat>, x: Id, a: Id)
    requires Grounded(f, depth) && x in depth && a in Ancestors(f, depth, x)
    ensures a in depth && depth[a] < depth[x]
    decreases depth[x]
  {
    var q := f[x].parent.value;
    if a != q {
      AncestorsShallower(f, depth, q, a);
    }
  }

  // ---------------------------------------------------------------------
  // Every operation keeps the links inside the map
  // ---------------------------------------------------------------------

  lemma WithParentKeepsClosed(f: Nodes, x: Id, q: Option<Id>)
    requires Closed(f) && x in f && (q.Some? ==> q.value in f)
    ensures Closed(WithParent(f, x, q))
  {
  }

  lemma RemoveChildKeepsClosed(f: Nodes, p: Id, n: Id)
    requires Closed(f) && p in f && n in f
    ensures Closed(RemoveChildState(f, p, n))
  {
    var cs := f[p].children;
    var k := Index(cs, n);
    if k < |cs| {
      var r := RemoveChildState(f, p, n);
      forall c | c in r[p].children
        ensures c in f
      {
        var i :| 0 <= i < |r[p].children| && r[p].children[i] == c;
        if i < k { assert c == cs[i]; } else { assert c == cs[i + 1]; }
      }
    }
  }

  lemma AppendChildKeepsClosed(f: Nodes, p: Id, n: Id)
    requires Closed(f) && p in f && n in f
    ensures Closed(f[p := f[p].(children := f[p].children + [n])])
  {
  }

  lemma RemoveChildrenKeepsClosed(f: Nodes, p: Id)
    requires Closed(f) && p in f
    ensures Closed(RemoveChildrenState(f, p))
  {
  }

  lemma DetachedChildrenKeepClosed(f: Nodes, p: Id)
    requires Closed(f) && p in f
    ensures Closed(RemoveChildrenDetached(f, p))
  {
    var r := RemoveChildrenDetached(f, p);
    RemoveChildrenDetachedEffect(f, p);
    forall x | x in r
      ensures (r[x].parent.Some? ==> r[x].parent.value in r) && (forall c :: c in r[x].children ==> c in r)
    {
      assert r[x].parent.Some? ==> r[x].parent == f[x].parent;
      assert forall c :: c in r[x].children ==> c in f[x].children;
    }
  }

  lemma DetachedKeepsClosed(f: Nodes, n: Id)
    requires Closed(f) && n in f
    ensures Closed(Detached(f, n))
  {
    match f[n].parent
    case None =>
    case Some(q) => RemoveChildKeepsClosed(f, q, n);
  }

  lemma SetParentKeepsClosed(f: Nodes, n: Id, p: Id)
    requires Closed(f) && n in f && p in f
    ensures Closed(f[n := f[n].(parent := Some(p))])
  {
  }

  lemma AddChildKeepsClosed(f: Nodes, p: Id, n: Id)
    requires Closed(f) && p in f && n in f && n != p
    ensures Closed(AddChildState(f, p, n))
  {
    var f1 := Detached(f, n);
    DetachedKeepsClosed(f, n);
    var f2 := f1[p := f1[p].(children := f1[p].children + [n])];
    AppendChildKeepsClosed(f1, p, n);
    SetParentKeepsClosed(f2, n, p);
  }

  lemma MoveKeepsClosed(f: Nodes, p: Id, n: Id)
    requires Closed(f) && p in f
    ensures Closed(MoveToTopState(f, p, n)) && Closed(MoveToBottomState(f, p, n))
  {
    var cs := f[p].children;
    var k := Index(cs, n);
    if k < |cs| {
      forall c | c in RemoveAt(cs, k)
        ensures c in cs
      {
        var i :| 0 <= i < |RemoveAt(cs, k)| && RemoveAt(cs, k)[i] == c;
        if i < k { assert c == cs[i]; } else { assert c == cs[i + 1]; }
      }
    }
  }

  /**
   * The queries see what `addChild` and `removeChild` did: after a
   * successful `addChild(n)`, `n` has this node as parent and the deque is one
   * longer; after `removeChild(n)` of a child, `n` has no parent and the deque
   * is one shorter.
   */
  lemma QueriesAfterAddAndRemove(f: Nodes, p: Id, n: Id)
    requires Linked(f) && p in f && n in f
    ensures !AddChildRefused(f, p, Some(n)) ==>
              var r := AddChildState(f, p, n);
              HasParent(r, n) && GetParent(r, n) == Some(p) && HasChildren(r, p) &&
              GetChildCount(r, p) == GetChildCount(f, p) + 1
    ensures n in f[p].children ==>
              var r := RemoveChildState(f, p, n);
              !HasParent(r, n) && GetChildCount(r, p) == GetChildCount(f, p) - 1
  {
    if !AddChildRefused(f, p, Some(n)) {
      AddChildAttaches(f, p, n);
    }
    if n in f[p].children {
      RemoveChildEffect(f, p, n);
    }
  }
}
