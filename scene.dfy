/**
 * The scene graph as mutable state: every live node by id, and the trace of
 * hook calls made so far. The methods are the member functions of `NodeBase`
 * and of the legacy `Node`, whose bodies are the same. Each method runs on
 * the node `p` (its `this`) and changes the node map in place; its contract
 * ties the new map and the new trace to the functions of `TreeOps`.
 */
module SceneGraph {
  import opened Wrappers
  import opened Forest
  import opened TreeOps
  import opened Naming

  /** `std::find` over a child deque: the position of the first `x`, or the length when there is none. */
  method Find(s: seq<Id>, x: Id) returns (k: nat)
    ensures k <= |s|
    ensures k < |s| ==> s[k] == x
    ensures forall i :: 0 <= i < k ==> s[i] != x
    ensures k == Index(s, x)
  {
    k := 0;
    while k < |s| && s[k] != x
      invariant k <= |s|
      invariant forall i :: 0 <= i < k ==> s[i] != x
    {
      k := k + 1;
    }
  }

  /** The `setup()` calls of a walk, one per visited node, in the order of the walk. */
  function SetupCalls(ids: seq<Id>): seq<Hook>
  {
    if ids == [] then [] else [Setup(ids[0])] + SetupCalls(ids[1..])
  }

  /** The `update(elapsed)` calls of a walk, one per visited node, all with the same elapsed time. */
  function UpdateCalls(ids: seq<Id>, elapsed: real): seq<Hook>
  {
    if ids == [] then [] else [Update(ids[0], elapsed)] + UpdateCalls(ids[1..], elapsed)
  }

  /** Appending one more walk to the trace: `h + calls(a)` followed by `calls(b)` is `h + calls(a + b)`. */
  lemma {:induction false} SetupCallsAppend(h: seq<Hook>, a: seq<Id>, b: seq<Id>)
    ensures (h + SetupCalls(a)) + SetupCalls(b) == h + SetupCalls(a + b)
    decreases |a|
  {
    if a == [] {
      assert a + b == b;
    } else {
      var h' := h + [Setup(a[0])];
      assert (a + b)[0] == a[0] && (a + b)[1..] == a[1..] + b;
      assert h + SetupCalls(a) == h' + SetupCalls(a[1..]);
      assert h + SetupCalls(a + b) == h' + SetupCalls(a[1..] + b);
      SetupCallsAppend(h', a[1..], b);
    }
  }

  lemma {:induction false} UpdateCallsAppend(h: seq<Hook>, a: seq<Id>, b: seq<Id>, elapsed: real)
    ensures (h + UpdateCalls(a, elapsed)) + UpdateCalls(b, elapsed) == h + UpdateCalls(a + b, elapsed)
    decreases |a|
  {
    if a == [] {
      assert a + b == b;
    } else {
      var h' := h + [Update(a[0], elapsed)];
      assert (a + b)[0] == a[0] && (a + b)[1..] == a[1..] + b;
      assert h + UpdateCalls(a, elapsed) == h' + UpdateCalls(a[1..], elapsed);
      assert h + UpdateCalls(a + b, elapsed) == h' + UpdateCalls(a[1..] + b, elapsed);
      UpdateCallsAppend(h', a[1..], b, elapsed);
    }
  }

  lemma TraceAssoc(h: seq<Hook>, a: seq<Hook>, b: seq<Hook>, c: seq<Hook>)
    ensures ((h + a) + b) + c == h + ((a + b) + c)
  {
  }

  /** The call on a node, then the calls of the walk below it. */
  lemma SetupCallsCons(h: seq<Hook>, x: Id, w: seq<Id>)
    ensures (h + [Setup(x)]) + SetupCalls(w) == h + SetupCalls([x] + w)
  {
    assert ([x] + w)[1..] == w;
  }

  lemma UpdateCallsCons(h: seq<Hook>, x: Id, w: seq<Id>, elapsed: real)
    ensures (h + [Update(x, elapsed)]) + UpdateCalls(w, elapsed) == h + UpdateCalls([x] + w, elapsed)
  {
    assert ([x] + w)[1..] == w;
  }

  /**
   * The loop of the corrected `removeChildren()` on node `p`: pop the front
   * child, reset its parent link, record its `removedFromScene()`.
   */
  method DetachChildren(f: Nodes, p: Id) returns (r: Nodes, h: seq<Hook>)
    requires Closed(f) && p in f
    ensures r == RemoveChildrenDetached(f, p)
    ensures h == RemovedHooks(f[p].children)
  {
    ghost var cs := f[p].children;
    ghost var i := 0;
    r, h := f, [];
    RemoveChildrenStageStart(f, p);
    while |r[p].children| > 0
      invariant i <= |cs| && p in r
      invariant r == RemoveChildrenStage(f, p, i) && r[p].children == cs[i..]
      invariant h == RemovedHooks(cs[..i])
      decreases |r[p].children|
    {
      var c := r[p].children[0];
      RemoveChildrenStageStep(f, p, i);
      RemovedHooksSnoc(cs, i);
      assert c == cs[i];
      r := r[p := r[p].(children := r[p].children[1..])];
      r := r[c := r[c].(parent := None)];
      h := h + [RemovedFromScene(c)];
      i := i + 1;
    }
    assert cs[..i] == cs;
  }

  class Scene {
    var nodes: Nodes
    var hooks: seq<Hook>
    var nextId: Id

    /** Links name live nodes, and ids below `nextId` are taken. */
    ghost predicate Valid()
      reads this`nodes, this`nextId
    {
      Closed(nodes) && forall x :: x in nodes ==> x < nextId
    }

    constructor ()
      ensures Valid() && nodes == map[] && hooks == []
    {
      nodes := map[];
      hooks := [];
      nextId := 0;
    }

    /**
     * A node of the current classes (`NodeBase(name, active)`): the scene
     * object part names it from the counter; it starts without parent and
     * without children.
     */
    method NewNode(base: string, active: bool, kind: Kind, counter: NameCounter) returns (id: Id)
      requires Valid() && counter.Valid() && kind != LegacyKind
      modifies this, counter
      ensures Valid() && counter.Valid()
      ensures id !in old(nodes)
      ensures nodes == old(nodes)[id := Node(ObjectName(base, old(counter.value)), active, kind, None, [])]
      ensures hooks == old(hooks)
      ensures counter.value == (old(counter.value) + 1) % UINT64_LIMIT
    {
      var name := counter.NextName(base);
      id := AddRoot(Node(name, active, kind, None, []));
    }

    /** The legacy `Node(name, active)` stores the name it is given, unchanged. */
    method NewLegacyNode(name: string, active: bool) returns (id: Id)
      requires Valid()
      modifies this
      ensures Valid()
      ensures id !in old(nodes)
      ensures nodes == old(nodes)[id := Node(name, active, LegacyKind, None, [])]
      ensures hooks == old(hooks)
    {
      id := AddRoot(Node(name, active, LegacyKind, None, []));
    }

    /** Stores a node without parent and without children under a fresh id. */
    method AddRoot(nd: Node) returns (id: Id)
      requires Valid() && nd.parent.None? && nd.children == []
      modifies this
      ensures Valid()
      ensures id !in old(nodes)
      ensures nodes == old(nodes)[id := nd]
      ensures hooks == old(hooks)
    {
      id := nextId;
      ClosedAddRoot(nodes, id, nd);
      nodes := nodes[id := nd];
      nextId := nextId + 1;
    }

    /** `setParent(q)`: store the link; `addedToScene` fires when the node had no parent before. */
    method SetParent(x: Id, q: Option<Id>)
      requires Valid() && x in nodes && (q.Some? ==> q.value in nodes)
      modifies this
      ensures Valid() && nextId == old(nextId)
      ensures nodes == WithParent(old(nodes), x, q)
      ensures hooks == old(hooks) + SetParentHooks(old(nodes), x)
    {
      var dispatch := nodes[x].parent.None?;
      WithParentKeepsClosed(nodes, x, q);
      nodes := nodes[x := nodes[x].(parent := q)];
      if dispatch {
        hooks := hooks + [AddedToScene(x)];
      }
    }

    /** `hasChild(n)`: membership in the deque; null is never a child. */
    method HasChild(p: Id, n: Option<Id>) returns (found: bool)
      requires p in nodes
      ensures found <==> n.Some? && n.value in nodes[p].children
    {
      if n.None? {
        return false;
      }
      var k := Find(nodes[p].children, n.value);
      found := k < |nodes[p].children|;
    }

    /** `getChildByName(name)`: the first child, front to back, with that name; null when there is none. */
    method GetChildByName(p: Id, name: string) returns (child: Option<Id>)
      requires Valid() && p in nodes
      ensures child.None? ==> forall c :: c in nodes[p].children ==> nodes[c].name != name
      ensures child.Some? ==>
                exists i :: 0 <= i < |nodes[p].children| && nodes[p].children[i] == child.value &&
                            nodes[child.value].name == name &&
                            forall j :: 0 <= j < i ==> nodes[nodes[p].children[j]].name != name
    {
      var cs := nodes[p].children;
      var i := 0;
      while i < |cs|
        invariant i <= |cs|
        invariant forall j :: 0 <= j < i ==> nodes[cs[j]].name != name
      {
        if nodes[cs[i]].name == name {
          return Some(cs[i]);
        }
        i := i + 1;
      }
      return None;
    }

    /**
     * `removeChild(n)`: if `n` is a child, clear its link through
     * `setParent`, erase its entry and call `removedFromScene` on it.
     */
    method RemoveChild(p: Id, n: Option<Id>) returns (removed: bool)
      requires Valid() && p in nodes && (n.Some? ==> n.value in nodes)
      modifies this
      ensures Valid() && nextId == old(nextId)
      ensures removed <==> n.Some? && n.value in old(nodes)[p].children
      ensures n.None? ==> nodes == old(nodes) && hooks == old(hooks)
      ensures n.Some? ==>
                nodes == RemoveChildState(old(nodes), p, n.value) &&
                hooks == old(hooks) + RemoveChildHooks(old(nodes), p, n.value)
    {
      if n.None? {
        return false;
      }
      var x := n.value;
      var cs := nodes[p].children;
      var k := Find(cs, x);
      if k == |cs| {
        return false;
      }
      ghost var f := nodes;
      SetParent(x, None);
      nodes := nodes[p := nodes[p].(children := cs[..k] + cs[k + 1..])];
      hooks := hooks + [RemovedFromScene(x)];
      assert x in f[p].children;
      assert nodes == RemoveChildState(f, p, x);
      assert Closed(nodes) by {
        RemoveChildKeepsClosed(f, p, x);
      }
      return true;
    }

    /**
     * `addChild(n)`: refuse null, this node and a current child; otherwise
     * detach `n` from its parent, push it at the back, link it through
     * `setParent` and call `addedToScene` on it.
     */
    method AddChild(p: Id, n: Option<Id>) returns (added: bool)
      requires Valid() && p in nodes && (n.Some? ==> n.value in nodes)
      modifies this
      ensures Valid() && nextId == old(nextId)
      ensures added <==> !AddChildRefused(old(nodes), p, n)
      ensures !added ==> nodes == old(nodes) && hooks == old(hooks)
      ensures added ==>
                nodes == AddChildState(old(nodes), p, n.value) &&
                hooks == old(hooks) + AddChildHooks(old(nodes), p, n.value)
    {
      var has := HasChild(p, n);
      if has || n == Some(p) || n.None? {
        return false;
      }
      var x := n.value;
      ghost var f := nodes;
      ghost var h := hooks;
      RemoveFromParent(x);
      ghost var d := hooks;
      Attach(p, x);
      TraceAssoc(h, DetachHooks(f, x), SetParentHooks(Detached(f, x), x), [AddedToScene(x)]);
      return true;
    }

    /** The second half of a successful `addChild(n)`: push at the back, `setParent(this)`, `addedToScene`. */
    method Attach(p: Id, x: Id)
      requires Valid() && p in nodes && x in nodes && x != p
      modifies this
      ensures Valid() && nextId == old(nextId)
      ensures nodes == old(nodes)[p := old(nodes)[p].(children := old(nodes)[p].children + [x])]
                                 [x := old(nodes)[x].(parent := Some(p))]
      ensures hooks == old(hooks) + SetParentHooks(old(nodes), x) + [AddedToScene(x)]
    {
      ghost var f := nodes;
      nodes := nodes[p := nodes[p].(children := nodes[p].children + [x])];
      assert Closed(nodes) by {
        AppendChildKeepsClosed(f, p, x);
      }
      SetParent(x, Some(p));
      hooks := hooks + [AddedToScene(x)];
    }

    /**
     * `removeChildren()` as written: erase from the front until the deque is
     * empty. The children keep their parent links, and the
     * `removedFromScene()` call that follows each erase (on the element
     * after it) is not modelled.
     */
    method RemoveChildren(p: Id)
      requires Valid() && p in nodes
      modifies this
      ensures Valid() && nextId == old(nextId)
      ensures nodes == RemoveChildrenState(old(nodes), p)
      ensures hooks == old(hooks)
    {
      ghost var f := nodes;
      ghost var cs := nodes[p].children;
      ghost var i := 0;
      while |nodes[p].children| > 0
        invariant i <= |cs|
        invariant nodes == f[p := f[p].(children := cs[i..])]
        invariant nextId == old(nextId) && hooks == old(hooks)
        decreases |nodes[p].children|
      {
        nodes := nodes[p := nodes[p].(children := nodes[p].children[1..])];
        i := i + 1;
      }
      assert nodes == RemoveChildrenState(f, p);
      assert Closed(nodes) by {
        RemoveChildrenKeepsClosed(f, p);
      }
    }

    /**
     * `removeChildren()` as its comment "reset parent" intends it: each
     * erased child also loses its parent link and gets its own
     * `removedFromScene()`.
     */
    method DetachAllChildren(p: Id)
      requires Valid() && p in nodes
      modifies this
      ensures Valid() && nextId == old(nextId)
      ensures nodes == RemoveChildrenDetached(old(nodes), p)
      ensures Linked(old(nodes)) ==> Linked(nodes)
      ensures hooks == old(hooks) + RemovedHooks(old(nodes)[p].children)
    {
      ghost var f := nodes;
      var ns, hs := DetachChildren(nodes, p);
      DetachedChildrenKeepClosed(f, p);
      if Linked(f) {
        RemoveChildrenDetachedKeepsLinked(f, p);
      }
      nodes := ns;
      hooks := hooks + hs;
    }

    /** `removeFromParent()`: the parent's `removeChild(this)`, or nothing without a parent. */
    method RemoveFromParent(x: Id)
      requires Valid() && x in nodes
      modifies this
      ensures Valid() && nextId == old(nextId)
      ensures nodes == Detached(old(nodes), x)
      ensures hooks == old(hooks) + DetachHooks(old(nodes), x)
    {
      var q := nodes[x].parent;
      if q.Some? {
        var removed := RemoveChild(q.value, Some(x));
      }
    }

    /** `moveToTop(n)`: erase the first `n` and push it at the back; null or a non-child changes nothing. */
    method MoveToTop(p: Id, n: Option<Id>)
      requires Valid() && p in nodes
      modifies this
      ensures Valid() && nextId == old(nextId) && hooks == old(hooks)
      ensures nodes == if n.None? then old(nodes) else MoveToTopState(old(nodes), p, n.value)
    {
      if n.None? {
        return;
      }
      var cs := nodes[p].children;
      var k := Find(cs, n.value);
      if k == |cs| {
        return;
      }
      ghost var f := nodes;
      var rest := cs[..k] + cs[k + 1..];
      nodes := nodes[p := nodes[p].(children := rest)];
      nodes := nodes[p := nodes[p].(children := rest + [n.value])];
      assert nodes == MoveToTopState(f, p, n.value);
      assert Closed(nodes) by {
        MoveKeepsClosed(f, p, n.value);
      }
    }

    /** `moveToBottom(n)`: erase the first `n` and push it at the front; null or a non-child changes nothing. */
    method MoveToBottom(p: Id, n: Option<Id>)
      requires Valid() && p in nodes
      modifies this
      ensures Valid() && nextId == old(nextId) && hooks == old(hooks)
      ensures nodes == if n.None? then old(nodes) else MoveToBottomState(old(nodes), p, n.value)
    {
      if n.None? {
        return;
      }
      var cs := nodes[p].children;
      var k := Find(cs, n.value);
      if k == |cs| {
        return;
      }
      ghost var f := nodes;
      var rest := cs[..k] + cs[k + 1..];
      nodes := nodes[p := nodes[p].(children := rest)];
      nodes := nodes[p := nodes[p].(children := [n.value] + rest)];
      assert nodes == MoveToBottomState(f, p, n.value);
      assert Closed(nodes) by {
        MoveKeepsClosed(f, p, n.value);
      }
    }

    /** `moveToTop()`: the parent's `moveToTop(this)`, or nothing without a parent. */
    method MoveSelfToTop(x: Id)
      requires Valid() && x in nodes
      modifies this
      ensures Valid() && nextId == old(nextId) && hooks == old(hooks)
      ensures nodes == match old(nodes)[x].parent
                       case None => old(nodes)
                       case Some(q) => MoveToTopState(old(nodes), q, x)
    {
      var q := nodes[x].parent;
      if q.Some? {
        MoveToTop(q.value, Some(x));
      }
    }

    /** `moveToBottom()`: the parent's `moveToBottom(this)`, or nothing without a parent. */
    method MoveSelfToBottom(x: Id)
      requires Valid() && x in nodes
      modifies this
      ensures Valid() && nextId == old(nextId) && hooks == old(hooks)
      ensures nodes == match old(nodes)[x].parent
                       case None => old(nodes)
                       case Some(q) => MoveToBottomState(old(nodes), q, x)
    {
      var q := nodes[x].parent;
      if q.Some? {
        MoveToBottom(q.value, Some(x));
      }
    }

    /** The destructor: reset the parent link without `setParent` (so no hook), then `removeChildren()`. */
    method Destroy(x: Id)
      requires Valid() && x in nodes
      modifies this
      ensures Valid() && nextId == old(nextId)
      ensures nodes == DestroyState(old(nodes), x)
      ensures hooks == old(hooks)
    {
      nodes := nodes[x := nodes[x].(parent := None)];
      RemoveChildren(x);
    }

    /** `deepSetup()`: `setup()` on this node, then `deepSetup()` on each child from front to back. */
    method DeepSetup(x: Id, ghost rank: map<Id, nat>)
      requires Valid() && Ranked(nodes, rank) && x in rank
      modifies this
      ensures nodes == old(nodes) && nextId == old(nextId)
      ensures hooks == old(hooks) + SetupCalls(PreOrder(nodes, rank, x))
      decreases rank[x], 1
    {
      hooks := hooks + [Setup(x)];
      DeepSetupChildren(x, rank);
      ChildWalksAll(nodes, rank, x);
      SetupCallsCons(old(hooks), x, ChildWalks(nodes, rank, x, |nodes[x].children|));
    }

    /** The loop of `deepSetup()` over the children. */
    method DeepSetupChildren(x: Id, ghost rank: map<Id, nat>)
      requires Valid() && Ranked(nodes, rank) && x in rank
      modifies this
      ensures nodes == old(nodes) && nextId == old(nextId)
      ensures hooks == old(hooks) + SetupCalls(ChildWalks(nodes, rank, x, |nodes[x].children|))
      decreases rank[x], 0
    {
      ChildWalksAll(nodes, rank, x);
      var cs := nodes[x].children;
      var i := 0;
      while i < |cs|
        invariant i <= |cs|
        invariant nodes == old(nodes) && nextId == old(nextId)
        invariant hooks == old(hooks) + SetupCalls(ChildWalks(nodes, rank, x, i))
      {
        ghost var before := ChildWalks(nodes, rank, x, i);
        ghost var walk := PreOrder(nodes, rank, cs[i]);
        ChildRanked(nodes, rank, x, i);
        DeepSetup(cs[i], rank);
        ChildWalksSteps(nodes, rank, x, i);
        SetupCallsAppend(old(hooks), before, walk);
        i := i + 1;
      }
    }

    /** `deepUpdate(elapsed)`: `update(elapsed)` on this node, then `deepUpdate(elapsed)` on each child from front to back. */
    method DeepUpdate(x: Id, elapsed: real, ghost rank: map<Id, nat>)
      requires Valid() && Ranked(nodes, rank) && x in rank
      modifies this
      ensures nodes == old(nodes) && nextId == old(nextId)
      ensures hooks == old(hooks) + UpdateCalls(PreOrder(nodes, rank, x), elapsed)
      decreases rank[x], 1
    {
      hooks := hooks + [Update(x, elapsed)];
      DeepUpdateChildren(x, elapsed, rank);
      ChildWalksAll(nodes, rank, x);
      UpdateCallsCons(old(hooks), x, ChildWalks(nodes, rank, x, |nodes[x].children|), elapsed);
    }

    /** The loop of `deepUpdate(elapsed)` over the children. */
    method DeepUpdateChildren(x: Id, elapsed: real, ghost rank: map<Id, nat>)
      requires Valid() && Ranked(nodes, rank) && x in rank
      modifies this
      ensures nodes == old(nodes) && nextId == old(nextId)
      ensures hooks == old(hooks) + UpdateCalls(ChildWalks(nodes, rank, x, |nodes[x].children|), elapsed)
      decreases rank[x], 0
    {
      ChildWalksAll(nodes, rank, x);
      var cs := nodes[x].children;
      var i := 0;
      while i < |cs|
        invariant i <= |cs|
        invariant nodes == old(nodes) && nextId == old(nextId)
        invariant hooks == old(hooks) + UpdateCalls(ChildWalks(nodes, rank, x, i), elapsed)
      {
        ghost var before := ChildWalks(nodes, rank, x, i);
        ghost var walk := PreOrder(nodes, rank, cs[i]);
        ChildRanked(nodes, rank, x, i);
        DeepUpdate(cs[i], elapsed, rank);
        ChildWalksSteps(nodes, rank, x, i);
        UpdateCallsAppend(old(hooks), before, walk, elapsed);
        i := i + 1;
      }
    }
  }
}
