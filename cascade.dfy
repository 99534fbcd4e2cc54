/**
 * What `deepTransform(world)` writes, for either node dimension.
 *
 * `Node2d::deepTransform` and `Node3d::deepTransform` have the same shape:
 * refresh the node's own cached local matrix (`transform()`), set its world
 * matrix to the given one times that local matrix, then call
 * `deepTransform` on every child, front to back, with the new world
 * matrix. Here a node's cached state is an `F`; `step(fr, w)` is the state
 * after `transform()` and the world assignment under the parent world `w`,
 * and `world(fr)` reads the world matrix back. `Visits` is the map of new
 * states, later writes winning over earlier ones as they do in the loop.
 */
module Cascade {
  import opened Wrappers
  import opened Forest
  import opened TreeOps

  /** Every node of the subtree below `x` has a state: each child is cast to the node class and dereferenced. */
  ghost predicate Framed<F(!new)>(f: Nodes, rank: map<Id, nat>, fs: map<Id, F>, x: Id)
    requires Closed(f) && Ranked(f, rank) && x in rank
    decreases rank[x]
  {
    x in fs && forall c :: c in f[x].children ==> Framed(f, rank, fs, c)
  }

  /** A step that settles: refreshing an already refreshed state and giving it a new world is the same as doing so once. */
  ghost predicate Settles<F(!new), M(!new)>(step: (F, M) -> F) {
    forall a, m1, m2 :: step(step(a, m1), m2) == step(a, m2)
  }

  /** The new states of the subtree of `x` under the parent world `w`. */
  ghost function Visits<F(!new), M(!new)>(f: Nodes, rank: map<Id, nat>, fs: map<Id, F>, x: Id, w: M,
                              step: (F, M) -> F, world: F -> M): map<Id, F>
    requires Closed(f) && Ranked(f, rank) && x in rank && Framed(f, rank, fs, x)
    decreases rank[x], 1
  {
    var v := step(fs[x], w);
    map[x := v] + VisitsAll(f, rank, fs, f[x].children, rank[x], world(v), step, world)
  }

  /** The new states of the subtrees of `cs`, visited front to back under the same parent world. */
  ghost function VisitsAll<F(!new), M(!new)>(f: Nodes, rank: map<Id, nat>, fs: map<Id, F>, cs: seq<Id>, bound: nat, w: M,
                                 step: (F, M) -> F, world: F -> M): map<Id, F>
    requires Closed(f) && Ranked(f, rank)
    requires forall c :: c in cs ==> c in rank && rank[c] < bound && Framed(f, rank, fs, c)
    decreases bound, 0, |cs|
  {
    if cs == [] then map[]
    else VisitsAll(f, rank, fs, cs[..|cs| - 1], bound, w, step, world) + Visits(f, rank, fs, cs[|cs| - 1], w, step, world)
  }

  /** The children of `x` meet the preconditions of `VisitsAll`. */
  lemma FramedChildren<F(!new)>(f: Nodes, rank: map<Id, nat>, fs: map<Id, F>, x: Id)
    requires Closed(f) && Ranked(f, rank) && x in rank && Framed(f, rank, fs, x)
    ensures forall c :: c in f[x].children ==> c in f && c in rank && rank[c] < rank[x] && Framed(f, rank, fs, c)
  {
  }

  /** One more child: the visits of `cs[..i + 1]` are those of `cs[..i]` followed by those of `cs[i]`. */
  lemma VisitsAllSnoc<F(!new), M(!new)>(f: Nodes, rank: map<Id, nat>, fs: map<Id, F>, cs: seq<Id>, bound: nat, w: M,
                                        step: (F, M) -> F, world: F -> M, i: nat)
    requires Closed(f) && Ranked(f, rank) && i < |cs|
    requires forall c :: c in cs ==> c in rank && rank[c] < bound && Framed(f, rank, fs, c)
    ensures VisitsAll(f, rank, fs, cs[..i + 1], bound, w, step, world)
         == VisitsAll(f, rank, fs, cs[..i], bound, w, step, world) + Visits(f, rank, fs, cs[i], w, step, world)
  {
    assert cs[..i + 1][..i] == cs[..i];
  }

  /** Writing the visited start first and then the visits of its children is writing the visits of its subtree. */
  lemma VisitThenChildren<F(!new), M(!new)>(f: Nodes, rank: map<Id, nat>, fs: map<Id, F>, x: Id, w: M,
                                            step: (F, M) -> F, world: F -> M)
    requires Closed(f) && Ranked(f, rank) && x in rank && Framed(f, rank, fs, x)
    ensures (var v := step(fs[x], w);
             fs[x := v] + VisitsAll(f, rank, fs, f[x].children, rank[x], world(v), step, world)
             == fs + Visits(f, rank, fs, x, w, step, world))
  {
    var v := step(fs[x], w);
    var rest := VisitsAll(f, rank, fs, f[x].children, rank[x], world(v), step, world);
    assert fs[x := v] == fs + map[x := v];
    UnionAssoc(fs, map[x := v], rest);
  }

  /** A visit from `c` writes nothing at a rank above `c`'s. */
  lemma VisitsStayBelow<F(!new), M(!new)>(f: Nodes, rank: map<Id, nat>, fs: map<Id, F>, c: Id, w: M,
                                          step: (F, M) -> F, world: F -> M, x: Id)
    requires Closed(f) && Ranked(f, rank) && c in rank && Framed(f, rank, fs, c)
    requires x in rank && rank[c] < rank[x]
    ensures x !in Visits(f, rank, fs, c, w, step, world)
  {
    if x in Visits(f, rank, fs, c, w, step, world) {
      VisitsRanks(f, rank, fs, c, w, step, world, x);
    }
  }

  // ---------------------------------------------------------------------
  // Which nodes are written
  // ---------------------------------------------------------------------

  /** `deepTransform` writes exactly the nodes of the pre-order walk from `x`. */
  lemma {:induction false} VisitsKeys<F(!new), M(!new)>(f: Nodes, rank: map<Id, nat>, fs: map<Id, F>, x: Id, w: M,
                                            step: (F, M) -> F, world: F -> M, y: Id)
    requires Closed(f) && Ranked(f, rank) && x in rank && Framed(f, rank, fs, x)
    ensures y in Visits(f, rank, fs, x, w, step, world) <==> y in PreOrder(f, rank, x)
    decreases rank[x], 1
  {
    var v := step(fs[x], w);
    VisitsAllKeys(f, rank, fs, f[x].children, rank[x], world(v), step, world, y);
  }

  lemma {:induction false} VisitsAllKeys<F(!new), M(!new)>(f: Nodes, rank: map<Id, nat>, fs: map<Id, F>, cs: seq<Id>, bound: nat, w: M,
                                               step: (F, M) -> F, world: F -> M, y: Id)
    requires Closed(f) && Ranked(f, rank)
    requires forall c :: c in cs ==> c in rank && rank[c] < bound && Framed(f, rank, fs, c)
    ensures y in VisitsAll(f, rank, fs, cs, bound, w, step, world) <==> y in PreOrderAll(f, rank, cs, bound)
    decreases bound, 0, |cs|
  {
    if cs != [] {
      VisitsAllKeys(f, rank, fs, cs[..|cs| - 1], bound, w, step, world, y);
      VisitsKeys(f, rank, fs, cs[|cs| - 1], w, step, world, y);
    }
  }

  /** The nodes written are exactly the subtree of `x`: `x` and every node below it. */
  lemma VisitsSubtree<F(!new), M(!new)>(f: Nodes, rank: map<Id, nat>, fs: map<Id, F>, x: Id, w: M,
                            step: (F, M) -> F, world: F -> M, y: Id)
    requires Closed(f) && Ranked(f, rank) && x in rank && Framed(f, rank, fs, x)
    ensures y in Visits(f, rank, fs, x, w, step, world) <==> Descends(f, x, y)
  {
    VisitsKeys(f, rank, fs, x, w, step, world, y);
    PreOrderCoversSubtree(f, rank, x, y);
  }

  /** Every node written lies in the graph and has an old state, at a rank no higher than the start's. */
  lemma {:induction false} VisitsRanks<F(!new), M(!new)>(f: Nodes, rank: map<Id, nat>, fs: map<Id, F>, x: Id, w: M,
                                             step: (F, M) -> F, world: F -> M, y: Id)
    requires Closed(f) && Ranked(f, rank) && x in rank && Framed(f, rank, fs, x)
    requires y in Visits(f, rank, fs, x, w, step, world)
    ensures y in f && y in fs && y in rank && rank[y] <= rank[x] && (y != x ==> rank[y] < rank[x])
    decreases rank[x], 1
  {
    if y != x {
      var v := step(fs[x], w);
      VisitsAllRanks(f, rank, fs, f[x].children, rank[x], world(v), step, world, y);
    }
  }

  lemma {:induction false} VisitsAllRanks<F(!new), M(!new)>(f: Nodes, rank: map<Id, nat>, fs: map<Id, F>, cs: seq<Id>, bound: nat, w: M,
                                                step: (F, M) -> F, world: F -> M, y: Id)
    requires Closed(f) && Ranked(f, rank)
    requires forall c :: c in cs ==> c in rank && rank[c] < bound && Framed(f, rank, fs, c)
    requires y in VisitsAll(f, rank, fs, cs, bound, w, step, world)
    ensures y in f && y in fs && y in rank && rank[y] < bound
    decreases bound, 0, |cs|
  {
    var last := cs[|cs| - 1];
    if y in Visits(f, rank, fs, last, w, step, world) {
      VisitsRanks(f, rank, fs, last, w, step, world, y);
    } else {
      VisitsAllRanks(f, rank, fs, cs[..|cs| - 1], bound, w, step, world, y);
    }
  }

  // ---------------------------------------------------------------------
  // What each written node holds
  // ---------------------------------------------------------------------

  /**
   * In the written map `vs`, node `y` holds the step of its old state under
   * the world of its parent: the world `w` when the parent is `q`, else the
   * world its parent holds in `vs`.
   */
  ghost predicate FollowsParent<F(!new), M(!new)>(f: Nodes, fs: map<Id, F>, vs: map<Id, F>, y: Id, q: Id, w: M,
                                                  step: (F, M) -> F, world: F -> M)
    requires y in vs
  {
    y in f && y in fs && f[y].parent.Some? &&
    ((f[y].parent.value == q && vs[y] == step(fs[y], w)) ||
     (f[y].parent.value in vs && vs[y] == step(fs[y], world(vs[f[y].parent.value]))))
  }

  /**
   * With consistent links every node of the subtree gets the step of its
   * own old state: `x` under the given world, every other node under the
   * world its parent ends up with.
   */
  lemma {:induction false} VisitsFollowParents<F(!new), M(!new)>(f: Nodes, rank: map<Id, nat>, fs: map<Id, F>, x: Id, w: M,
                                                     step: (F, M) -> F, world: F -> M, y: Id)
    requires Linked(f) && Ranked(f, rank) && x in rank && Framed(f, rank, fs, x)
    requires y in Visits(f, rank, fs, x, w, step, world)
    ensures var vs := Visits(f, rank, fs, x, w, step, world);
            (y == x ==> y in fs && vs[y] == step(fs[y], w)) &&
            (y != x ==> FollowsParent(f, fs, vs, y, x, world(vs[x]), step, world) &&
                        vs[y] == step(fs[y], world(vs[f[y].parent.value])))
    decreases rank[x], 1
  {
    var v := step(fs[x], w);
    var cs := f[x].children;
    var rest := VisitsAll(f, rank, fs, cs, rank[x], world(v), step, world);
    if x in rest {
      VisitsAllRanks(f, rank, fs, cs, rank[x], world(v), step, world, x);
    }
    if y != x {
      assert cs[..|cs|] == cs;
      ChildrenFollowParents(f, rank, fs, x, |cs|, world(v), step, world, y);
    }
  }

  /** The same for the subtrees of the first `k` children of `q` under the world `w` of `q`. */
  lemma {:induction false} ChildrenFollowParents<F(!new), M(!new)>(f: Nodes, rank: map<Id, nat>, fs: map<Id, F>, q: Id, k: nat, w: M,
                                                       step: (F, M) -> F, world: F -> M, y: Id)
    requires Linked(f) && Ranked(f, rank) && q in rank && Framed(f, rank, fs, q) && k <= |f[q].children|
    requires y in VisitsAll(f, rank, fs, f[q].children[..k], rank[q], w, step, world)
    ensures FollowsParent(f, fs, VisitsAll(f, rank, fs, f[q].children[..k], rank[q], w, step, world), y, q, w, step, world)
    decreases rank[q], 0, k
  {
    var cs := f[q].children[..k];
    var init := cs[..k - 1];
    var c := cs[k - 1];
    assert init == f[q].children[..k - 1];
    assert c in f[q].children;
    var a := VisitsAll(f, rank, fs, init, rank[q], w, step, world);
    var b := Visits(f, rank, fs, c, w, step, world);
    assert VisitsAll(f, rank, fs, cs, rank[q], w, step, world) == a + b;
    if y in b {
      LastChildFollows(f, rank, fs, q, c, w, step, world, a, y);
    } else {
      ChildrenFollowParents(f, rank, fs, q, k - 1, w, step, world, y);
      EarlierChildFollows(f, rank, fs, q, c, w, step, world, a, y);
    }
  }

  /** A node below the last child visited keeps what that child's visit wrote for it and for its parent. */
  lemma {:induction false} LastChildFollows<F(!new), M(!new)>(f: Nodes, rank: map<Id, nat>, fs: map<Id, F>, q: Id, c: Id, w: M,
                                           step: (F, M) -> F, world: F -> M, a: map<Id, F>, y: Id)
    requires Linked(f) && Ranked(f, rank) && q in rank && c in f[q].children && c in rank && Framed(f, rank, fs, c)
    requires y in Visits(f, rank, fs, c, w, step, world)
    ensures FollowsParent(f, fs, a + Visits(f, rank, fs, c, w, step, world), y, q, w, step, world)
    decreases rank[c], 2
  {
    var b := Visits(f, rank, fs, c, w, step, world);
    VisitsFollowParents(f, rank, fs, c, w, step, world, y);
    VisitsRanks(f, rank, fs, c, w, step, world, y);
    if y == c {
      ParentOfChild(f, q, c);
    } else {
      assert (a + b)[f[y].parent.value] == b[f[y].parent.value];
    }
  }

  /** A node written before the last child's visit, and not by it, keeps its entry, and so does its parent. */
  lemma EarlierChildFollows<F(!new), M(!new)>(f: Nodes, rank: map<Id, nat>, fs: map<Id, F>, q: Id, c: Id, w: M,
                                              step: (F, M) -> F, world: F -> M, a: map<Id, F>, y: Id)
    requires Linked(f) && Ranked(f, rank) && c in rank && Framed(f, rank, fs, c)
    requires y in a && y !in Visits(f, rank, fs, c, w, step, world)
    requires FollowsParent(f, fs, a, y, q, w, step, world)
    ensures FollowsParent(f, fs, a + Visits(f, rank, fs, c, w, step, world), y, q, w, step, world)
  {
    var b := Visits(f, rank, fs, c, w, step, world);
    var p := f[y].parent.value;
    if p in b {
      ChildOfVisited(f, rank, fs, c, w, step, world, p, y);
    }
  }

  /** The nodes written are closed under taking children. */
  lemma ChildOfVisited<F(!new), M(!new)>(f: Nodes, rank: map<Id, nat>, fs: map<Id, F>, x: Id, w: M,
                             step: (F, M) -> F, world: F -> M, p: Id, y: Id)
    requires Linked(f) && Ranked(f, rank) && x in rank && Framed(f, rank, fs, x)
    requires p in Visits(f, rank, fs, x, w, step, world) && y in f && f[y].parent == Some(p)
    ensures y in Visits(f, rank, fs, x, w, step, world)
  {
    VisitsSubtree(f, rank, fs, x, w, step, world, p);
    VisitsSubtree(f, rank, fs, x, w, step, world, y);
    DescendsExtend(f, x, p, y);
  }

  // ---------------------------------------------------------------------
  // Visiting from states that were already visited
  // ---------------------------------------------------------------------

  /** Two state maps that every step treats alike on the keys of the first. */
  ghost predicate Agree<F(!new), M(!new)>(fs: map<Id, F>, gs: map<Id, F>, step: (F, M) -> F) {
    forall k :: k in fs ==> k in gs && forall m :: step(gs[k], m) == step(fs[k], m)
  }

  /** States that agree give the same visits, so a node visited again ends as if visited once. */
  lemma {:induction false} VisitsAgree<F(!new), M(!new)>(f: Nodes, rank: map<Id, nat>, fs: map<Id, F>, gs: map<Id, F>, x: Id, w: M,
                                             step: (F, M) -> F, world: F -> M)
    requires Closed(f) && Ranked(f, rank) && x in rank && Framed(f, rank, fs, x) && Agree(fs, gs, step)
    ensures Framed(f, rank, gs, x)
    ensures Visits(f, rank, gs, x, w, step, world) == Visits(f, rank, fs, x, w, step, world)
    decreases rank[x], 1
  {
    var v := step(fs[x], w);
    VisitsAllAgree(f, rank, fs, gs, f[x].children, rank[x], world(v), step, world);
  }

  lemma {:induction false} VisitsAllAgree<F(!new), M(!new)>(f: Nodes, rank: map<Id, nat>, fs: map<Id, F>, gs: map<Id, F>, cs: seq<Id>, bound: nat, w: M,
                                                step: (F, M) -> F, world: F -> M)
    requires Closed(f) && Ranked(f, rank) && Agree(fs, gs, step)
    requires forall c :: c in cs ==> c in rank && rank[c] < bound && Framed(f, rank, fs, c)
    ensures forall c :: c in cs ==> Framed(f, rank, gs, c)
    ensures VisitsAll(f, rank, gs, cs, bound, w, step, world) == VisitsAll(f, rank, fs, cs, bound, w, step, world)
    decreases bound, 0, |cs|
  {
    if cs != [] {
      VisitsAllAgree(f, rank, fs, gs, cs[..|cs| - 1], bound, w, step, world);
      VisitsAgree(f, rank, fs, gs, cs[|cs| - 1], w, step, world);
      forall c | c in cs
        ensures Framed(f, rank, gs, c)
      {
        if c != cs[|cs| - 1] {
          assert c in cs[..|cs| - 1];
        }
      }
    }
  }

  /** Writing the visits of old states over a map that agrees with them keeps it in agreement, when steps settle. */
  lemma {:induction false} AgreeAfterVisits<F(!new), M(!new)>(f: Nodes, rank: map<Id, nat>, fs: map<Id, F>, gs: map<Id, F>, x: Id, w: M,
                                                  step: (F, M) -> F, world: F -> M)
    requires Closed(f) && Ranked(f, rank) && x in rank && Framed(f, rank, fs, x)
    requires Settles(step) && Agree(fs, gs, step)
    ensures Agree(fs, gs + Visits(f, rank, fs, x, w, step, world), step)
    decreases rank[x], 1
  {
    var v := step(fs[x], w);
    var g1 := gs[x := v];
    forall k | k in fs
      ensures k in g1 && forall m :: step(g1[k], m) == step(fs[k], m)
    {
      if k == x {
        forall m
          ensures step(g1[k], m) == step(fs[k], m)
        {
          assert step(step(fs[x], w), m) == step(fs[x], m);
        }
      }
    }
    var rest := VisitsAll(f, rank, fs, f[x].children, rank[x], world(v), step, world);
    AgreeAfterVisitsAll(f, rank, fs, g1, f[x].children, rank[x], world(v), step, world);
    UnionAssoc(gs, map[x := v], rest);
  }

  lemma {:induction false} AgreeAfterVisitsAll<F(!new), M(!new)>(f: Nodes, rank: map<Id, nat>, fs: map<Id, F>, gs: map<Id, F>, cs: seq<Id>, bound: nat, w: M,
                                                     step: (F, M) -> F, world: F -> M)
    requires Closed(f) && Ranked(f, rank) && Settles(step) && Agree(fs, gs, step)
    requires forall c :: c in cs ==> c in rank && rank[c] < bound && Framed(f, rank, fs, c)
    ensures Agree(fs, gs + VisitsAll(f, rank, fs, cs, bound, w, step, world), step)
    decreases bound, 0, |cs|
  {
    if cs == [] {
      assert gs + map[] == gs;
    } else {
      var a := VisitsAll(f, rank, fs, cs[..|cs| - 1], bound, w, step, world);
      var b := Visits(f, rank, fs, cs[|cs| - 1], w, step, world);
      AgreeAfterVisitsAll(f, rank, fs, gs, cs[..|cs| - 1], bound, w, step, world);
      AgreeAfterVisits(f, rank, fs, gs + a, cs[|cs| - 1], w, step, world);
      UnionAssoc(gs, a, b);
    }
  }

  /**
   * Where the loop over the children of `x` stands after `i` children: `now`
   * is `start` with the visits of the first `i` children written over it
   * (under the parent world `w`), it agrees with the old states, and `x`
   * itself is as it was.
   */
  ghost predicate Progress<F(!new), M(!new)>(f: Nodes, rank: map<Id, nat>, fs: map<Id, F>, x: Id, start: map<Id, F>,
                                             now: map<Id, F>, i: nat, w: M, step: (F, M) -> F, world: F -> M)
    requires Closed(f) && Ranked(f, rank) && x in rank && Framed(f, rank, fs, x)
  {
    FramedChildren(f, rank, fs, x);
    i <= |f[x].children| && Agree(fs, now, step) &&
    x in start && x in now && now[x] == start[x] &&
    now == start + VisitsAll(f, rank, fs, f[x].children[..i], rank[x], w, step, world)
  }

  /** Before the loop: no child visited yet. */
  lemma ProgressStart<F(!new), M(!new)>(f: Nodes, rank: map<Id, nat>, fs: map<Id, F>, x: Id, start: map<Id, F>,
                                        w: M, step: (F, M) -> F, world: F -> M)
    requires Closed(f) && Ranked(f, rank) && x in rank && Framed(f, rank, fs, x)
    requires x in start && Agree(fs, start, step)
    ensures Progress(f, rank, fs, x, start, start, 0, w, step, world)
  {
    assert start + map[] == start;
  }

  /** After the loop: every child visited. */
  lemma ProgressEnd<F(!new), M(!new)>(f: Nodes, rank: map<Id, nat>, fs: map<Id, F>, x: Id, start: map<Id, F>,
                                      now: map<Id, F>, w: M, step: (F, M) -> F, world: F -> M)
    requires Closed(f) && Ranked(f, rank) && x in rank && Framed(f, rank, fs, x)
    requires Progress(f, rank, fs, x, start, now, |f[x].children|, w, step, world)
    ensures now == start + VisitsAll(f, rank, fs, f[x].children, rank[x], w, step, world)
  {
    assert f[x].children[..|f[x].children|] == f[x].children;
  }

  /**
   * One turn of the loop: writing the visits of child `i` over the map
   * reached after `i` children reaches the map after `i + 1`.
   */
  lemma ChildStep<F(!new), M(!new)>(f: Nodes, rank: map<Id, nat>, fs: map<Id, F>, x: Id, start: map<Id, F>, before: map<Id, F>,
                                    i: nat, w: M, step: (F, M) -> F, world: F -> M)
    requires Closed(f) && Ranked(f, rank) && x in rank && Framed(f, rank, fs, x) && Settles(step)
    requires forall c :: c in f[x].children ==> c in f && rank[c] < rank[x] && Framed(f, rank, fs, c)
    requires i < |f[x].children| && Progress(f, rank, fs, x, start, before, i, w, step, world)
    ensures Progress(f, rank, fs, x, start, before + Visits(f, rank, fs, f[x].children[i], w, step, world), i + 1, w, step, world)
  {
    var cs := f[x].children;
    FramedChildren(f, rank, fs, x);
    AgreeAfterVisits(f, rank, fs, before, cs[i], w, step, world);
    VisitsAllSnoc(f, rank, fs, cs, rank[x], w, step, world, i);
    UnionAssoc(start, VisitsAll(f, rank, fs, cs[..i], rank[x], w, step, world), Visits(f, rank, fs, cs[i], w, step, world));
    VisitsStayBelow(f, rank, fs, cs[i], w, step, world, x);
  }

  /** Map union, later entries winning, is associative. */
  lemma UnionAssoc<F(!new)>(a: map<Id, F>, b: map<Id, F>, c: map<Id, F>)
    ensures (a + b) + c == a + (b + c)
  {
  }
}
