/**
 * `NodeBase::Iterator`: a walk over a subtree with an explicit container, a
 * stack for the depth-first mode and a queue for the breadth-first mode.
 *
 * The stack keeps its top at the back of the sequence; the queue keeps its
 * front at index 0. `DepthStep` and `BreadthStep` say what one `next()` does
 * to the container; `DepthWalk` and `Drained` are the orders the two modes
 * produce when the container is drained, and the lemmas relate both to the
 * pre-order walk of `Forest`: on a linked, ranked graph each node of the
 * subtree comes out exactly once.
 */
module Traversal {
  import opened Wrappers
  import opened Forest
  import opened SceneGraph

  // ---------------------------------------------------------------------
  // One step of next()
  // ---------------------------------------------------------------------

  /** Every entry of `s` is a node of `f` whose rank is under `bound`. */
  ghost predicate Below(f: Nodes, rank: map<Id, nat>, s: seq<Id>, bound: nat) {
    forall x :: x in s ==> x in f && x in rank && rank[x] < bound
  }

  /** Depth-first `next()`: pop the top, then push the children from front to back. */
  function DepthStep(f: Nodes, st: seq<Id>): (Option<Id>, seq<Id>)
    requires forall x :: x in st ==> x in f
  {
    if st == [] then (None, st)
    else
      var x := st[|st| - 1];
      (Some(x), st[..|st| - 1] + f[x].children)
  }

  /** Breadth-first `next()`: dequeue the front, then enqueue the children from front to back. */
  function BreadthStep(f: Nodes, q: seq<Id>): (Option<Id>, seq<Id>)
    requires forall x :: x in q ==> x in f
  {
    if q == [] then (None, q) else (Some(q[0]), q[1..] + f[q[0]].children)
  }

  // ---------------------------------------------------------------------
  // Depth-first order
  // ---------------------------------------------------------------------

  /** The nodes a stack still yields: the walk of its top entry, then the rest of the stack. */
  ghost function Pending(f: Nodes, rank: map<Id, nat>, st: seq<Id>, bound: nat): seq<Id>
    requires Ranked(f, rank) && Closed(f)
    requires Below(f, rank, st, bound)
    decreases bound, 0, |st|
  {
    if st == [] then []
    else DepthWalk(f, rank, st[|st| - 1]) + Pending(f, rank, st[..|st| - 1], bound)
  }

  /** The depth-first order from `x`: `x`, then the subtrees of its children from the last child to the first. */
  ghost function DepthWalk(f: Nodes, rank: map<Id, nat>, x: Id): seq<Id>
    requires Ranked(f, rank) && Closed(f) && x in rank
    decreases rank[x], 1
  {
    [x] + Pending(f, rank, f[x].children, rank[x])
  }

  lemma PendingLast(f: Nodes, rank: map<Id, nat>, st: seq<Id>, bound: nat)
    requires Ranked(f, rank) && Closed(f) && st != []
    requires Below(f, rank, st, bound)
    ensures st[|st| - 1] in f && Below(f, rank, st[..|st| - 1], bound)
    ensures Pending(f, rank, st, bound) == DepthWalk(f, rank, st[|st| - 1]) + Pending(f, rank, st[..|st| - 1], bound)
  {
    BelowInit(f, rank, st, bound);
  }

  /** A stack that holds only `x` yields the depth-first walk from `x`. */
  lemma PendingSingle(f: Nodes, rank: map<Id, nat>, x: Id, st: seq<Id>, bound: nat)
    requires Ranked(f, rank) && Closed(f) && x in rank
    requires st == [x] && rank[x] < bound
    ensures Below(f, rank, st, bound)
    ensures Pending(f, rank, st, bound) == DepthWalk(f, rank, x)
  {
    assert Below(f, rank, st, bound);
    assert st[..0] == [];
  }

  /** Only the entries matter, not the bound used to show termination. */
  lemma {:induction false} PendingBound(f: Nodes, rank: map<Id, nat>, st: seq<Id>, b1: nat, b2: nat)
    requires Ranked(f, rank) && Closed(f)
    requires Below(f, rank, st, b1) && Below(f, rank, st, b2)
    ensures Pending(f, rank, st, b1) == Pending(f, rank, st, b2)
    decreases |st|
  {
    if st != [] {
      PendingBound(f, rank, st[..|st| - 1], b1, b2);
    }
  }

  /** Pushing `b` on top of `a`: the entries of `b` come out first. */
  lemma {:induction false} PendingAppend(f: Nodes, rank: map<Id, nat>, a: seq<Id>, b: seq<Id>, bound: nat)
    requires Ranked(f, rank) && Closed(f)
    requires Below(f, rank, a, bound) && Below(f, rank, b, bound)
    ensures Below(f, rank, a + b, bound)
    ensures Pending(f, rank, a + b, bound) == Pending(f, rank, b, bound) + Pending(f, rank, a, bound)
    decreases |b|
  {
    JoinBelow(f, rank, a, b, bound);
    if b == [] {
      assert a + b == a;
    } else {
      var ab, init, last := a + b, b[..|b| - 1], b[|b| - 1];
      BelowInit(f, rank, b, bound);
      PendingAppend(f, rank, a, init, bound);
      InitOfAppend(a, b);
      PendingLast(f, rank, ab, bound);
      ConcatAssoc(DepthWalk(f, rank, last), Pending(f, rank, init, bound), Pending(f, rank, a, bound));
    }
  }

  /**
   * One depth-first `next()` yields the first node the stack still owes and
   * leaves a stack that owes the rest.
   */
  lemma DepthStepFollowsWalk(f: Nodes, rank: map<Id, nat>, st: seq<Id>, bound: nat)
    requires Ranked(f, rank) && Closed(f) && st != []
    requires Below(f, rank, st, bound)
    ensures DepthStep(f, st).0.Some?
    ensures Below(f, rank, DepthStep(f, st).1, bound)
    ensures Pending(f, rank, st, bound) == [DepthStep(f, st).0.value] + Pending(f, rank, DepthStep(f, st).1, bound)
  {
    var x, rest := st[|st| - 1], st[..|st| - 1];
    var cs := f[x].children;
    BelowInit(f, rank, st, bound);
    ChildrenBelow(f, rank, x);
    assert rank[x] < bound by {
      assert x in st;
    }
    BelowRaise(f, rank, cs, rank[x], bound);
    PendingAppend(f, rank, rest, cs, bound);
    PendingBound(f, rank, cs, rank[x], bound);
    assert DepthStep(f, st).1 == rest + cs;
    assert Pending(f, rank, st, bound) == DepthWalk(f, rank, x) + Pending(f, rank, rest, bound);
    ConcatAssoc([x], Pending(f, rank, cs, bound), Pending(f, rank, rest, bound));
  }

  /** The children of a node sit below it in rank. */
  lemma ChildrenBelow(f: Nodes, rank: map<Id, nat>, x: Id)
    requires Ranked(f, rank) && Closed(f) && x in rank
    ensures Below(f, rank, f[x].children, rank[x])
  {
  }

  /** The front of a queue under a bound: the rest of the queue and the front's children stay under it. */
  lemma FrontBelow(f: Nodes, rank: map<Id, nat>, q: seq<Id>, bound: nat)
    requires Ranked(f, rank) && Closed(f) && q != []
    requires Below(f, rank, q, bound)
    ensures q[0] in f && rank[q[0]] < bound && Below(f, rank, q[1..], bound)
    ensures Below(f, rank, f[q[0]].children, rank[q[0]]) && Below(f, rank, f[q[0]].children, bound)
  {
    BelowInit(f, rank, q, bound);
    assert q[0] in q;
    ChildrenBelow(f, rank, q[0]);
    BelowRaise(f, rank, f[q[0]].children, rank[q[0]], bound);
  }

  /** Two sequences under a bound make one under it. */
  lemma JoinBelow(f: Nodes, rank: map<Id, nat>, a: seq<Id>, b: seq<Id>, bound: nat)
    requires Below(f, rank, a, bound) && Below(f, rank, b, bound)
    ensures Below(f, rank, a + b, bound)
  {
  }

  /** All but the last entry, and all but the first, stay under the bound. */
  lemma BelowInit(f: Nodes, rank: map<Id, nat>, s: seq<Id>, bound: nat)
    requires Below(f, rank, s, bound) && s != []
    ensures s[|s| - 1] in f && s[0] in f
    ensures Below(f, rank, s[..|s| - 1], bound) && Below(f, rank, s[1..], bound)
  {
    assert s[|s| - 1] in s && s[0] in s;
    assert forall x :: x in s[..|s| - 1] ==> x in s;
    assert forall x :: x in s[1..] ==> x in s;
  }

  /** A looser bound keeps a sequence under it. */
  lemma BelowRaise(f: Nodes, rank: map<Id, nat>, s: seq<Id>, b1: nat, b2: nat)
    requires Below(f, rank, s, b1) && b1 <= b2
    ensures Below(f, rank, s, b2)
  {
  }

  /** Dropping the last entry of `a + b` drops the last entry of `b`. */
  lemma InitOfAppend(a: seq<Id>, b: seq<Id>)
    requires b != []
    ensures (a + b)[..|a + b| - 1] == a + b[..|b| - 1]
    ensures (a + b)[|a + b| - 1] == b[|b| - 1]
  {
  }

  lemma EmptyConcat(x: seq<Id>, y: seq<Id>)
    ensures x + [] == x && [] + y == y
  {
  }

  lemma ConcatAssoc(x: seq<Id>, y: seq<Id>, z: seq<Id>)
    ensures x + (y + z) == (x + y) + z
  {
  }

  // ---------------------------------------------------------------------
  // Breadth-first order
  // ---------------------------------------------------------------------

  /** The number of nodes in the subtree of `x`, counted with repetition. */
  ghost function Weight(f: Nodes, rank: map<Id, nat>, x: Id): nat
    requires Ranked(f, rank) && Closed(f) && x in rank
    decreases rank[x], 1
  {
    1 + WeightAll(f, rank, f[x].children, rank[x])
  }

  ghost function WeightAll(f: Nodes, rank: map<Id, nat>, q: seq<Id>, bound: nat): nat
    requires Ranked(f, rank) && Closed(f)
    requires Below(f, rank, q, bound)
    decreases bound, 0, |q|
  {
    if q == [] then 0 else WeightAll(f, rank, q[..|q| - 1], bound) + Weight(f, rank, q[|q| - 1])
  }

  lemma WeightAllLast(f: Nodes, rank: map<Id, nat>, q: seq<Id>, bound: nat)
    requires Ranked(f, rank) && Closed(f) && q != []
    requires Below(f, rank, q, bound)
    ensures q[|q| - 1] in f && Below(f, rank, q[..|q| - 1], bound)
    ensures WeightAll(f, rank, q, bound) == WeightAll(f, rank, q[..|q| - 1], bound) + Weight(f, rank, q[|q| - 1])
  {
    BelowInit(f, rank, q, bound);
  }

  lemma {:induction false} WeightAllBound(f: Nodes, rank: map<Id, nat>, q: seq<Id>, b1: nat, b2: nat)
    requires Ranked(f, rank) && Closed(f)
    requires Below(f, rank, q, b1) && Below(f, rank, q, b2)
    ensures WeightAll(f, rank, q, b1) == WeightAll(f, rank, q, b2)
    decreases |q|
  {
    if q != [] {
      WeightAllBound(f, rank, q[..|q| - 1], b1, b2);
    }
  }

  lemma {:induction false} WeightAllAppend(f: Nodes, rank: map<Id, nat>, a: seq<Id>, b: seq<Id>, bound: nat)
    requires Ranked(f, rank) && Closed(f)
    requires Below(f, rank, a, bound) && Below(f, rank, b, bound)
    ensures Below(f, rank, a + b, bound)
    ensures WeightAll(f, rank, a + b, bound) == WeightAll(f, rank, a, bound) + WeightAll(f, rank, b, bound)
    decreases |b|
  {
    JoinBelow(f, rank, a, b, bound);
    if b == [] {
      assert a + b == a;
    } else {
      var ab, init := a + b, b[..|b| - 1];
      BelowInit(f, rank, b, bound);
      WeightAllAppend(f, rank, a, init, bound);
      InitOfAppend(a, b);
      WeightAllLast(f, rank, ab, bound);
    }
  }

  /** A breadth-first step trades the front node for its children: the weight drops by one. */
  lemma BreadthStepWeight(f: Nodes, rank: map<Id, nat>, q: seq<Id>, bound: nat)
    requires Ranked(f, rank) && Closed(f) && q != []
    requires Below(f, rank, q, bound)
    ensures Below(f, rank, q[1..] + f[q[0]].children, bound)
    ensures WeightAll(f, rank, q[1..] + f[q[0]].children, bound) + 1 == WeightAll(f, rank, q, bound)
  {
    var x, tail := q[0], q[1..];
    var cs := f[x].children;
    FrontBelow(f, rank, q, bound);
    assert q == [x] + tail;
    WeightAllAppend(f, rank, [x], tail, bound);
    WeightAllAppend(f, rank, tail, cs, bound);
    WeightAllBound(f, rank, cs, rank[x], bound);
    WeightAllLast(f, rank, [x], bound);
    assert [x][..0] == [];
  }

  /** Every entry of `q` is a node of `f`. */
  ghost predicate Within(f: Nodes, q: seq<Id>) {
    forall x :: x in q ==> x in f
  }

  /**
   * What `steps` breadth-first `next()` calls yield from the queue `q`:
   * level by level, each level from left to right. With `WeightAll(q)`
   * steps the queue is drained.
   */
  ghost function Drained(f: Nodes, q: seq<Id>, steps: nat): seq<Id>
    requires Closed(f) && Within(f, q)
    decreases steps
  {
    if q == [] || steps == 0 then []
    else
      StepWithin(f, q);
      [q[0]] + Drained(f, BreadthStep(f, q).1, steps - 1)
  }

  /** A breadth-first step stays inside a closed graph. */
  lemma StepWithin(f: Nodes, q: seq<Id>)
    requires Closed(f) && Within(f, q) && q != []
    ensures Within(f, BreadthStep(f, q).1)
  {
    assert q[0] in q;
  }

  /** A queue under a bound stays inside the graph. */
  lemma BelowWithin(f: Nodes, rank: map<Id, nat>, q: seq<Id>, bound: nat)
    requires Below(f, rank, q, bound)
    ensures Within(f, q)
  {
  }

  /** With steps left, a non-empty queue yields its front, then the rest from the queue after one step. */
  lemma DrainedStep(f: Nodes, q: seq<Id>, steps: nat)
    requires Closed(f) && Within(f, q) && q != [] && steps > 0
    ensures Within(f, BreadthStep(f, q).1)
    ensures Drained(f, q, steps) == [q[0]] + Drained(f, BreadthStep(f, q).1, steps - 1)
  {
    StepWithin(f, q);
  }

  /** Draining a non-empty queue: its front, then the drained queue after one step. */
  lemma DrainedFront(f: Nodes, rank: map<Id, nat>, q: seq<Id>, bound: nat)
    requires Ranked(f, rank) && Closed(f) && q != []
    requires Below(f, rank, q, bound)
    ensures Below(f, rank, BreadthStep(f, q).1, bound)
    ensures Within(f, q)
    ensures Drained(f, q, WeightAll(f, rank, q, bound)) ==
            [q[0]] + Drained(f, BreadthStep(f, q).1, WeightAll(f, rank, BreadthStep(f, q).1, bound))
  {
    var next := BreadthStep(f, q).1;
    assert next == q[1..] + f[q[0]].children;
    BreadthStepWeight(f, rank, q, bound);
    var n := WeightAll(f, rank, q, bound);
    assert n - 1 == WeightAll(f, rank, next, bound);
    BelowWithin(f, rank, q, bound);
    DrainedStep(f, q, n);
  }

  // ---------------------------------------------------------------------
  // Breadth-first order is level order
  // ---------------------------------------------------------------------

  /** The next level below a queue: the children of its entries, each node's children front to back, in queue order. */
  function Kids(f: Nodes, q: seq<Id>): (r: seq<Id>)
    requires Within(f, q)
    ensures Closed(f) ==> Within(f, r)
  {
    if q == [] then []
    else
      assert Within(f, q[1..]) by { assert forall x :: x in q[1..] ==> x in q; }
      f[q[0]].children + Kids(f, q[1..])
  }

  /** Level order: the queue itself, then the level below it, and so on. */
  ghost function LevelOrder(f: Nodes, rank: map<Id, nat>, q: seq<Id>, bound: nat): seq<Id>
    requires Ranked(f, rank) && Closed(f) && Below(f, rank, q, bound)
    decreases bound
  {
    if q == [] then []
    else
      KidsBelow(f, rank, q, bound);
      q + LevelOrder(f, rank, Kids(f, q), bound - 1)
  }

  /** The next level lies one rank lower. */
  lemma {:induction false} KidsBelow(f: Nodes, rank: map<Id, nat>, q: seq<Id>, bound: nat)
    requires Ranked(f, rank) && Closed(f) && Below(f, rank, q, bound)
    ensures Within(f, q)
    ensures q != [] ==> bound > 0 && Below(f, rank, Kids(f, q), bound - 1)
    decreases |q|
  {
    if q != [] {
      FrontBelow(f, rank, q, bound);
      KidsBelow(f, rank, q[1..], bound);
      assert Within(f, q[1..]);
      forall c | c in Kids(f, q)
        ensures c in f && c in rank && rank[c] < bound - 1
      {
        if c !in f[q[0]].children {
          assert c in Kids(f, q[1..]);
        }
      }
    }
  }

  /**
   * `|a|` breadth-first steps on the queue `a + b` yield `a` and leave `b`
   * followed by the children of the entries of `a`.
   */
  lemma {:induction false} DrainedPrefix(f: Nodes, a: seq<Id>, b: seq<Id>, steps: nat)
    requires Closed(f) && Within(f, a) && Within(f, b) && |a| <= steps
    ensures Within(f, a + b) && Within(f, b + Kids(f, a))
    ensures Drained(f, a + b, steps) == a + Drained(f, b + Kids(f, a), steps - |a|)
    decreases |a|
  {
    JoinWithin(f, a, b);
    JoinWithin(f, b, Kids(f, a));
    if a == [] {
      assert a + b == b && b + Kids(f, a) == b;
    } else {
      var rest, b' := a[1..], b + f[a[0]].children;
      FrontStep(f, a, b);
      DrainedStep(f, a + b, steps);
      DrainedPrefix(f, rest, b', steps - 1);
      ConcatAssoc(b, f[a[0]].children, Kids(f, rest));
      ConcatAssoc([a[0]], rest, Drained(f, b + Kids(f, a), steps - |a|));
    }
  }

  /** Two sequences inside the graph make one inside it. */
  lemma JoinWithin(f: Nodes, a: seq<Id>, b: seq<Id>)
    requires Within(f, a) && Within(f, b)
    ensures Within(f, a + b)
  {
  }

  /** One breadth-first step on `a + b` takes the front of `a` and appends its children behind `b`. */
  lemma FrontStep(f: Nodes, a: seq<Id>, b: seq<Id>)
    requires Closed(f) && Within(f, a) && Within(f, b) && a != []
    ensures Within(f, a + b) && Within(f, a[1..]) && Within(f, b + f[a[0]].children)
    ensures (a + b)[0] == a[0] && a == [a[0]] + a[1..]
    ensures BreadthStep(f, a + b).1 == a[1..] + (b + f[a[0]].children)
  {
    assert a[0] in a;
    assert (a + b)[1..] == a[1..] + b;
    assert forall x :: x in a[1..] ==> x in a;
  }

  /** A queue weighs its own length plus the weight of the level below it. */
  lemma {:induction false} WeightAllKids(f: Nodes, rank: map<Id, nat>, q: seq<Id>, bound: nat)
    requires Ranked(f, rank) && Closed(f) && Below(f, rank, q, bound)
    ensures Within(f, q) && Below(f, rank, Kids(f, q), bound)
    ensures WeightAll(f, rank, q, bound) == |q| + WeightAll(f, rank, Kids(f, q), bound)
    decreases |q|
  {
    KidsBelow(f, rank, q, bound);
    if q == [] {
    } else {
      var x, rest := q[0], q[1..];
      var cs := f[x].children;
      FrontBelow(f, rank, q, bound);
      BelowRaise(f, rank, Kids(f, q), bound - 1, bound);
      WeightAllKids(f, rank, rest, bound);
      var ks := Kids(f, rest);
      assert Below(f, rank, [x], bound);
      assert WeightAll(f, rank, q, bound) == WeightAll(f, rank, [x], bound) + WeightAll(f, rank, rest, bound) by {
        assert q == [x] + rest;
        WeightAllAppend(f, rank, [x], rest, bound);
      }
      assert WeightAll(f, rank, [x], bound) == 1 + WeightAll(f, rank, cs, bound) by {
        WeightAllLast(f, rank, [x], bound);
        assert [x][..0] == [];
        WeightAllBound(f, rank, cs, rank[x], bound);
      }
      assert WeightAll(f, rank, Kids(f, q), bound) == WeightAll(f, rank, cs, bound) + WeightAll(f, rank, ks, bound) by {
        assert Kids(f, q) == cs + ks;
        WeightAllAppend(f, rank, cs, ks, bound);
      }
    }
  }

  /**
   * Breadth-first iteration is level order: draining a queue yields the
   * queue, then the children of its entries (each node's children front to
   * back, in queue order), then their children, and so on.
   */
  lemma {:induction false} DrainedIsLevelOrder(f: Nodes, rank: map<Id, nat>, q: seq<Id>, bound: nat)
    requires Ranked(f, rank) && Closed(f) && Below(f, rank, q, bound)
    ensures Within(f, q)
    ensures Drained(f, q, WeightAll(f, rank, q, bound)) == LevelOrder(f, rank, q, bound)
    decreases bound
  {
    BelowWithin(f, rank, q, bound);
    if q != [] {
      var cs := Kids(f, q);
      DrainedFirstLevel(f, rank, q, bound);
      DrainedIsLevelOrder(f, rank, cs, bound - 1);
      assert LevelOrder(f, rank, q, bound) == q + LevelOrder(f, rank, cs, bound - 1);
    } else {
      assert Drained(f, q, WeightAll(f, rank, q, bound)) == [];
    }
  }

  /** Breadth-first iteration from the root alone is the level order from it. */
  lemma BreadthFirstIsLevelOrder(f: Nodes, rank: map<Id, nat>, x: Id)
    requires Ranked(f, rank) && Closed(f) && x in rank
    ensures Within(f, [x]) && Below(f, rank, [x], rank[x] + 1)
    ensures Drained(f, [x], Weight(f, rank, x)) == LevelOrder(f, rank, [x], rank[x] + 1)
  {
    var q, bound := [x], rank[x] + 1;
    assert Below(f, rank, q, bound);
    assert WeightAll(f, rank, q, bound) == Weight(f, rank, x) by {
      WeightAllSingle(f, rank, x, q, bound);
    }
    assert Drained(f, q, WeightAll(f, rank, q, bound)) == LevelOrder(f, rank, q, bound) by {
      DrainedIsLevelOrder(f, rank, q, bound);
    }
  }

  /** Draining a non-empty queue yields the queue, then what draining the level below it yields. */
  lemma DrainedFirstLevel(f: Nodes, rank: map<Id, nat>, q: seq<Id>, bound: nat)
    requires Ranked(f, rank) && Closed(f) && Below(f, rank, q, bound) && q != []
    ensures Within(f, q) && bound > 0 && Below(f, rank, Kids(f, q), bound - 1)
    ensures Drained(f, q, WeightAll(f, rank, q, bound)) ==
            q + Drained(f, Kids(f, q), WeightAll(f, rank, Kids(f, q), bound - 1))
  {
    var cs := Kids(f, q);
    KidsBelow(f, rank, q, bound);
    BelowRaise(f, rank, cs, bound - 1, bound);
    var n := WeightAll(f, rank, q, bound);
    WeightFirstLevel(f, rank, q, bound);
    DrainedPrefix(f, q, [], n);
    EmptyConcat(q, cs);
  }

  /** A non-empty queue weighs its length plus what the level below it weighs under the next lower bound. */
  lemma WeightFirstLevel(f: Nodes, rank: map<Id, nat>, q: seq<Id>, bound: nat)
    requires Ranked(f, rank) && Closed(f) && Below(f, rank, q, bound) && q != []
    ensures Within(f, q) && bound > 0 && Below(f, rank, Kids(f, q), bound - 1)
    ensures WeightAll(f, rank, q, bound) == |q| + WeightAll(f, rank, Kids(f, q), bound - 1)
  {
    var cs := Kids(f, q);
    KidsBelow(f, rank, q, bound);
    BelowRaise(f, rank, cs, bound - 1, bound);
    var w, w1, w2 := WeightAll(f, rank, q, bound), WeightAll(f, rank, cs, bound), WeightAll(f, rank, cs, bound - 1);
    assert w == |q| + w1 by {
      WeightAllKids(f, rank, q, bound);
    }
    assert w1 == w2 by {
      WeightAllBound(f, rank, cs, bound - 1, bound);
    }
  }

  // ---------------------------------------------------------------------
  // Both orders visit what the pre-order walk visits
  // ---------------------------------------------------------------------

  lemma {:induction false} PreOrderAllBound(f: Nodes, rank: map<Id, nat>, q: seq<Id>, b1: nat, b2: nat)
    requires Ranked(f, rank) && Closed(f)
    requires Below(f, rank, q, b1) && Below(f, rank, q, b2)
    ensures PreOrderAll(f, rank, q, b1) == PreOrderAll(f, rank, q, b2)
    decreases |q|
  {
    if q != [] {
      PreOrderAllBound(f, rank, q[..|q| - 1], b1, b2);
    }
  }

  lemma {:induction false} PreOrderAllAppend(f: Nodes, rank: map<Id, nat>, a: seq<Id>, b: seq<Id>, bound: nat)
    requires Ranked(f, rank) && Closed(f)
    requires Below(f, rank, a, bound) && Below(f, rank, b, bound)
    ensures Below(f, rank, a + b, bound)
    ensures PreOrderAll(f, rank, a + b, bound) == PreOrderAll(f, rank, a, bound) + PreOrderAll(f, rank, b, bound)
    decreases |b|
  {
    JoinBelow(f, rank, a, b, bound);
    if b == [] {
      assert a + b == a;
    } else {
      var ab, init, last := a + b, b[..|b| - 1], b[|b| - 1];
      BelowInit(f, rank, b, bound);
      PreOrderAllAppend(f, rank, a, init, bound);
      InitOfAppend(a, b);
      PreOrderAllLast(f, rank, ab, bound);
      ConcatAssoc(PreOrderAll(f, rank, a, bound), PreOrderAll(f, rank, init, bound), PreOrder(f, rank, last));
    }
  }

  lemma PreOrderAllLast(f: Nodes, rank: map<Id, nat>, q: seq<Id>, bound: nat)
    requires Ranked(f, rank) && Closed(f) && q != []
    requires Below(f, rank, q, bound)
    ensures q[|q| - 1] in f && Below(f, rank, q[..|q| - 1], bound)
    ensures PreOrderAll(f, rank, q, bound) == PreOrderAll(f, rank, q[..|q| - 1], bound) + PreOrder(f, rank, q[|q| - 1])
  {
    BelowInit(f, rank, q, bound);
  }

  /** The depth-first order holds the nodes of the pre-order walk, each as often. */
  lemma {:induction false} DepthWalkSameNodes(f: Nodes, rank: map<Id, nat>, x: Id)
    requires Ranked(f, rank) && Closed(f) && x in rank
    ensures multiset(DepthWalk(f, rank, x)) == multiset(PreOrder(f, rank, x))
    decreases rank[x], 1
  {
    PendingSameNodes(f, rank, f[x].children, rank[x]);
  }

  lemma {:induction false} PendingSameNodes(f: Nodes, rank: map<Id, nat>, st: seq<Id>, bound: nat)
    requires Ranked(f, rank) && Closed(f)
    requires Below(f, rank, st, bound)
    ensures multiset(Pending(f, rank, st, bound)) == multiset(PreOrderAll(f, rank, st, bound))
    decreases bound, 0, |st|
  {
    if st != [] {
      DepthWalkSameNodes(f, rank, st[|st| - 1]);
      PendingSameNodes(f, rank, st[..|st| - 1], bound);
    }
  }

  /** The breadth-first order holds the nodes of the pre-order walks of the queue, each as often. */
  lemma {:induction false} DrainedSameNodes(f: Nodes, rank: map<Id, nat>, q: seq<Id>, bound: nat)
    requires Ranked(f, rank) && Closed(f)
    requires Below(f, rank, q, bound)
    ensures Within(f, q)
    ensures multiset(Drained(f, q, WeightAll(f, rank, q, bound))) == multiset(PreOrderAll(f, rank, q, bound))
    decreases WeightAll(f, rank, q, bound)
  {
    BelowWithin(f, rank, q, bound);
    if q != [] {
      DrainedFront(f, rank, q, bound);
      BreadthStepWeight(f, rank, q, bound);
      DrainedSameNodes(f, rank, BreadthStep(f, q).1, bound);
      PreOrderAllStep(f, rank, q, bound);
    }
  }

  /** The pre-order walks of a queue hold its front and the walks of the queue after one breadth-first step. */
  lemma PreOrderAllStep(f: Nodes, rank: map<Id, nat>, q: seq<Id>, bound: nat)
    requires Ranked(f, rank) && Closed(f) && q != []
    requires Below(f, rank, q, bound)
    ensures Below(f, rank, BreadthStep(f, q).1, bound)
    ensures multiset(PreOrderAll(f, rank, q, bound)) ==
            multiset([q[0]] + PreOrderAll(f, rank, BreadthStep(f, q).1, bound))
  {
    PreOrderAllFront(f, rank, q, bound);
    PreOrderAllAppend(f, rank, q[1..], f[q[0]].children, bound);
  }

  /** The walks of a queue: its front, the walks of the front's children, then the walks of the rest. */
  lemma PreOrderAllFront(f: Nodes, rank: map<Id, nat>, q: seq<Id>, bound: nat)
    requires Ranked(f, rank) && Closed(f) && q != []
    requires Below(f, rank, q, bound)
    ensures q[0] in f && Below(f, rank, q[1..], bound) && Below(f, rank, f[q[0]].children, bound)
    ensures PreOrderAll(f, rank, q, bound) ==
            ([q[0]] + PreOrderAll(f, rank, f[q[0]].children, bound)) + PreOrderAll(f, rank, q[1..], bound)
  {
    var x, tail := q[0], q[1..];
    FrontBelow(f, rank, q, bound);
    PreOrderAllSingle(f, rank, x, bound);
    PreOrderAllAppend(f, rank, [x], tail, bound);
    assert q == [x] + tail;
    var front := PreOrderAll(f, rank, [x], bound);
    assert front == [x] + PreOrderAll(f, rank, f[x].children, bound);
    assert PreOrderAll(f, rank, q, bound) == front + PreOrderAll(f, rank, tail, bound);
  }

  /** A queue of one node yields that node's walk. */
  lemma PreOrderAllSingle(f: Nodes, rank: map<Id, nat>, x: Id, bound: nat)
    requires Ranked(f, rank) && Closed(f) && x in rank && rank[x] < bound
    ensures Below(f, rank, [x], bound) && Below(f, rank, f[x].children, bound)
    ensures PreOrderAll(f, rank, [x], bound) == PreOrder(f, rank, x)
    ensures PreOrder(f, rank, x) == [x] + PreOrderAll(f, rank, f[x].children, bound)
  {
    assert [x][..0] == [];
    assert Below(f, rank, [x], bound);
    ChildrenBelow(f, rank, x);
    BelowRaise(f, rank, f[x].children, rank[x], bound);
    PreOrderAllBound(f, rank, f[x].children, rank[x], bound);
  }

  /** Without duplicates, a sequence holds each of its elements exactly once. */
  lemma {:induction false} NoDupCount(s: seq<Id>, y: Id)
    requires NoDup(s)
    ensures multiset(s)[y] == if y in s then 1 else 0
    decreases |s|
  {
    if s != [] {
      var init := s[..|s| - 1];
      assert s == init + [s[|s| - 1]];
      assert NoDup(init);
      NoDupCount(init, y);
      assert s[|s| - 1] !in init;
    }
  }

  /** On a linked, ranked graph the pre-order walk from `x` holds each node of the subtree exactly once and nothing else. */
  lemma PreOrderCounts(f: Nodes, rank: map<Id, nat>, x: Id, y: Id)
    requires Linked(f) && Ranked(f, rank) && x in rank
    ensures multiset(PreOrder(f, rank, x))[y] == if Descends(f, x, y) then 1 else 0
  {
    PreOrderNoDup(f, rank, x);
    PreOrderCoversSubtree(f, rank, x, y);
    NoDupCount(PreOrder(f, rank, x), y);
  }

  /** Depth-first iteration from `x` yields each node of the subtree exactly once and nothing else. */
  lemma DepthWalkVisitsOnce(f: Nodes, rank: map<Id, nat>, x: Id, y: Id)
    requires Linked(f) && Ranked(f, rank) && x in rank
    ensures multiset(DepthWalk(f, rank, x))[y] == if Descends(f, x, y) then 1 else 0
  {
    DepthWalkSameNodes(f, rank, x);
    PreOrderCounts(f, rank, x, y);
  }

  /** Breadth-first iteration from the queue `[x]` yields each node of the subtree exactly once and nothing else. */
  lemma DrainedVisitsOnce(f: Nodes, rank: map<Id, nat>, x: Id, q: seq<Id>, y: Id)
    requires Linked(f) && Ranked(f, rank) && x in rank && q == [x]
    ensures multiset(Drained(f, q, Weight(f, rank, x)))[y] == if Descends(f, x, y) then 1 else 0
  {
    DrainedFromRoot(f, rank, x, q);
    PreOrderCounts(f, rank, x, y);
  }

  /** From a single root, the breadth-first and the pre-order walks hold the same nodes. */
  lemma DrainedFromRoot(f: Nodes, rank: map<Id, nat>, x: Id, q: seq<Id>)
    requires Ranked(f, rank) && Closed(f) && x in rank && q == [x]
    ensures multiset(Drained(f, q, Weight(f, rank, x))) == multiset(PreOrder(f, rank, x))
  {
    var bound := rank[x] + 1;
    assert Below(f, rank, q, bound);
    DrainedSameNodes(f, rank, q, bound);
    PreOrderAllSingle(f, rank, x, bound);
    WeightAllSingle(f, rank, x, q, bound);
  }

  /** A queue of one node weighs what that node weighs. */
  lemma WeightAllSingle(f: Nodes, rank: map<Id, nat>, x: Id, q: seq<Id>, bound: nat)
    requires Ranked(f, rank) && Closed(f) && x in rank && q == [x] && rank[x] < bound
    ensures Below(f, rank, q, bound)
    ensures WeightAll(f, rank, q, bound) == Weight(f, rank, x)
  {
    assert Below(f, rank, q, bound);
    assert q[..0] == [];
  }

  // ---------------------------------------------------------------------
  // The iterator
  // ---------------------------------------------------------------------

  class Iterator {
    const graph: Scene
    const depthFirst: bool
    var stack: seq<Id>
    var queue: seq<Id>

    /** Every pending entry names a node of the graph, and the graph's links stay inside it. */
    ghost predicate Valid()
      reads this, graph
    {
      Closed(graph.nodes) &&
      (forall x :: x in stack ==> x in graph.nodes) &&
      (forall x :: x in queue ==> x in graph.nodes)
    }

    /** The root goes into the container of the chosen mode; the other container stays empty. */
    constructor (graph: Scene, root: Id, depthFirst: bool)
      requires graph.Valid() && root in graph.nodes
      ensures Valid() && HasNext()
      ensures this.graph == graph && this.depthFirst == depthFirst
      ensures stack == (if depthFirst then [root] else [])
      ensures queue == (if depthFirst then [] else [root])
    {
      this.graph := graph;
      this.depthFirst := depthFirst;
      stack := if depthFirst then [root] else [];
      queue := if depthFirst then [] else [root];
    }

    /** `hasNext()`: the container of the chosen mode is not empty. */
    function HasNext(): bool
      reads this
    {
      if depthFirst then stack != [] else queue != []
    }

    /**
     * `next()`: take the top of the stack (or the front of the queue) and
     * add a copy of its children; null and no change when the container is
     * empty. Only the iterator changes, never the graph.
     */
    method Next() returns (node: Option<Id>)
      requires Valid()
      modifies this
      ensures Valid()
      ensures node.None? <==> !old(HasNext())
      ensures depthFirst ==> (node, stack) == DepthStep(graph.nodes, old(stack)) && queue == old(queue)
      ensures !depthFirst ==> (node, queue) == BreadthStep(graph.nodes, old(queue)) && stack == old(stack)
    {
      node := None;
      if depthFirst {
        if stack != [] {
          var x := stack[|stack| - 1];
          stack := stack[..|stack| - 1];
          node := Some(x);
          var children := graph.nodes[x].children;
          assert forall c :: c in children ==> c in graph.nodes;
          ghost var base := stack;
          var i := 0;
          while i < |children|
            invariant i <= |children|
            invariant stack == base + children[..i]
            invariant forall z :: z in stack ==> z in graph.nodes
            invariant queue == old(queue)
          {
            stack := stack + [children[i]];
            i := i + 1;
          }
          assert children[..i] == children;
        }
      } else {
        if queue != [] {
          var x := queue[0];
          queue := queue[1..];
          node := Some(x);
          var children := graph.nodes[x].children;
          assert forall c :: c in children ==> c in graph.nodes;
          ghost var base := queue;
          var i := 0;
          while i < |children|
            invariant i <= |children|
            invariant queue == base + children[..i]
            invariant forall z :: z in queue ==> z in graph.nodes
            invariant stack == old(stack)
          {
            queue := queue + [children[i]];
            i := i + 1;
          }
          assert children[..i] == children;
        }
      }
    }

    /** `next<Y>()`: the same step as `next()`, but a node that is not a `Y` comes back as null. */
    method NextAs(y: Target) returns (node: Option<Id>)
      requires Valid()
      modifies this
      ensures Valid()
      ensures depthFirst ==> stack == DepthStep(graph.nodes, old(stack)).1 && queue == old(queue)
      ensures !depthFirst ==> queue == BreadthStep(graph.nodes, old(queue)).1 && stack == old(stack)
      ensures var n := if depthFirst then DepthStep(graph.nodes, old(stack)).0
                       else BreadthStep(graph.nodes, old(queue)).0;
              node == if n.Some? && IsA(graph.nodes[n.value].kind, y) then n else None
    {
      node := Next();
      if node.Some? && !IsA(graph.nodes[node.value].kind, y) {
        node := None;
      }
    }
  }

  /**
   * What the loop of `Walk` keeps: the nodes collected so far, followed by
   * what the container still owes, make up the whole walk from `root`.
   */
  ghost predicate Owes(f: Nodes, rank: map<Id, nat>, root: Id, start: seq<Id>, bound: nat,
                       depthFirst: bool, st: seq<Id>, q: seq<Id>, out: seq<Id>)
  {
    Rooted(f, rank, root, start, bound) && Debt(f, rank, root, start, bound, depthFirst, st, q, out)
  }

  /** `start` is the container holding only `root`, a node of a ranked, closed graph. */
  ghost predicate Rooted(f: Nodes, rank: map<Id, nat>, root: Id, start: seq<Id>, bound: nat) {
    Ranked(f, rank) && Closed(f) && root in rank && start == [root] && rank[root] < bound &&
    Below(f, rank, start, bound)
  }

  ghost predicate Debt(f: Nodes, rank: map<Id, nat>, root: Id, start: seq<Id>, bound: nat,
                       depthFirst: bool, st: seq<Id>, q: seq<Id>, out: seq<Id>)
    requires Rooted(f, rank, root, start, bound)
  {
    Below(f, rank, st, bound) && Below(f, rank, q, bound) &&
    (depthFirst ==> out + Pending(f, rank, st, bound) == DepthWalk(f, rank, root)) &&
    (!depthFirst ==> out + Drained(f, q, WeightAll(f, rank, q, bound)) == Drained(f, start, Weight(f, rank, root)))
  }

  /** How much the container still owes: shrinks with every step. */
  ghost function Owed(f: Nodes, rank: map<Id, nat>, bound: nat, depthFirst: bool, st: seq<Id>, q: seq<Id>): nat
    requires Ranked(f, rank) && Closed(f) && Below(f, rank, st, bound) && Below(f, rank, q, bound)
  {
    if depthFirst then |Pending(f, rank, st, bound)| else WeightAll(f, rank, q, bound)
  }

  /** The iterator's first state. */
  lemma OwesStart(f: Nodes, rank: map<Id, nat>, root: Id, start: seq<Id>, bound: nat, depthFirst: bool)
    requires Ranked(f, rank) && Closed(f) && root in rank && start == [root] && bound == rank[root] + 1
    ensures Owes(f, rank, root, start, bound, depthFirst,
                 if depthFirst then start else [], if depthFirst then [] else start, [])
  {
    assert Below(f, rank, start, bound);
    assert Below(f, rank, [], bound);
    if depthFirst {
      PendingSingle(f, rank, root, start, bound);
    } else {
      WeightAllSingle(f, rank, root, start, bound);
    }
  }

  /** One `next()` of the chosen mode, from `st`/`q` to `st'`/`q'`, keeps `Owes` and lowers `Owed`. */
  lemma OwesStep(f: Nodes, rank: map<Id, nat>, root: Id, start: seq<Id>, bound: nat, depthFirst: bool,
                 st: seq<Id>, q: seq<Id>, out: seq<Id>, n: Option<Id>, st': seq<Id>, q': seq<Id>)
    requires Owes(f, rank, root, start, bound, depthFirst, st, q, out)
    requires if depthFirst then st != [] else q != []
    requires depthFirst ==> (n, st') == DepthStep(f, st) && q' == q
    requires !depthFirst ==> (n, q') == BreadthStep(f, q) && st' == st
    ensures n.Some?
    ensures Owes(f, rank, root, start, bound, depthFirst, st', q', out + [n.value])
    ensures Owed(f, rank, bound, depthFirst, st', q') < Owed(f, rank, bound, depthFirst, st, q)
  {
    if depthFirst {
      DepthStepFollowsWalk(f, rank, st, bound);
      ConcatAssoc(out, [n.value], Pending(f, rank, st', bound));
    } else {
      BreadthStepWeight(f, rank, q, bound);
      DrainedFront(f, rank, q, bound);
      ConcatAssoc(out, [n.value], Drained(f, q', WeightAll(f, rank, q', bound)));
    }
  }

  /** Once the container is empty, the collected nodes are the whole walk, each subtree node once. */
  lemma OwesDone(f: Nodes, rank: map<Id, nat>, root: Id, start: seq<Id>, bound: nat,
                 depthFirst: bool, st: seq<Id>, q: seq<Id>, out: seq<Id>)
    requires Owes(f, rank, root, start, bound, depthFirst, st, q, out)
    requires if depthFirst then st == [] else q == []
    ensures depthFirst ==> out == DepthWalk(f, rank, root)
    ensures !depthFirst ==> out == Drained(f, start, Weight(f, rank, root))
    ensures Linked(f) ==> forall y :: multiset(out)[y] == if Descends(f, root, y) then 1 else 0
  {
    if Linked(f) {
      forall y
        ensures multiset(out)[y] == if Descends(f, root, y) then 1 else 0
      {
        if depthFirst {
          DepthWalkVisitsOnce(f, rank, root, y);
        } else {
          DrainedVisitsOnce(f, rank, root, start, y);
        }
      }
    }
  }

  /**
   * The loop of the iterator tests: build an iterator on `root`, call
   * `next()` while `hasNext()`, collect what comes out. Depth-first it
   * collects `DepthWalk`, breadth-first what the queue that holds only
   * the root yields when `Drained`; on a linked graph each node of the subtree comes
   * out exactly once. The graph itself is not touched.
   */
  method Walk(graph: Scene, root: Id, depthFirst: bool, ghost rank: map<Id, nat>) returns (out: seq<Id>)
    requires graph.Valid() && Ranked(graph.nodes, rank) && root in rank
    ensures depthFirst ==> out == DepthWalk(graph.nodes, rank, root)
    ensures !depthFirst ==> out == Drained(graph.nodes, [root], Weight(graph.nodes, rank, root))
    ensures !depthFirst ==> out == LevelOrder(graph.nodes, rank, [root], rank[root] + 1)
    ensures Linked(graph.nodes) ==>
              forall y :: multiset(out)[y] == if Descends(graph.nodes, root, y) then 1 else 0
  {
    ghost var start, bound := [root], rank[root] + 1;
    var it := new Iterator(graph, root, depthFirst);
    OwesStart(graph.nodes, rank, root, start, bound, depthFirst);
    out := Drain(it, rank, root, start, bound);
    OwesDone(graph.nodes, rank, root, start, bound, depthFirst, it.stack, it.queue, out);
    BreadthFirstIsLevelOrder(graph.nodes, rank, root);
  }

  /** Calls `next()` on `it` while `hasNext()` and collects the nodes in the order they come out. */
  method Drain(it: Iterator, ghost rank: map<Id, nat>, ghost root: Id, ghost start: seq<Id>, ghost bound: nat)
    returns (out: seq<Id>)
    requires it.Valid() && Owes(it.graph.nodes, rank, root, start, bound, it.depthFirst, it.stack, it.queue, [])
    modifies it
    ensures !it.HasNext()
    ensures Owes(it.graph.nodes, rank, root, start, bound, it.depthFirst, it.stack, it.queue, out)
  {
    ghost var f := it.graph.nodes;
    out := [];
    while it.HasNext()
      invariant it.Valid() && it.graph.nodes == f
      invariant Owes(f, rank, root, start, bound, it.depthFirst, it.stack, it.queue, out)
      decreases Owed(f, rank, bound, it.depthFirst, it.stack, it.queue)
    {
      ghost var st, q := it.stack, it.queue;
      var n := it.Next();
      OwesStep(f, rank, root, start, bound, it.depthFirst, st, q, out, n, it.stack, it.queue);
      out := out + [n.value];
    }
  }
}
