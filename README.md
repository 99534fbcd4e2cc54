# Cinder scene graph, modelled in Dafny

This project models the core of a small C++ scene graph for the Cinder
framework and proves properties of that model. The core has five parts.

- **Scene tree** (`NodeBase`, and the legacy `Node` that repeats the same
  tree code).
  - Each node holds a deque of children (front = bottom, back = top) and a
    weak link to its parent.
  - Operations add, remove and reorder children, and answer top/bottom and
    lookup queries.
  - `deepSetup`/`deepUpdate` walk the tree in pre-order.
  - An `Iterator` walks a subtree with an explicit stack (depth-first) or
    queue (breadth-first).
- **Transform cache and coordinate maths** (`Node2d`, `Node3d`).
  - Every setter raises a dirty flag.
  - `transform()` rebuilds the local matrix only while the flag is up.
  - `deepTransform` composes world matrices top-down.
  - Point conversions go between object, parent, world and viewport.
  - Alignment and distribution helpers reposition the children of a 2D node.
- **Unique names** (`SceneObject`, `toFormattedString`): base + `"_"` + a
  zero-padded 8-digit counter.
- **Listener registry** (`Signal<E>`): a map from increasing integer ids to
  callbacks.
- **Component pool** (`ComponentFactory`): a vector of components.

Files and modules:

| file | module | contents |
|---|---|---|
| `wrappers.dfy` | `Wrappers` | `Option` |
| `naming.dfy` | `Naming` | decimal formatting, the name counter (`NameCounter`, `SceneObject`) |
| `signal.dfy` | `Signals` | the `Signal` class and the ascending order of ids |
| `components.dfy` | `Components` | `ComponentFactory` and `std::remove` |
| `forest.dfy` | `Forest` | nodes as a map `Id -> Node`; consistency (`Closed`, `Linked`), ranks below a node (`Ranked`), descent, pre-order |
| `treeops.dfy` | `TreeOps` | each tree operation as a function of the map, with its lemmas |
| `scene.dfy` | `SceneGraph` | the `Scene` class, whose methods update the map and append to a trace of hook calls |
| `traversal.dfy` | `Traversal` | the `Iterator` class and the walks it performs |
| `cascade.dfy` | `Cascade` | the top-down visit that `deepTransform` performs, over any frame type |
| `affine2.dfy`, `projective3.dfy` | `Affine2`, `Projective3` | 3×3 and 4×4 real matrices |
| `node2d.dfy`, `node3d.dfy` | `Node2d`, `Node3d` | frames (the cached transform state) and conversions |
| `layout.dfy` | `Layout` | align and distribute |

How the model represents the source:

- **Pointers.** A node's pointer is its `Id`, and null is `None`. Each
  `Scene` method takes the id of the node it is called on as its first
  argument.
- **Hooks.** The virtual hooks (`addedToScene`, `removedFromScene`,
  `setup`, `update`) have no body in the core. They are recorded as `Hook`
  values in `Scene.hooks`, in the order the calls happen.
- **Node classes.** Each node's concrete class is a `Kind`.
  `dynamic_pointer_cast<Y>` is `IsA(kind, y)`.
- **Cycles and termination.** Nothing stops a node from becoming its own
  ancestor. Wherever the source recurses or walks the tree to the end, the
  model asks for a ghost `rank` map that covers the node the walk starts
  from, is closed under taking children, and decreases along every child
  link inside it. Only the nodes the walk can reach need a rank, so a cycle
  elsewhere in the map does not block the walk
  (`TreeOps.DistantCycleKeepsRank`). `getDeepParent` climbs instead of
  descending. Its `depth` map covers the node and decreases towards the
  parent only along the chain, and only up to the first ancestor of the
  requested class (`TreeOps.GroundedUntil`). So a loop above that ancestor is
  allowed (`TreeOps.ClimbStopsOnCycle`).
- **Numbers.** Coordinates and matrices are `real`. GLM's rotation
  functions are uninterpreted: a 2D `rotate` function and 3D quaternion
  operations `QuatOps` are given as parameters. Matrix inverses are inputs,
  with the precondition `inverse · M = I`. Viewports are integer `Area`s.

Behaviour of the code that the model keeps as written:

- **Cycles are possible.** `addChild` accepts an ancestor of the node as its
  child (`TreeOps.AddChildCanCloseCycle`).
- **`addedToScene` runs twice on every successful `addChild`.** It runs once
  from `setParent`, because the parent link was just cleared, and once
  directly (`TreeOps.AddChildHooksTwice`).
- **Depth-first iteration is pre-order with the last child first.**
- **`removeChildren` keeps the children's parent links.** It empties the
  deque, but the call that would reset the children's parent links is
  commented out. Its `removedFromScene` call goes to the element after the
  one erased; that call is not modelled (see "Findings").
- **The dirty flag of a new 2D or 3D node is never initialised.** It is a
  parameter of `Create`.
- **Scale is applied as a translation.** The local matrix is
  `T(position) · R · T(scale) · T(-pivot)`.
- **2D conversions ignore the translation column.** They multiply
  `(x, y, 0)`.
- **GLM's `length()` is the number of components, not a norm.** So the
  zero-size branch of `getPivotPercentage` is dead, and `sortBySize` is
  always false.
- **`setRotation(..., use_degrees = true)` multiplies by 180/π**
  (`Node2d.DegreesFlag`).
- **`removeComponent` never erases.** It runs `std::remove` without
  `erase`, so the size never changes and the answer is always false.
- **The 3D `viewportToObject` flips y as `H - y`.**

The library's tests use an older interface: `setAnchor`, three-argument
constructors, and names without the counter suffix. Where they disagree
with the code, the model follows the code.

## Model

| member | source | states |
|---|---|---|
| Naming.ToFormattedString | include/Utils.hpp:16-21 | the result has max(length, digit count) characters; nothing is truncated; the decimal form of the input sits right-aligned behind '0' fill |
| Naming.FormattedParsesBack | include/Utils.hpp:16-21 | every character of the result is a digit, and reading them back gives the input |
| Naming.FormattedWideInput | include/Utils.hpp:19-20 | an input that already has at least `length` digits comes out as its plain decimal form |
| Naming.FormattedExactWidth | include/Utils.hpp:19 | an input with at most `length` digits fills exactly `length` characters |
| Naming.DecimalLength | include/Utils.hpp:19 | n has at most d digits if and only if n < 10^d, which is when the field width pads |
| Naming.ParseDecimalOfDecimal | include/Utils.hpp:16-21 | reading the decimal form of n gives n |
| Naming.ParseDecimalSkipsZeros | include/Utils.hpp:19 | leading '0' fill does not change the value read |
| Naming.ObjectName | src/SceneObject.cpp:14 | a constructed name starts with the base and is strictly longer, so it never equals the bare base; the 64-bit counter is reduced mod 2^32 on its way to the `uint32_t` parameter |
| Naming.NameSuffix | src/SceneObject.cpp:14 | while the counter is below 10^8, the name is base, '_', then exactly 8 digits that read back as the counter |
| Naming.NamesDiffer | src/SceneObject.cpp:14 | two counters below 10^8 that differ give different names, whatever the bases |
| Naming.NameCounter.constructor | src/SceneObject.cpp:10 | the counter starts at 0 |
| Naming.NameCounter.NextName | src/SceneObject.cpp:14 | the name is built from the counter's old value, and the counter goes up by exactly one (mod 2^64) |
| Naming.SceneObject.constructor | src/SceneObject.cpp:12-15 | the object's name is base + "_" + the formatted counter, and the counter is post-incremented |
| Signals.Signal.constructor | include/Signal.hpp:15 | a new signal has no slots and counter 0 |
| Signals.Signal.Copy | include/Signal.hpp:19 | copy construction copies nothing: empty slots, counter 0 |
| Signals.Signal.CopyAssign | include/Signal.hpp:20-26 | copy assignment from another signal clears this signal's own slots and keeps its counter; self-assignment changes nothing |
| Signals.Signal.Move | include/Signal.hpp:29 | move construction takes over the other signal's slots and counter |
| Signals.Signal.MoveAssign | include/Signal.hpp:30-37 | move assignment takes over slots and counter; self-move-assignment changes nothing |
| Signals.Signal.AddListener | include/Signal.hpp:40-44 | the id is the pre-incremented counter, fresh and greater than every registered id, and the slot is stored under it with nothing else changed |
| Signals.Signal.AddMemberListener | include/Signal.hpp:47-62 | the member-function overloads follow the same id rules, and the stored slot calls the member function on the instance |
| Signals.AddTwice | include/Signal.hpp:40-44 | two registrations in a row get consecutive ids 1 apart |
| Signals.Signal.RemoveListener | include/Signal.hpp:65-69 | the answer is true if and only if the id was registered; afterwards the id is gone, every other entry is unchanged, and the counter is kept |
| Signals.Signal.ClearListeners | include/Signal.hpp:72-75 | the slots are emptied and the counter is kept |
| Signals.ClearThenAdd | include/Signal.hpp:72-75 | after clearing, a new id is still greater than every id ever handed out, so ids are never reused |
| Signals.Signal.Dispatch | include/Signal.hpp:78-83 | each registered listener is called exactly once, in ascending id order, with the event |
| Signals.Ascending | include/Signal.hpp:86 | the iteration order of a `std::map<int, ...>` has exactly the map's keys |
| Signals.AscendingIsSorted | include/Signal.hpp:86 | that order is strictly increasing |
| Components.ComponentFactory.constructor | src/ComponentFactory.cpp:16-18 | a new factory holds no components and takes the next scene-object name |
| Components.ComponentFactory.Setup | src/ComponentFactory.cpp:24-27 | `setup` changes nothing |
| Components.ComponentFactory.Update | src/ComponentFactory.cpp:29-32 | `update` changes nothing |
| Components.ComponentFactory.Instantiate | src/ComponentFactory.cpp:34-41 | exactly one new component, named from the counter, is appended and returned; it is the last element |
| Components.ComponentFactory.AddComponent | src/ComponentFactory.cpp:43-50 | the answer is true if and only if the component is not null; a non-null component is appended, and null changes nothing |
| Components.ComponentFactory.RemoveComponent | src/ComponentFactory.cpp:52-59 | null gives false with no change; otherwise the vector keeps its size and becomes the `std::remove` result, so the answer is always false |
| Components.ComponentFactory.RemoveAll | src/ComponentFactory.cpp:57 | `std::remove` compacts the non-matching components to the front, in order, and leaves matches or nulls behind them |
| Components.RemovedInPlaceShape | src/ComponentFactory.cpp:57 | the front of the `std::remove` result is the old sequence without the component, in order, and the tail holds only the component or null |
| Components.AddThenRemove | src/ComponentFactory.cpp:52-59 | removing a component just added leaves it at the end of the pool and answers false |
| Components.ComponentFactory.EraseComponent | src/ComponentFactory.cpp:52-59 | corrected form: the pool becomes the old pool without the component, and the answer is true if and only if the component was there |
| Components.OccursIffIn | src/ComponentFactory.cpp:58 | the sequence shrinks (some occurrence is counted) exactly when the component is a member |
| Components.WithoutMembers | src/ComponentFactory.cpp:57 | the sequence without c holds exactly the old members other than c |
| Forest.PreOrderCoversSubtree | src/NodeBase.cpp:203-210 | the pre-order from x lists y if and only if y is x or below x |
| Forest.PreOrderNoDup | src/NodeBase.cpp:203-221 | on consistent links with a rank, the pre-order lists each node at most once |
| Forest.SiblingSubtreesDisjoint | src/NodeBase.cpp:66-86 | with consistent links, the subtrees of two different children share no node |
| Forest.AncestorsFormChain | include/NodeBase.h:54-66 | two nodes above the same node lie on one chain, one above the other |
| Forest.DescendsRank | include/NodeBase.h:206-238 | a strict descendant has a smaller rank, which is why a ranked walk ends |
| TreeOps.GetParentAs | include/NodeBase.h:47-51 | `getParent<Y>()` is the parent when the parent is a Y, and null otherwise |
| TreeOps.GetDeepParentIsNearest | include/NodeBase.h:54-66 | `getDeepParent<Y>()` is null if and only if the parent chain reaches a root with no Y on it; otherwise it is the end of the chain that climbs past non-Y nodes to the first Y |
| TreeOps.NearestChainUnique | include/NodeBase.h:58-63 | there is only one such chain, so the nearest Y it ends at is determined by the links alone |
| TreeOps.DeepParentChain | include/NodeBase.h:54-66 | the recursion climbs a real parent chain: to the Y it returns, or to a root with no Y above the node |
| TreeOps.DeepParentMeetsY | include/NodeBase.h:58-63 | if some parent chain from the node meets a Y, the recursion does not return null |
| TreeOps.ClimbStopsOnCycle | include/NodeBase.h:58-63 | the climb stops at the first Y, so it answers even when the parent links loop above that Y |
| TreeOps.AncestorsAreAbove | include/NodeBase.h:54-66 | the chain `getDeepParent` climbs holds exactly the nodes strictly above the node |
| TreeOps.QueriesAfterAddAndRemove | include/NodeBase.h:38-78 | after a successful `addChild`, `hasParent`, `getParent` and `hasChildren` hold, and `getChildCount` has gone up by one; after `removeChild` the node has no parent and the count has gone down by one |
| SceneGraph.Scene.constructor | src/NodeBase.cpp:20-23 | an empty scene with an empty hook trace |
| SceneGraph.Scene.NewNode | src/NodeBase.cpp:20-23 | a new parentless, childless node whose name comes from the counter |
| SceneGraph.Scene.NewLegacyNode | src/Node.cpp:20-23 | a legacy `Node` keeps the name it is given, with no counter suffix |
| SceneGraph.Scene.SetParent | src/NodeBase.cpp:31-38 | the parent link is replaced, and `addedToScene` runs exactly when the node had no parent before |
| SceneGraph.Scene.HasChild | src/NodeBase.cpp:45-49 | the answer is membership of a non-null node in the child deque |
| SceneGraph.Find | src/Node.cpp:45-49 | `std::find`: the first position holding x, or the length when there is none |
| SceneGraph.Scene.GetChildByName | src/NodeBase.cpp:51-64 | the first child with that name, or null when no child has it |
| SceneGraph.Scene.AddChild | src/NodeBase.cpp:66-86 | refused (false, nothing changes) exactly for null, self or an existing child; otherwise the new state and the hook calls are those of `TreeOps.AddChildState` and `AddChildHooks` |
| TreeOps.AddChildAttaches | src/Node.cpp:73-86 | a successful `addChild` sets n's parent to this node and appends n to the back of the old deque; every other node keeps its parent |
| TreeOps.AddChildUnique | src/NodeBase.cpp:73-77 | with consistent links, after `addChild` n occurs once among this node's children and in no other node's children |
| TreeOps.AddChildKeepsLinked | src/NodeBase.cpp:66-86 | `addChild` keeps parent and child links consistent |
| TreeOps.AddChildHooksTwice | src/NodeBase.cpp:73-83 | on consistent links, the hook calls of `addChild` are an optional `removedFromScene` followed by `addedToScene` twice |
| TreeOps.AddChildEdges | src/NodeBase.cpp:77 | the only child link `addChild` creates is from this node to n |
| TreeOps.AddChildKeepsRanked | src/NodeBase.cpp:66-86 | when n is not an ancestor of this node, ranks covering this node and n extend to a rank for the new graph, raised along this node's ancestors |
| TreeOps.AddChildCanCloseCycle | src/NodeBase.cpp:68 | `addChild` accepts a node's own parent as its child, and the resulting graph has no rank |
| TreeOps.TwoCycleUnranked | src/NodeBase.cpp:68 | no rank covers either of two nodes that are each other's child |
| TreeOps.DistantCycleKeepsRank | src/NodeBase.cpp:203-221 | a node outside a cycle still has a rank, though no rank covers the nodes on the cycle, so a walk from it is allowed |
| SceneGraph.Scene.RemoveChild | src/NodeBase.cpp:88-106 | the answer is true if and only if n was a child; then n's parent is cleared, `removedFromScene` runs, and the new state is `TreeOps.RemoveChildState` |
| TreeOps.RemoveChildEffect | src/Node.cpp:89-107 | a non-child changes nothing; otherwise n has no parent, the deque loses exactly that one entry with the others in their old order, and no other node changes |
| TreeOps.RemoveChildKeepsLinked | src/NodeBase.cpp:88-106 | `removeChild` keeps the links consistent, and n is no longer a child |
| SceneGraph.Scene.RemoveChildren | src/NodeBase.cpp:108-122 | as written: the erase loop leaves the deque empty, no other field changes, and no hook call is recorded |
| TreeOps.RemoveChildrenLeavesParents | src/NodeBase.cpp:108-122 | as written: after `removeChildren` the former children still name this node as their parent, so the links are no longer consistent |
| SceneGraph.Scene.DetachAllChildren | src/NodeBase.cpp:108-122 | corrected form: each erased child loses its parent link and gets its own `removedFromScene`, in deque order, and consistent links stay consistent |
| SceneGraph.DetachChildren | src/NodeBase.cpp:110-121 | the corrected erase loop over a copy of the map computes `TreeOps.RemoveChildrenDetached` and one `removedFromScene` per child |
| TreeOps.RemoveChildrenDetachedEffect | src/Node.cpp:109-124 | corrected form: the deque is empty, each former child has no parent, and every other node is unchanged |
| TreeOps.RemoveChildrenDetachedKeepsLinked | src/NodeBase.cpp:108-122 | corrected form: consistent links stay consistent |
| SceneGraph.Scene.RemoveFromParent | src/NodeBase.cpp:124-128 | `removeFromParent` is the parent's `removeChild` of this node when there is a parent, and a no-op otherwise |
| SceneGraph.Scene.MoveToTop | src/NodeBase.cpp:136-146 | null or a non-child changes nothing; otherwise the state is `TreeOps.MoveToTopState`, with no hook calls |
| TreeOps.MoveToTopEffect | src/Node.cpp:138-148 | a non-child changes nothing; otherwise the deque keeps its length and members, n is on top, and the others keep their order |
| TreeOps.MoveToTopKeepsLinked | src/NodeBase.cpp:136-146 | `moveToTop` keeps the links consistent |
| SceneGraph.Scene.MoveToBottom | src/NodeBase.cpp:191-201 | null or a non-child changes nothing; otherwise the state is `TreeOps.MoveToBottomState` |
| TreeOps.MoveToBottomEffect | src/Node.cpp:184-194 | a non-child changes nothing; otherwise the deque keeps its length and members, n is at the bottom, and the others keep their order |
| TreeOps.MoveToBottomKeepsLinked | src/NodeBase.cpp:191-201 | `moveToBottom` keeps the links consistent |
| SceneGraph.Scene.MoveSelfToTop | src/NodeBase.cpp:130-134 | `moveToTop()` asks the parent to move this node, and does nothing without a parent |
| SceneGraph.Scene.MoveSelfToBottom | src/NodeBase.cpp:184-189 | `moveToBottom()` asks the parent to move this node, and does nothing without a parent |
| TreeOps.TopAndBottomPositions | src/NodeBase.cpp:157-182 | on consistent links, `isOnTop(n)` holds exactly when n is the last entry and `isOnBottom(n)` exactly when it is the first; null is neither |
| TreeOps.IsOnTopSelf | src/NodeBase.cpp:148-155 | a node without a parent is not on top |
| TreeOps.IsOnBottomSelf | src/Node.cpp:164-169 | a node without a parent is not on the bottom |
| SceneGraph.Scene.DeepSetup | src/NodeBase.cpp:203-210 | the hook trace gains `setup` for every node of the subtree, in pre-order: the node first, then each child's subtree in child order; the tree is unchanged |
| SceneGraph.Scene.DeepSetupChildren | src/NodeBase.cpp:207-209 | the loop over the children adds their pre-orders one after another |
| SceneGraph.Scene.DeepUpdate | src/NodeBase.cpp:212-221 | the same pre-order of `update` calls, each with the elapsed time unchanged |
| SceneGraph.Scene.DeepUpdateChildren | src/NodeBase.cpp:218-220 | the loop over the children adds their `update` pre-orders one after another |
| SceneGraph.SetupCallsAppend | src/NodeBase.cpp:207-209 | the `setup` calls of two walks in turn are the calls of the joined walk |
| SceneGraph.Scene.Destroy | src/Node.cpp:25-29 | the destructor (of `Node` and of `NodeBase`) clears the parent link without `setParent`, then runs `removeChildren` as written |
| SceneGraph.Scene.Attach | src/NodeBase.cpp:76-83 | pushing n at the back and calling `setParent` adds the `addedToScene` of `setParent` (when n had no parent) and then one more |
| Traversal.Iterator.constructor | include/NodeBase.h:184-188 | a new iterator holds only the root in the container of its mode, so `hasNext()` starts true |
| Traversal.Iterator.Next | include/NodeBase.h:206-238 | null if and only if the container was empty; depth-first pops the top and pushes a copy of its children in deque order; breadth-first dequeues the front and enqueues the children; only the iterator changes, never the graph |
| Traversal.Iterator.NextAs | include/NodeBase.h:244-245 | `next<Y>()` advances exactly as `next()` and yields null for a node that is not a Y |
| Traversal.DepthStepFollowsWalk | include/NodeBase.h:210-221 | one depth-first step yields the first node the stack still owes, and the new stack owes the rest of the depth-first walk: pre-order with the last child first |
| Traversal.BreadthStepWeight | include/NodeBase.h:223-235 | one breadth-first step strictly lowers the work still owed |
| Traversal.DrainedSameNodes | include/NodeBase.h:223-235 | draining a queue visits the same nodes, with the same multiplicities, as the pre-orders of its entries |
| Traversal.DepthWalkVisitsOnce | include/NodeBase.h:210-221 | on consistent, ranked links the depth-first walk visits every node below the root exactly once and nothing else |
| Traversal.DrainedVisitsOnce | include/NodeBase.h:223-235 | the breadth-first walk from the root visits every node below it exactly once and nothing else |
| Traversal.DrainedPrefix | include/NodeBase.h:223-235 | draining a queue a + b yields a first, then the drain of b followed by a's children in order |
| Traversal.WeightAllKids | include/NodeBase.h:223-235 | the work a queue owes is its length plus the work its entries' children owe |
| Traversal.DrainedIsLevelOrder | include/NodeBase.h:223-235 | on ranked links, draining a queue is level order: the queue, then the concatenated children of its entries in queue order, then theirs, level by level |
| Traversal.BreadthFirstIsLevelOrder | include/NodeBase.h:223-235 | the breadth-first walk from a root is the root, then its children in deque order, then the level below in the same order, down to the leaves |
| Traversal.OwesDone | include/NodeBase.h:197-199 | when `hasNext()` is false, the nodes collected are exactly the depth-first or breadth-first walk |
| Traversal.Walk | include/NodeBase.h:184-238 | iterating to exhaustion yields the depth-first walk or the breadth-first order, and the breadth-first order is level order; on consistent links, every descendant exactly once |
| Traversal.Drain | include/NodeBase.h:197-238 | calling `next()` while `hasNext()` ends with an empty container and every node owed collected |
| Cascade.VisitThenChildren | src/Node2d.cpp:39-53 | `deepTransform` updates the node, then the subtree of each child in order, with the node's new world matrix |
| Cascade.VisitsSubtree | src/Node2d.cpp:39-53 | exactly the nodes below the start get a new frame |
| Cascade.VisitsFollowParents | src/Scene3d.cpp:47-61 | after `deepTransform(W)`, the start has world = W · local and every other visited node has world = parent's world · its local |
| Node2d.Nodes2d.constructor | src/Node2d.cpp:26-30 | no 2D frames yet, over the given graph and rotation |
| Node2d.Nodes2d.Create | src/Node2d.cpp:21-24 | a new 2D node named from the counter, with an initial frame whose dirty flag is the given arbitrary value |
| Node2d.Nodes2d.GetTransform | include/Node2d.h:42 | the cached local matrix, not recomputed |
| Node2d.Nodes2d.GetWorldTransform | include/Node2d.h:45 | the cached world matrix, not recomputed |
| Node2d.Nodes2d.SetPosition | include/Node2d.h:52-54 | stores the position and raises the dirty flag; nothing else changes |
| Node2d.Nodes2d.SetUniformScale | include/Node2d.h:61 | stores (s, s) and raises the dirty flag |
| Node2d.Nodes2d.SetScale | include/Node2d.h:63-65 | stores the scale (w, h) and raises the dirty flag |
| Node2d.Nodes2d.SetRotation | src/Node2d.cpp:110-114 | stores r · 180/π when `use_degrees` is set and r otherwise, and raises the flag |
| Node2d.DegreesFlag | src/Node2d.cpp:110-114 | with `use_degrees` the stored angle r satisfies r · π = angle · 180, so it is converted to degrees; without it the angle is kept |
| Node2d.Nodes2d.SetPivot | include/Node2d.h:79-81 | stores the pivot and raises the dirty flag |
| Node2d.Nodes2d.SetSize | include/Node2d.h:84 | changes only the size; the flag and the cached matrices stay |
| Node2d.Nodes2d.SetPivotPercentage | include/Node2d.h:93 | stores pivot = p · size componentwise and raises the flag |
| Node2d.Nodes2d.WriteThrough | include/Node2d.h:48-75 | writes through `position()`, `scale()`, `rotation()` and `getPivot()` change the fields without raising the flag |
| Node2d.Nodes2d.Transform | src/Node2d.cpp:92-108 | the node's frame becomes `Refreshed` of the old frame; nothing else changes |
| Node2d.RefreshedSettles | src/Node2d.cpp:92-108 | a clean frame is left alone; a dirty one gets local = T(position)·R·T(scale)·T(-pivot); the result is clean, and a second call changes nothing |
| Node2d.LocalPlacesPivot | src/Node2d.cpp:105 | with scale applied as a translation, the local matrix takes the point pivot - scale to the position |
| Node2d.Nodes2d.DeepTransform | src/Node2d.cpp:39-53 | the frames become the old frames overwritten by the top-down visit from the node with the given parent matrix |
| Node2d.Nodes2d.DeepTransformChildren | src/Node2d.cpp:48-52 | the loop over the children applies the visit to each child subtree in turn with the node's world matrix |
| Node2d.Nodes2d.VisitNode | src/Node2d.cpp:41-46 | one node: refresh the local matrix, then world = parent world · local |
| Node2d.VisitSettles | src/Node2d.cpp:39-53 | the visit leaves every node clean and does not depend on the node's old world matrix |
| Node2d.ObjectToParent | src/Node2d.cpp:230-233 | `objectToParent` multiplies (x, y, 0): the result uses only the upper-left 2×2 block of the local matrix |
| Node2d.ObjectToWorld | src/Node2d.cpp:242-245 | `objectToWorld`: the same with the world matrix |
| Node2d.ParentToObject | src/Node2d.cpp:219-228 | `parentToObject`: the same with the inverse local matrix |
| Node2d.WorldToObject | src/Node2d.cpp:235-240 | `worldToObject`: the same with the inverse world matrix |
| Node2d.LinearKeepsOrigin | src/Node2d.cpp:226-244 | conversions that multiply (x, y, 0) map the origin to the origin |
| Node2d.LinearIgnoresTranslation | src/Node2d.cpp:226-244 | a translation on the right of the matrix changes no conversion |
| Node2d.ObjectToParentIsRotation | src/Node2d.cpp:230-233 | with the literal local matrix, `objectToParent` is the rotation alone |
| Node2d.ParentRoundTrip | src/Node2d.cpp:219-233 | for an invertible local matrix with bottom row (0, 0, 1), `parentToObject` undoes `objectToParent` |
| Node2d.WorldRoundTrip | src/Node2d.cpp:235-245 | `worldToObject` undoes `objectToWorld` likewise |
| Node2d.ObjectToViewport | src/Node2d.cpp:208-217 | the point through the matrix (without translation), then normalised device coordinates into the viewport |
| Node2d.NdcCorners | src/Node2d.cpp:208-217 | NDC x = -1/+1 maps to X1/X1 + W, NDC y = +1/-1 to Y1/Y1 + H, and the NDC origin to the centre |
| Node2d.NdcToViewportInjective | src/Node2d.cpp:208-217 | on a non-degenerate viewport, different NDC points land on different viewport points |
| Node2d.ViewportToObject | src/Node2d.cpp:172-175 | stub: (0, 0) |
| Node2d.ViewportToObjectWith | src/Node2d.cpp:194-206 | stub: (0, 0) |
| Node2d.ObjectToViewportOf | src/Node2d.cpp:183-186 | stub: (0, 0) |
| Node2d.PivotPercentage | src/Node2d.cpp:116-125 | pivot / size componentwise: the result times the size is the pivot |
| Node2d.PivotPercentageRoundTrip | src/Node2d.cpp:116-125 | on a size without zero components, `getPivotPercentage` inverts `setPivotPercentage` |
| Node2d.PositionOrdersAreStrictWeak | src/Node2d.cpp:247-259 | both position comparators are strict weak orders, as `std::sort` needs |
| Node2d.SortBySize | src/Node2d.cpp:261-266 | always false, because `length()` counts components |
| Layout.Fraction | src/Node2d.cpp:279 | the pivot fraction times the size is the pivot |
| Layout.AlignedEdges | src/Node2d.cpp:273-294 | LEFT puts the left edge on x, CENTER puts the position on x, RIGHT puts the right edge on x; only the position along the axis changes, the flag goes up, and aligning again changes nothing |
| Layout.AlignHorizontally | src/Node2d.cpp:273-294 | every child, in deque order, is placed as `AlignedAt`; its other coordinate and the child order stay |
| Layout.AlignVertically | src/Node2d.cpp:309-329 | the same along y |
| Layout.Align | src/Node2d.cpp:282-293 | the loop over the children places each one in turn |
| Layout.SortedAlong | src/Node2d.cpp:349-352 | the sorted copy is a permutation of the children |
| Layout.SortedAlongSorted | src/Node2d.cpp:349-352 | the sorted copy is ordered by position along the axis |
| Layout.SortedAlongNoDup | src/Node2d.cpp:349-352 | the sorted copy of distinct children has no repeats |
| Layout.DistributeHorizontally | src/Node2d.cpp:344-395 | the children, taken in x order (the deque itself unchanged), are placed on evenly spaced lines between the bounds |
| Layout.DistributeVertically | src/Node2d.cpp:410-461 | the same along y |
| Layout.Distribute | src/Node2d.cpp:344-395 | a sorted copy is placed line by line |
| Layout.PlaceInOrder | src/Node2d.cpp:354-394 | the loop places the k-th child of the order on line k |
| Layout.DistributionSpansBounds | src/Node2d.cpp:354-394 | the first child starts at the left bound and the last child ends at the right bound (LEFT/RIGHT), or, for CENTER, the first and last positions sit one pivot inside the two bounds (start + first pivot, end − last pivot) |
| Layout.LinesEvenlySpaced | src/Node2d.cpp:354-394 | consecutive lines are one increment apart |
| Node3d.Nodes3d.constructor | src/Scene3d.cpp:26-31 | no 3D frames yet, over the given graph and quaternion operations |
| Node3d.Nodes3d.Create | src/Scene3d.cpp:21-24 | a new 3D node named from the counter, with an arbitrary initial dirty flag |
| Node3d.Nodes3d.GetTransform | include/Node3d.h:43 | the cached local matrix |
| Node3d.Nodes3d.GetWorldTransform | include/Node3d.h:46 | the cached world matrix |
| Node3d.Nodes3d.SetPosition | include/Node3d.h:53-55 | stores the position and raises the flag |
| Node3d.Nodes3d.SetUniformScale | include/Node3d.h:62 | stores (s, s, s) and raises the flag |
| Node3d.Nodes3d.SetScale | include/Node3d.h:64-66 | stores the scale and raises the flag |
| Node3d.Nodes3d.SetRotationAxis | include/Node3d.h:73 | stores `angleAxis(radians, axis)` and raises the flag |
| Node3d.Nodes3d.SetRotationAngle | include/Node3d.h:73 | without an axis, the z axis (0, 0, 1) is used |
| Node3d.Nodes3d.SetRotationQuat | include/Node3d.h:75 | stores the quaternion and raises the flag |
| Node3d.Nodes3d.SetRotationEuler | src/Scene3d.cpp:111-124 | stores the x · y · z product of the axis rotations, each angle times 180/π when `use_degrees` is set, and raises the flag |
| Node3d.EulerRotation | src/Scene3d.cpp:111-124 | the product x · y · z of the three axis rotations, with each angle multiplied by 180/π when `use_degrees` is set |
| Node3d.Nodes3d.SetPivot | include/Node3d.h:84-86 | stores the pivot and raises the flag |
| Node3d.Nodes3d.SetPivotPercentage | include/Node3d.h:91 | stores pivot = p · size and raises the flag |
| Node3d.Nodes3d.WriteThrough | include/Node3d.h:49-80 | writes through `position()`, `scale()`, `rotation()` and `pivot()` do not raise the flag |
| Node3d.Nodes3d.Transform | src/Scene3d.cpp:99-109 | the frame becomes `Refreshed` of the old frame |
| Node3d.RefreshedSettles | src/Scene3d.cpp:99-109 | a clean frame is left alone; a dirty one gets local = T(position)·Rot(q)·T(scale)·T(-pivot); the result is clean, and a second call changes nothing |
| Node3d.LocalPlacesPivot | src/Scene3d.cpp:106 | with scale applied as a translation, the local matrix takes pivot - scale to the position |
| Node3d.ObjectToParentPlacesPivot | src/Scene3d.cpp:294-297 | so `objectToParent` maps pivot - scale to the position |
| Node3d.Nodes3d.DeepTransform | src/Scene3d.cpp:47-61 | the frames become the old frames overwritten by the top-down visit |
| Node3d.Nodes3d.DeepTransformChildren | src/Scene3d.cpp:56-60 | the loop over the children visits each child subtree in turn |
| Node3d.Nodes3d.VisitNode | src/Scene3d.cpp:49-54 | one node: refresh, then world = parent world · local |
| Node3d.VisitSettles | src/Scene3d.cpp:47-61 | the visit leaves every node clean |
| Node3d.ObjectToParent | src/Scene3d.cpp:294-297 | `objectToParent` multiplies (x, y, z, 1): each coordinate is its row times the point plus the translation entry, and w is dropped without dividing |
| Node3d.ObjectToWorld | src/Scene3d.cpp:307-310 | `objectToWorld`: the same with the world matrix |
| Node3d.ParentToObject | src/Scene3d.cpp:286-291 | `parentToObject`: the same with the inverse local matrix |
| Node3d.WorldToObject | src/Scene3d.cpp:300-304 | `worldToObject`: the same with the inverse world matrix |
| Node3d.AffineRoundTrip | src/Scene3d.cpp:286-297 | for an invertible matrix with bottom row (0, 0, 0, 1), dropping w without dividing still round-trips |
| Node3d.ParentRoundTrip | src/Scene3d.cpp:286-297 | `parentToObject` undoes `objectToParent` |
| Node3d.WorldRoundTrip | src/Scene3d.cpp:300-310 | `worldToObject` undoes `objectToWorld` |
| Node3d.Homogenize | src/Scene3d.cpp:201-205 | divides by w when w is not 0, and gives (0, 0, 0) when w is 0 |
| Node3d.WindowToNdcInvertsViewport | src/Scene3d.cpp:193-206 | `unproject`'s NDC step ((x - X1)/W · 2 - 1, (y - Y1)/H · 2 - 1, 2z - 1) is inverted by the viewport mapping |
| Node3d.Unproject | src/Scene3d.cpp:193-206 | the window point is mapped to device coordinates, multiplied by the inverse, and divided by w when w is not 0; it yields (0, 0, 0) when w is 0 |
| Node3d.CastRay | src/Scene3d.cpp:233-245 | the result lies on the line through the near and far points; when they differ in z it is the only point of that line with z = 0, and otherwise it is the near point |
| Node3d.PlaneCrossing | src/Scene3d.cpp:242-245 | `lerp(p0, p1, alpha)` is a point of the line through p0 and p1, the unique one with z = 0 when z varies along the line, and p0 when it does not |
| Node3d.ViewportToObjectAsWritten | src/Scene3d.cpp:227-246 | as written: the ray is cast through the point whose device y is minus that of the input, shifted by 4 · Y1 / H |
| Node3d.ViewportToObject | src/Scene3d.cpp:227-246 | corrected: the ray is cast through the point whose device y is minus that of the input |
| Node3d.FlipAsWrittenMissesCentre | src/Scene3d.cpp:227-246 | as written: the flip H - y sends the centre of a viewport at Y1 = 10 to NDC y = -0.4 instead of 0 |
| Node3d.FlipsAgreeAtOrigin | src/Scene3d.cpp:227-246 | both flips agree on viewports that start at Y1 = 0 |
| Node3d.FlipRoundTrip | src/Scene3d.cpp:227-246 | corrected flip (Y1 + Y2) - y: a point mapped to the viewport and flipped comes back to its NDC coordinates |
| Node3d.ObjectToViewport | src/Scene3d.cpp:265-283 | `objectToViewport` divides x and y by w when w is not 0, and yields the viewport centre when w is 0 |
| Node3d.UnprojectOf | src/Scene3d.cpp:171-174 | stub: (0, 0, 0) |
| Node3d.ViewportToObjectOf | src/Scene3d.cpp:209-212 | stub: (0, 0, 0) |
| Node3d.ObjectToViewportOf | src/Scene3d.cpp:248-251 | stub: (0, 0) |
| Node3d.PivotPercentage | src/Scene3d.cpp:37-45 | pivot / size componentwise: the result times the size is the pivot |
| Node3d.PivotPercentageRoundTrip | src/Scene3d.cpp:37-45 | `getPivotPercentage` inverts `setPivotPercentage` on a size without zero components |
| Node3d.PositionOrdersAreStrictWeak | src/Scene3d.cpp:312-331 | the x, y and z comparators are strict weak orders |
| Node3d.SortBySize | src/Scene3d.cpp:333-338 | always false |

## Left out

- Drawing: `deepDraw`, the `draw` methods, colours and GL calls.
- `NodeShape2d` and `NodeMesh`: mouse handling and Cinder geometry. The
  node kinds `Shape2dKind` and `MeshKind` stand for them in `dynamic_pointer_cast`.
- `getBounds`, `getScreenRect`, `setScreenRect`: they depend on Cinder's
  `Rectf` and `AxisAlignedBox`, which are not part of this model. The bounds
  `distribute*` uses are a parameter `Rect`.
- The one-line `alignHorizontally`/`alignVertically`/`distribute*`
  overloads that take the node instead of the children: each calls the
  modelled form on its own children.
- Layout.SortedAlong: `std::sort` is not stable; the model sorts by stable insertion, so children with equal positions may come out in another order in the source.
- Layout.DistributeHorizontally: requires distinct children, at least one of them (the source reads `children.back()`, undefined on an empty deque), and a non-zero size wherever a pivot fraction is used; with a single child the model takes the increment as 0, where the source divides by zero but never uses the result.
- Layout.DistributeVertically: the same preconditions as the horizontal form.
- Layout.AlignHorizontally: requires every child to be a 2D node with a frame (the source dereferences a null cast otherwise) and a non-zero size along the axis for LEFT and RIGHT.
- Layout.AlignVertically: the same preconditions as the horizontal form.
- Floating point: every coordinate is a `real`; rounding, NaN and infinity are not modelled.
- Node2d.PivotPercentage: requires a size without zero components, where the source would divide by zero.
- Node3d.PivotPercentage: the same precondition as the 2D form.
- GLM internals: the 2D rotation matrix, `angleAxis`, quaternion product and
  `toMat4` are uninterpreted parameters, and `glm::inverse` is replaced by an
  inverse given as input.
- Node3d.WindowToNdcInvertsViewport: requires a viewport with non-zero width and height (`Proper`), where the source would divide by zero.
- Node3d.Unproject: the same precondition (`Proper`).
- Node3d.CastRay: the same precondition.
- Node3d.ViewportToObjectAsWritten: the same precondition.
- Node3d.ViewportToObject: the same precondition.
- Node2d.Nodes2d.DeepTransform: takes the parent matrix as an argument; the default argument (the identity) is a call with `Identity`.
- Node3d.Nodes3d.DeepTransform: likewise with `Identity4`.
- `clearComponents` and `getComponentByName`: they fall off the end of a
  non-void function, which is undefined behaviour.
- `TransformComponent`, `RectTransformComponent`, `Events.hpp`, the
  serialisation stubs and `getHash`: no behaviour beyond storage or
  `std::hash`.
- The `shared_ptr`/`weak_ptr` lifetime rules: nodes are ids, and a node is never freed.
- Signals.Signal.AddListener: requires the counter to be below `INT_MAX`; the signed overflow past it is undefined behaviour in the source.
- Signals.Signal.AddMemberListener: the same precondition.
- Signals.Signal.Dispatch: listeners return a value of type R so that their calls can be observed; the source's listeners return nothing and their side effects are not modelled.
- Signals.Signal.Move: the moved-from map is taken to be empty, which the standard library leaves unspecified.
- Signals.Signal.MoveAssign: the same assumption about the moved-from map.
- TreeOps.GetDeepParentIsNearest: requires a depth map along the parent chain up to the first Y; a chain that loops before reaching a Y makes the source recurse forever.
- SceneGraph.Scene.DeepSetup: requires a rank covering the node; a cycle reachable below the node makes the source recurse forever.
- SceneGraph.Scene.DeepUpdate: the same precondition.
- Node2d.Nodes2d.DeepTransform: the same precondition, and requires every node of the subtree to be a 2D node with a frame (`Cascade.Framed`); the source dereferences a null `dynamic_pointer_cast` for a child that is not.
- Node3d.Nodes3d.DeepTransform: the same preconditions, with 3D nodes.
- Node2d.Nodes2d.DeepTransformChildren: the same preconditions as `DeepTransform`.
- Node3d.Nodes3d.DeepTransformChildren: the same preconditions as `DeepTransform`.
- Node2d.Nodes2d.Create: src/Node2d.cpp:27 names `Node` as the base class, whose constructor keeps the name bare (src/Node.cpp:20-21), but include/Node2d.h:33 declares `NodeBase` as the base; the model follows the header and names the node from the counter, as `NodeBase` does.
- Traversal.Walk: requires a rank covering the root; a cycle reachable below the root makes the source iterate forever.
- The misdirected `removedFromScene` in `removeChildren` (a call on the
  element after the one erased, and on `end()` after the last) is undefined
  behaviour and is not modelled by `SceneGraph.Scene.RemoveChildren`.
- Node2d.ViewportToObjectWith: a stub in the source; its commented-out body is not modelled.
- The application, sample and test code.

## Findings

| source | as written | input that shows it | intended | confidence | as-written member | corrected member |
|---|---|---|---|---|---|---|
| src/Scene3d.cpp:227-246 | y is flipped as `H - y`, which ignores the viewport's origin Y1 | viewport Area(0, 10, 100, 110) and the centre point (50, 60): the NDC y comes out -0.4 instead of 0 | plausibly intended: flip as `(Y1 + Y2) - y`, the inverse of `objectToViewport`'s mapping. The test at test/Node3dTest.cpp:257-261 repeats `H - y` on random viewports whose corner need not be at the origin (test/Node3dTest.cpp:146-148), so `H - y` may be the intended convention | low, not executed | Node3d.FlipAsWrittenMissesCentre | Node3d.FlipRoundTrip |
| src/ComponentFactory.cpp:52-59 | `std::remove` without `erase`: the size never changes, so the answer is always false | add a component, then remove it: it stays in the pool and the answer is false | erase-remove, answering whether the component was there | high, not executed | Components.AddThenRemove | Components.ComponentFactory.EraseComponent |
| src/NodeBase.cpp:108-122 | the parent links are not reset (the `setParent` call is commented out), and `removedFromScene` is called on the element after the erased one | a parent with one child: afterwards the child still names the parent, which no longer lists it, and the hook is called on `end()` | each child's parent link reset and one `removedFromScene` per child | high, not executed | TreeOps.RemoveChildrenLeavesParents | SceneGraph.Scene.DetachAllChildren |
