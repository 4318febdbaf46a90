# Box2D dynamic AABB tree, modelled in Dafny

This project models the broad-phase `DynamicTree` of Box2DSharp, together with two helpers from
`CollisionUtils`: the box overlap test and the manifold point-state classifier.

The tree is a binary bounding-volume hierarchy kept in a pool of node slots:

- **Proxies.** Each proxy is a leaf that holds a fattened box and an opaque user-data handle.
- **Internal nodes.** Each holds the union of its children's boxes, and its height is one more
  than its taller child's.
- **Free slots.** Unused slots are threaded into a free list through the `Parent`/`Next` field.
- **Leaf operations.** `InsertLeaf` descends by a perimeter cost to pick a sibling. `RemoveLeaf`
  splices the sibling into the grandparent. Both walk back up, calling `Balance` and refreshing
  each ancestor's height and box.
- **Queries.** `Query` and `RayCast` walk the tree with an explicit stack and prune on the box test.
- **Maintenance.** `RebuildBottomUp` strips the tree to its leaves and pairs them greedily.
  `ShiftOrigin` moves every box.

## Modules

- `Geometry` (geometry.dfy): points and boxes over exact reals, with `Combine`, `Contains`,
  perimeter, centre and extents.
- `CollisionUtils` (collision_utils.dfy): `TestOverlap`, and `GetPointStates` over two state
  arrays.
- `TreeNodes` (tree_nodes.dfy): the `TreeNode` record and `NullNode`.
  - The per-slot invariants checked by `ValidateStructure` and `ValidateMetrics`. `Shape` collects
    them for the whole pool.
  - The free list, as `FreeListOk`.
  - The proxy map: each live leaf mapped to its fat box and user data.
- `Subtrees` (subtrees.dfy): subtrees and leaf sets, derived from the stored heights.
- `TreeChecks` (tree_checks.dfy): `ComputeHeight`, the two validators, and the balance read by
  `GetMaxBalance`.
- `TreeEdits`, `Splices`, `Rotations` (tree_edits.dfy, splices.dfy, rotations.dfy): the pool
  edits made by the upward refit walk, by `InsertLeaf`/`RemoveLeaf`, and by `Balance`, each as a
  function on the pool, with lemmas saying the invariants survive.
- `Traversals` (traversal.dfy): the stack-walk invariants shared by `Query` and `RayCast`.
- `BottomUp` (rebuild.dfy): the two phases of `RebuildBottomUp`.
- `DynamicTrees` (dynamic_tree.dfy): the class `DynamicTree`.
  - Its fields are `freeList`, `nodeCapacity`, `nodeCount`, `root`, and the pool `treeNodes`, a
    sequence of node records that the methods reassign.
  - A ghost field `freeSlots` holds the free list in order.
  - `Valid()` is the pool bookkeeping plus `Shape` for one tree with root `root`.
  - `Proxies()` is the map from proxy id to fat box and user data. Every public operation is
    specified by what it does to that map.

Callbacks are parameters:

- `Query` takes a pure function from the calls made so far and the proxy id to "continue?".
- `RayCast` takes a pure function from the earlier reports, the clipped input and the proxy id to
  the new fraction.

Each returns the sequence of calls it made. That sequence is the object the contracts speak
about.

## Model

| member | source | states |
|---|---|---|
| CollisionUtils.TestOverlapIffCommonPoint | Server/ThirdParty/Box2D/Collision/CollisionUtils.cs:130-147 | for well-formed boxes, the test succeeds iff the closed boxes share a point, so touching boxes overlap |
| CollisionUtils.TestOverlapSymmetric | Server/ThirdParty/Box2D/Collision/CollisionUtils.cs:130-147 | the result does not depend on the order of the two boxes |
| CollisionUtils.TestOverlapGrows | Server/ThirdParty/Box2D/Collision/CollisionUtils.cs:130-147 | a box enclosing one that overlaps `q` overlaps `q` too; this justifies pruning a subtree whose box misses |
| CollisionUtils.TestOverlapShift | Server/ThirdParty/Box2D/Collision/CollisionUtils.cs:130-147 | translating both boxes by the same offset keeps the answer |
| CollisionUtils.KeyInUse | Server/ThirdParty/Box2D/Collision/CollisionUtils.cs:34-41 | the inner search with early break: true iff some point in use in the manifold has the key |
| CollisionUtils.GetPointStates | Server/ThirdParty/Box2D/Collision/CollisionUtils.cs:12-60 | first `MaxManifoldPoints` slots: those in use in manifold1 are Persist iff manifold2 uses the key, else Remove; those in use in manifold2 are Persist iff manifold1 uses the key, else Add; the rest are Null; slots past `MaxManifoldPoints` are untouched |
| CollisionUtils.PersistIsMutual | Server/ThirdParty/Box2D/Collision/CollisionUtils.cs:12-14 | a point of manifold1 is Persist iff a point of manifold2 with the same key is Persist |
| TreeNodes.FreeListPush | Unity/Assets/ThirdParty/Box2DSharp/Collision/DynamicTree.cs:111-119 | a live slot set to height -1 and linked to the old head is a well-formed free list with the slot at its head |
| TreeNodes.FreeListPop | Unity/Assets/ThirdParty/Box2DSharp/Collision/DynamicTree.cs:99-108 | taking the head and making it live leaves a well-formed free list headed by the old head's `Next` |
| DynamicTrees.FreshFreeList | Unity/Assets/ThirdParty/Box2DSharp/Collision/DynamicTree.cs:37-51 | a pool whose slots from `lo` on are free and chained in order has exactly the slots `lo ..` on its free list |
| DynamicTrees.FreeChain | Unity/Assets/ThirdParty/Box2DSharp/Collision/DynamicTree.cs:83-96 | builds the new slots `lo .. hi-1`: height -1, each linked to the next, the last to `NullNode` |
| DynamicTrees.GrownPool | Unity/Assets/ThirdParty/Box2DSharp/Collision/DynamicTree.cs:71-97 | a full pool with the chain appended has twice the capacity, keeps the old slots, trees and proxies, and has the new slots `count ..` as its free list |
| DynamicTrees.TakenSlot | Unity/Assets/ThirdParty/Box2DSharp/Collision/DynamicTree.cs:99-108 | the head of the free list becomes a fresh leaf with no user data; the rest of the free list remains, and one more slot is in use |
| DynamicTrees.DynamicTree.constructor | Unity/Assets/ThirdParty/Box2DSharp/Collision/DynamicTree.cs:29-52 | an empty valid tree of capacity 16 with no proxies; all 16 slots are free and chained in index order, the last to `NullNode`, with the free list head 0 |
| DynamicTrees.DynamicTree.GrowPool | Unity/Assets/ThirdParty/Box2DSharp/Collision/DynamicTree.cs:71-97 | capacity doubles and the old slots are kept unchanged; the new slots `old capacity ..` are free and chained in index order, the last to `NullNode`; they are exactly the free list, whose head is the old node count (= old capacity) |
| DynamicTrees.DynamicTree.AllocateNode | Unity/Assets/ThirdParty/Box2DSharp/Collision/DynamicTree.cs:68-109 | returns the old free-list head, or the old capacity after doubling when the list was empty; only that slot changes (after growth, the old slots are kept and the rest stay chained); it becomes a fresh leaf with no parent, children or user data; the free list loses its head, and the new head is the taken slot's `Next`; node count +1 |
| DynamicTrees.DynamicTree.FreeNode | Unity/Assets/ThirdParty/Box2DSharp/Collision/DynamicTree.cs:111-119 | the slot gets height -1 and links to the old head; it becomes the head and is pushed on the free list; the node count drops by one, so count = capacity - free-list length still holds |
| DynamicTrees.DynamicTree.CreateProxy | Unity/Assets/ThirdParty/Box2DSharp/Collision/DynamicTree.cs:121-136 | returns an id that was not a proxy, mapped to the box widened by the extension on every side (so it contains the given box) and to the user data; node count +1 on an empty tree, else +2; the new leaf is the root iff the tree was empty |
| DynamicTrees.Fattened | Unity/Assets/ThirdParty/Box2DSharp/Collision/DynamicTree.cs:126-129 | the fat box contains the tight box and is `2 * extension` wider and taller |
| DynamicTrees.DynamicTree.DestroyProxy | Unity/Assets/ThirdParty/Box2DSharp/Collision/DynamicTree.cs:138-146 | the proxy map loses exactly that id; node count -1 when it was the root, else -2 |
| DynamicTrees.AddedThenRemoved | Unity/Assets/ThirdParty/Box2DSharp/Collision/DynamicTree.cs:121-146 | removing a fresh key after adding it gives back the original proxy map, so `DestroyProxy` undoes `CreateProxy` |
| DynamicTrees.CreateThenDestroy | Unity/Assets/ThirdParty/Box2DSharp/Collision/DynamicTree.cs:121-146 | `CreateProxy` followed by `DestroyProxy` on the returned id gives back a valid tree with the original proxy map and node count |
| DynamicTrees.DynamicTree.MoveProxy | Unity/Assets/ThirdParty/Box2DSharp/Collision/DynamicTree.cs:152-196 | returns true iff the old fat box does not contain the new box; if false nothing changes; if true the proxy keeps its id and user data and gets the predicted box; the node count is unchanged; the fat box always contains the new box |
| DynamicTrees.Predicted | Unity/Assets/ThirdParty/Box2DSharp/Collision/DynamicTree.cs:165-190 | the predicted box contains the fat box and the fat box moved by multiplier times the displacement |
| DynamicTrees.PredictedBox | Unity/Assets/ThirdParty/Box2DSharp/Collision/DynamicTree.cs:165-190 | stretching the lower or upper bound on the side of each displacement component's sign gives `Predicted` |
| DynamicTrees.DynamicTree.GetUserData | Unity/Assets/ThirdParty/Box2DSharp/Collision/DynamicTree.cs:200-204 | the user data of a proxy, as recorded in the proxy map |
| DynamicTrees.DynamicTree.GetFatAABB | Unity/Assets/ThirdParty/Box2DSharp/Collision/DynamicTree.cs:207-211 | the fat box of a proxy, as recorded in the proxy map |
| DynamicTrees.DynamicTree.Query | Unity/Assets/ThirdParty/Box2DSharp/Collision/DynamicTree.cs:215-250 | every call is on a distinct proxy whose fat box overlaps the query box; all but the last call answered continue; if every call answered continue, the calls are exactly the overlapping proxies |
| DynamicTrees.QueryTarget | Unity/Assets/ThirdParty/Box2DSharp/Collision/DynamicTree.cs:226-236 | the overlap test is closed under enlarging the box, and the leaves passing it are the proxies overlapping the query box |
| DynamicTrees.DynamicTree.RayCast | Unity/Assets/ThirdParty/Box2DSharp/Collision/DynamicTree.cs:259-347 | each report is a distinct proxy whose box survives the pruning for the segment clipped by the earlier answers; each report passes the input clipped to the last positive answer; only the last answer may be 0; if every answer was negative and the separation test is closed under enlarging, the reports are exactly the proxies the segment reaches |
| DynamicTrees.LastFraction | Unity/Assets/ThirdParty/Box2DSharp/Collision/DynamicTree.cs:329-336 | the clipping fraction is the input's or one of the positive answers |
| DynamicTrees.SegmentBox | Unity/Assets/ThirdParty/Box2DSharp/Collision/DynamicTree.cs:277-282 | the segment's box is well formed and holds both end points |
| DynamicTrees.IgnoredReach | Unity/Assets/ThirdParty/Box2DSharp/Collision/DynamicTree.cs:321-336 | while every answer was negative, the pruning is the one for the unclipped segment |
| DynamicTrees.RayCastReport | Unity/Assets/ThirdParty/Box2DSharp/Collision/DynamicTree.cs:312-327 | reports on leaves of the pool are reports on proxies of the proxy map with the same boxes |
| DynamicTrees.DynamicTree.GetHeight | Unity/Assets/ThirdParty/Box2DSharp/Collision/DynamicTree.cs:373-381 | 0 for an empty tree; otherwise the stored root height, which `ComputeHeight` recomputes from the leaves with the pool size as budget |
| DynamicTrees.DynamicTree.GetMaxBalance | Unity/Assets/ThirdParty/Box2DSharp/Collision/DynamicTree.cs:385-405 | an upper bound on the child-height gap of every slot taller than 1, attained by some slot (or 0) |
| DynamicTrees.DynamicTree.ShiftOrigin | Unity/Assets/ThirdParty/Box2DSharp/Collision/DynamicTree.cs:515-523 | every slot's box is moved by `-newOrigin`; the tree stays valid and every proxy's fat box is moved |
| DynamicTrees.ShiftedShape | Unity/Assets/ThirdParty/Box2DSharp/Collision/DynamicTree.cs:515-523 | shifting every box keeps all tree invariants and the free list |
| DynamicTrees.ShiftBack | Unity/Assets/ThirdParty/Box2DSharp/Collision/DynamicTree.cs:515-523 | shifting by `o` and then by `-o` restores the proxy map |
| DynamicTrees.ShiftKeepsOverlapping | Unity/Assets/ThirdParty/Box2DSharp/Collision/DynamicTree.cs:515-523 | after the shift, a query with the shifted box finds the same proxies |
| DynamicTrees.DynamicTree.RebuildBottomUp | Unity/Assets/ThirdParty/Box2DSharp/Collision/DynamicTree.cs:435-510 | the result is a valid single tree with the same proxies (same ids, boxes and user data), and its leaves are exactly the proxies |
| DynamicTrees.DynamicTree.StripToLeaves | Unity/Assets/ThirdParty/Box2DSharp/Collision/DynamicTree.cs:441-459 | every internal node is freed; every live slot left is a parentless leaf; the listed ids are distinct and are exactly the proxies; the proxy map is kept |
| BottomUp.StripDone | Unity/Assets/ThirdParty/Box2DSharp/Collision/DynamicTree.cs:441-459 | after the scan the listed leaves are distinct and are exactly the keys of the original proxy map; every live slot is a proxy; they form a forest of one-leaf trees; there is at least one if the tree was not empty |
| DynamicTrees.ClosestPair | Unity/Assets/ThirdParty/Box2DSharp/Collision/DynamicTree.cs:463-481 | returns `i < j` whose combined perimeter is least over all pairs, and strictly less than every pair scanned before it (the first minimum) |
| DynamicTrees.SearchPairsFrom | Unity/Assets/ThirdParty/Box2DSharp/Collision/DynamicTree.cs:465-480 | one row of the pair scan keeps the running minimum over all pairs scanned so far |
| DynamicTrees.DynamicTree.JoinUnderNewParent | Unity/Assets/ThirdParty/Box2DSharp/Collision/DynamicTree.cs:483-497 | the new node has the two roots as child1/child2, no parent, no user data, the union of their boxes and height one more than the taller; the two roots get it as parent; every other live slot is unchanged; it is the old free-list head when there was one; it replaces the two roots in the set of roots; proxies unchanged; node count +1 |
| DynamicTrees.JoinedRecords | Unity/Assets/ThirdParty/Box2DSharp/Collision/DynamicTree.cs:488-497 | writing the join into a pool with a fresh slot gives exactly those records: parent links, children, box, height, and every other live slot unchanged |
| BottomUp.JoinRoots | Unity/Assets/ThirdParty/Box2DSharp/Collision/DynamicTree.cs:488-497 | joining two roots under a fresh node keeps the forest well formed with the new node in their place, and keeps the proxies (less the new node) and the free slots |
| BottomUp.ReplacePair | Unity/Assets/ThirdParty/Box2DSharp/Collision/DynamicTree.cs:499-501 | the list update keeps the entries distinct and replaces the two joined roots by the parent |
| DynamicTrees.RootCoversProxies | Unity/Assets/ThirdParty/Box2DSharp/Collision/DynamicTree.cs:504-508 | in a valid tree the root's leaves are exactly the proxies |
| DynamicTrees.DynamicTree.InsertLeaf | Unity/Assets/ThirdParty/Box2DSharp/Collision/DynamicTree.cs:525-658 | a loose proxy is hung in the tree; the result is one valid tree with the same proxies; on an empty tree the leaf becomes the root and the node count is unchanged, else it grows by one |
| DynamicTrees.DynamicTree.FindSibling | Unity/Assets/ThirdParty/Box2DSharp/Collision/DynamicTree.cs:534-598 | the descent returns `Descend`: a node of the tree that is a leaf or where stopping is cheaper than both children |
| DynamicTrees.Descend | Unity/Assets/ThirdParty/Box2DSharp/Collision/DynamicTree.cs:534-598 | the chosen sibling lies in the subtree and is a leaf or a node where `cost < cost1 && cost < cost2` |
| DynamicTrees.DescentChoice | Unity/Assets/ThirdParty/Box2DSharp/Collision/DynamicTree.cs:539-597 | stops iff `cost < cost1 && cost < cost2`; otherwise goes to child1 iff `cost1 < cost2`, so ties go to child2 |
| DynamicTrees.DescendStep | Unity/Assets/ThirdParty/Box2DSharp/Collision/DynamicTree.cs:584-597 | one step of the descent lands in a lower, well-formed subtree with the same final answer |
| DynamicTrees.DynamicTree.HangBeside | Unity/Assets/ThirdParty/Box2DSharp/Collision/DynamicTree.cs:600-637 | allocates the new parent, hangs it in the sibling's place (or as root), and leaves a repair path starting at it; proxies unchanged; node count +1 |
| DynamicTrees.DynamicTree.LinkNewParent | Unity/Assets/ThirdParty/Box2DSharp/Collision/DynamicTree.cs:603-637 | the pool becomes `SpliceIn`: new parent over sibling (child1) and leaf (child2), in the sibling's old slot of its parent; root set to the new parent if the sibling had been the root |
| Splices.InsertShape | Unity/Assets/ThirdParty/Box2DSharp/Collision/DynamicTree.cs:603-637 | after the splice every slot is well formed, except the metrics of the new parent and its ancestors |
| Splices.InsertProxies | Unity/Assets/ThirdParty/Box2DSharp/Collision/DynamicTree.cs:603-637 | the splice keeps every proxy other than the new parent, and every free slot |
| DynamicTrees.DynamicTree.RefitAncestors | Unity/Assets/ThirdParty/Box2DSharp/Collision/DynamicTree.cs:639-655 | walking up from the path head, balancing and refreshing height and box, leaves one well-formed tree with the same proxies and free slots |
| TreeEdits.Refreshed | Unity/Assets/ThirdParty/Box2DSharp/Collision/DynamicTree.cs:645-652 | the refreshed node is taller than both children and its box contains both children's boxes |
| TreeEdits.FixStep | Unity/Assets/ThirdParty/Box2DSharp/Collision/DynamicTree.cs:639-655 | refreshing the path head repairs it and shortens the path by one, keeping proxies and free slots |
| DynamicTrees.DynamicTree.RemoveLeaf | Unity/Assets/ThirdParty/Box2DSharp/Collision/DynamicTree.cs:660-718 | the proxy becomes loose and the rest is one valid tree with the same proxy map; removing the root leaves an empty tree, otherwise the parent is freed (node count -1) |
| DynamicTrees.DynamicTree.UnlinkParent | Unity/Assets/ThirdParty/Box2DSharp/Collision/DynamicTree.cs:668-715 | the pool becomes `SpliceOut`: the sibling takes the parent's slot in the grandparent, or becomes the root |
| Splices.RemoveShape | Unity/Assets/ThirdParty/Box2DSharp/Collision/DynamicTree.cs:680-715 | after the splice every slot is well formed except the grandparent's ancestors, and the removed leaf is loose |
| Splices.RemoveProxies | Unity/Assets/ThirdParty/Box2DSharp/Collision/DynamicTree.cs:680-715 | the splice keeps the proxy map |
| DynamicTrees.DynamicTree.Balance | Unity/Assets/ThirdParty/Box2DSharp/Collision/DynamicTree.cs:720-861 | the pool becomes `Balanced`: unchanged, returning A, when A is a leaf, height < 2 or the child heights differ by at most 1; otherwise the taller child is promoted and returned; `BalanceKeepsLeaves` proves the leaves under the returned node are those that were under A |
| Rotations.BalancePreserves | Unity/Assets/ThirdParty/Box2DSharp/Collision/DynamicTree.cs:720-861 | balancing keeps every invariant, with the returned node as the new path head, and keeps proxies and free slots |
| Rotations.BalanceKeepsLeaves | Unity/Assets/ThirdParty/Box2DSharp/Collision/DynamicTree.cs:720-861 | the returned node is internal with well-formed children, and the leaves under its two children are, in order, the leaves that were under A's two children |
| Rotations.RotationCaseAt | Unity/Assets/ThirdParty/Box2DSharp/Collision/DynamicTree.cs:720-738 | whenever `Balance` rotates, A and the promoted child are internal nodes with well-formed links |
| DynamicTrees.DynamicTree.RotateChild2Up | Unity/Assets/ThirdParty/Box2DSharp/Collision/DynamicTree.cs:740-798 | the pool becomes `Rotated` with C promoted: C takes A's slot in its parent (or the root), has A as child1, and keeps its taller child |
| DynamicTrees.DynamicTree.RotateChild1Up | Unity/Assets/ThirdParty/Box2DSharp/Collision/DynamicTree.cs:800-858 | the same with B promoted |
| Rotations.RotateShape | Unity/Assets/ThirdParty/Box2DSharp/Collision/DynamicTree.cs:740-858 | a rotation keeps every invariant, with the promoted node as the new path head |
| Rotations.RotateProxies | Unity/Assets/ThirdParty/Box2DSharp/Collision/DynamicTree.cs:740-858 | a rotation keeps every proxy (box and user data) and every free slot |
| Rotations.RotatedLeaves | Unity/Assets/ThirdParty/Box2DSharp/Collision/DynamicTree.cs:740-858 | after a rotation the promoted node has A and the kept grandchild as children, and the leaves under them are the leaves under A's other child and the promoted node |
| Rotations.RotationKeepsSubtree | Unity/Assets/ThirdParty/Box2DSharp/Collision/DynamicTree.cs:740-858 | the subtrees a rotation does not restructure (A's other child and both grandchildren) stay well formed and keep their leaf sequences |
| TreeChecks.ComputeHeight | Unity/Assets/ThirdParty/Box2DSharp/Collision/DynamicTree.cs:863-882 | a result is a height below the budget at an in-range slot, and a leaf gets 0; `None` marks an out-of-range index or an exhausted budget |
| TreeChecks.ComputeHeightWellFormed | Unity/Assets/ThirdParty/Box2DSharp/Collision/DynamicTree.cs:869-882 | on a well-formed subtree whose height is below the budget, the recomputed height is the stored height |
| TreeChecks.ComputeHeightMetrics | Unity/Assets/ThirdParty/Box2DSharp/Collision/DynamicTree.cs:869-882 | wherever `ValidateMetrics` passes, the recomputed height is the stored height |
| TreeChecks.ValidatorsAccept | Unity/Assets/ThirdParty/Box2DSharp/Collision/DynamicTree.cs:884-954 | both validators accept a well-formed subtree |
| TreeChecks.ValidatorsSound | Unity/Assets/ThirdParty/Box2DSharp/Collision/DynamicTree.cs:884-954 | a subtree both validators accept is well formed, if no node names the same child twice |
| TreeChecks.ShapedTreeValidates | Unity/Assets/ThirdParty/Box2DSharp/Collision/DynamicTree.cs:504-508 | a valid tree passes `ValidateStructure` and `ValidateMetrics` from its root |
| TreeChecks.HeightBelowSize | Unity/Assets/ThirdParty/Box2DSharp/Collision/DynamicTree.cs:869-882 | a subtree's height is below its node count, which is at most the pool size |
| Subtrees.SubtreeFacts | Unity/Assets/ThirdParty/Box2DSharp/Collision/DynamicTree.cs:919-954 | in a well-formed subtree every node's box and height are bounded by its ancestor's, and its parent is in the subtree |

## Left out

- Coordinates are exact reals. Float rounding, `Vector2.Normalize`, `Abs` and `Dot` are not modelled.
- `GetAreaRatio` is not modelled, because its result is a float division.
- `Dispose` and the `ArrayPool`/`SimpleObjectPool` renting and returning are not modelled.
  - New slots are fresh records.
  - The stale fields a pooled `TreeNode` may carry are not modelled.
- `TreeNode` is a reference class. `Balance` writes through aliases of pool slots; the model writes
  whole records into the `treeNodes` sequence.
- The body of `Validate` is compiled only under `b2DEBUG` and is not modelled.
  - The free-list count it checks is part of `Valid()`.
  - `ShapedTreeValidates` proves what the `Validate()` call at the end of `RebuildBottomUp` checks.
- `TreeChecks.StructureValid`, `TreeChecks.MetricsValid`: these take a depth budget so they
  terminate. They check only what `ValidateStructure`/`ValidateMetrics` check, which does not
  include `child1 != child2`.
- TreeChecks.ComputeHeight: the recursion carries a budget so that it terminates on any pool. The
  source has none; on a cyclic pool it would not return. `GetHeight` passes the pool size, which
  `ComputeHeightWellFormed` shows is enough for a valid tree.
- `Settings.AABBExtension` and `Settings.AABBMultiplier` are not part of this model. They are
  constructor parameters, required positive. `Settings.MaxManifoldPoints` is 2.
- DynamicTrees.DynamicTree.RayCast:
  - The separating-axis test is a predicate parameter `separated`.
  - The completeness clause assumes that predicate is closed under enlarging a box. The source's
    test is not shown to be.
  - The callback is a pure function of the earlier reports. `p1 != p2` stands in for the
    `Debug.Assert` on the segment length.
- DynamicTrees.DynamicTree.Query: the callback is a pure function of the earlier calls. The
  contract says nothing about the order of the calls.
- DynamicTrees.DynamicTree.RebuildBottomUp:
  - It requires a non-empty tree, because the source reads `nodes[0]` of an empty list there.
  - The pair search starts from "no candidate yet". The source starts from `minCost = MaxFloat`
    with `iMin = jMin = -1`, and takes a pair only when its cost is strictly below the best so far.
    The two pick the same pair whenever some pair costs less than `MaxFloat`. If every cost is at
    least `MaxFloat`, which float overflow can cause, the source keeps `iMin = -1` and reads
    `nodes[-1]`. The model takes the first pair instead. It has no `MaxFloat` bound, so it does
    not reproduce that failure.
  - The rented index array is a sequence.
- DynamicTrees.DynamicTree.DestroyProxy, DynamicTrees.DynamicTree.MoveProxy: these require the
  id to be a live proxy. The source asserts only the index range and `IsLeaf`, which a freed leaf
  slot also passes. What happens on such a slot is not modelled.
- DynamicTrees.DynamicTree.GetUserData, DynamicTrees.DynamicTree.GetFatAABB: for an id that is
  not a live proxy they return the slot's fields, and the contract says nothing about them.
- Debug assertions inside the operations become preconditions. For example, `InsertLeaf` requires
  a loose live leaf.
- CollisionUtils.GetPointStates: it requires two distinct state arrays, so aliasing the two
  outputs is not modelled. A contact id is reduced to its key, as an unbounded natural number.
- The balance factor after `Balance` is not claimed. A single rotation does not bound the child
  height gap by 1, so only the validity of the tree and the preservation of its proxies are proved.
- Helper methods split off from the source's long bodies are not separate operations in the source:
  - in `InsertLeaf`: `FindSibling`, `HangBeside`, `LinkNewParent`, `RefitAncestors`;
  - in `RemoveLeaf`: `UnlinkParent`;
  - in `Balance`: `RotateChild2Up`, `RotateChild1Up`;
  - in `RebuildBottomUp`: `StripToLeaves`, `ClosestPair`, `SearchPairsFrom`, `JoinUnderNewParent`;
  - in `MoveProxy`: `PredictedBox`;
  - in `GetPointStates`: `KeyInUse`;
  - in `AllocateNode`: `GrowPool`.
- `ClipSegmentToLine` and the shape-based `TestOverlap` are not part of this model. They depend on
  pointer arithmetic and on the GJK distance routine.
