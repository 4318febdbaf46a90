/**
 * `DynamicTree`: the broad-phase bounding-volume tree. Proxies are leaves
 * holding a fattened box; internal nodes hold the union of their children's
 * boxes. Nodes live in a pool of slots threaded by a free list.
 *
 * The pool array is the field `treeNodes`, a sequence of node records that
 * the methods reassign; the order of the free list is kept in the ghost
 * field `freeSlots`.
 */
module DynamicTrees {
  import opened Geometry
  import opened CollisionUtils
  import opened TreeNodes
  import opened Subtrees
  import opened TreeEdits
  import opened Splices
  import opened Rotations
  import opened Traversals
  import opened TreeChecks
  import opened BottomUp

  /** The record of a slot freshly added to the pool: free, linked to `next`. */
  function FreeRecord(next: int): (n: TreeNode)
    ensures n.height < 0 && n.Next() == next
  {
    TreeNode(AABB(Vec2(0.0, 0.0), Vec2(0.0, 0.0)), NullNode, NullNode, -1, NoUserData, next)
  }

  /** The slots `lo, lo + 1, ..., hi - 1`, in order. */
  function SlotRange(lo: int, hi: int): (r: seq<int>)
    requires lo <= hi
    ensures |r| == hi - lo && forall k :: 0 <= k < |r| ==> r[k] == lo + k
    decreases hi - lo
  {
    if lo == hi then [] else [lo] + SlotRange(lo + 1, hi)
  }

  /**
   * A pool whose slots from `lo` on are free and chained in order, with every
   * slot below `lo` live, has exactly those slots on its free list.
   */
  lemma FreshFreeList(nodes: seq<TreeNode>, lo: int)
    requires 0 <= lo < |nodes|
    requires forall k :: 0 <= k < lo ==> nodes[k].height >= 0
    requires forall k :: lo <= k < |nodes| ==>
               nodes[k].height == -1 && nodes[k].Next() == (if k + 1 < |nodes| then k + 1 else NullNode)
    ensures FreeListOk(nodes, lo, SlotRange(lo, |nodes|))
  {
    var free := SlotRange(lo, |nodes|);
    forall i | 0 <= i < |nodes| && nodes[i].height < 0
      ensures i in free
    {
      assert free[i - lo] == i;
    }
  }

  /**
   * The free-list chain `AllocateNode` and the constructor build over the new
   * slots `lo .. hi - 1`: each is free and links to the next, the last to null.
   */
  ghost predicate ChainOver(chain: seq<TreeNode>, lo: int, hi: int) {
    && |chain| == hi - lo
    && forall k :: 0 <= k < |chain| ==>
         chain[k].height == -1 && chain[k].Next() == (if lo + k + 1 < hi then lo + k + 1 else NullNode)
  }

  /** The slots of `b` from `lo` on are free, each linked to the next and the last to null. */
  ghost predicate ChainedFrom(b: seq<TreeNode>, lo: nat)
    decreases |b| - lo
  {
    lo >= |b| ||
    (b[lo].height == -1 && b[lo].Next() == (if lo + 1 < |b| then lo + 1 else NullNode) && ChainedFrom(b, lo + 1))
  }

  /** A chain laid over the tail of `b` from `base` on makes every suffix of it chained. */
  lemma {:induction false} ChainOverChained(b: seq<TreeNode>, base: nat, lo: nat)
    requires base <= lo <= |b| && ChainOver(b[base..], base, |b|)
    ensures ChainedFrom(b, lo)
    decreases |b| - lo
  {
    if lo < |b| {
      assert b[base..][lo - base] == b[lo];
      ChainOverChained(b, base, lo + 1);
    }
  }

  /** Builds the chain of free records over the slots `lo .. hi - 1`. */
  method FreeChain(lo: int, hi: int) returns (chain: seq<TreeNode>)
    requires lo < hi
    ensures ChainOver(chain, lo, hi)
  {
    chain := [];
    var i := lo;
    while i < hi
      invariant lo <= i <= hi && |chain| == i - lo
      invariant forall k :: 0 <= k < |chain| ==> chain[k] == FreeRecord(lo + k + 1)
    {
      chain := chain + [FreeRecord(i + 1)];
      i := i + 1;
    }
    chain := chain[hi - lo - 1 := chain[hi - lo - 1].(parent := NullNode, height := -1)];
  }

  /**
   * The pool bookkeeping: `capacity` slots, `free` threaded from `freeList`,
   * and `count` slots in use.
   */
  ghost predicate Pool(nodes: seq<TreeNode>, capacity: int, count: int, freeList: int, free: seq<int>) {
    && |nodes| == capacity && capacity > 0
    && FreeListOk(nodes, freeList, free)
    && count == capacity - |free|
  }

  /** `b` is `a` with free slots appended, and holds the same trees and proxies. */
  ghost predicate Grown(a: seq<TreeNode>, b: seq<TreeNode>, roots: set<int>, loose: set<int>) {
    && Shape(b, roots, loose, []) && ProxyMap(b) == ProxyMap(a)
    && |a| < |b| && b[..|a|] == a
    && (forall i :: |a| <= i < |b| ==> b[i].height < 0)
  }

  /** Doubling the pool: the old slots are kept, and the new ones form the free list. */
  lemma GrownPool(a: seq<TreeNode>, chain: seq<TreeNode>, roots: set<int>, loose: set<int>,
                  capacity: int, count: int, freeList: int, free: seq<int>)
    requires Shape(a, roots, loose, []) && Pool(a, capacity, count, freeList, free) && freeList == NullNode
    requires ChainOver(chain, count, 2 * capacity)
    ensures count == capacity == |a|
    ensures Grown(a, a + chain, roots, loose)
    ensures Pool(a + chain, 2 * capacity, count, count, SlotRange(count, 2 * capacity))
  {
    assert free == [];
    assert (a + chain)[..|a|] == a;
    ShapeGrow(a, chain, roots, loose);
    FreshFreeList(a + chain, |a|);
  }

  /**
   * `b` is `a` after `AllocateNode` handed out slot `x`: `x` was free (or
   * new), is now a fresh loose leaf, and nothing live in `a` changed.
   */
  ghost predicate Allocated(a: seq<TreeNode>, b: seq<TreeNode>, roots: set<int>, loose: set<int>, x: int) {
    && Shape(b, roots, loose + {x}, [])
    && 0 <= x < |b| && FreshLeaf(b[x]) && b[x].userData == NoUserData
    && (x >= |a| || a[x].height < 0)
    && x !in roots && x !in loose && x !in ProxyMap(a)
    && |a| <= |b| && (forall i :: Live(a, i) ==> b[i] == a[i])
    && ProxyMap(b) == ProxyMap(a)[x := Proxy(b[x].aabb, NoUserData)]
  }

  /** Taking the head of the free list of `b` (which is `a`, possibly grown) as a fresh leaf. */
  lemma TakenSlot(a: seq<TreeNode>, b: seq<TreeNode>, roots: set<int>, loose: set<int>,
                  capacity: int, count: int, freeList: int, free: seq<int>, n: TreeNode)
    requires Shape(b, roots, loose, []) && Pool(b, capacity, count, freeList, free) && freeList != NullNode
    requires FreshLeaf(n) && n.userData == NoUserData
    requires b == a || Grown(a, b, roots, loose)
    ensures |free| > 0 && free[0] == freeList
    ensures Allocated(a, b[freeList := n], roots, loose, freeList)
    ensures Pool(b[freeList := n], capacity, count + 1, b[freeList].Next(), free[1..])
  {
    var x := free[0];
    if b != a {
      forall i | Live(a, i)
        ensures b[i] == a[i]
      {
        assert b[..|a|][i] == b[i];
      }
    }
    Activate(b, roots, loose, x, n);
    FreeListPop(b, free[0], free, n);
  }

  /**
   * How `AllocateNode` moved the pool from `a` (free slots `freeA`) to `b`
   * (free slots `freeB`, free-list head `head`) handing out `x`: with a free
   * slot left, `x` is the old head, the list advances to its successor and
   * no other record changes; otherwise the pool doubles, `x` is the first new
   * slot and the rest of the new slots form the free list in order.
   */
  ghost predicate TakenFrom(a: seq<TreeNode>, freeA: seq<int>, b: seq<TreeNode>, freeB: seq<int>, head: int, x: int) {
    if |freeA| > 0 then
      && x == freeA[0] && 0 <= x < |a| && |b| == |a| && b == a[x := b[x]]
      && freeB == freeA[1..] && head == a[x].Next()
    else
      && x == |a| > 0 && |b| == 2 * |a| && b[..|a|] == a
      && ChainedFrom(b, |a| + 1) && freeB == SlotRange(|a| + 1, |b|)
      && head == (if |a| + 1 < |b| then |a| + 1 else NullNode)
  }

  /** Dropping the first record of a chain leaves a chain over the remaining slots. */
  lemma ChainTail(chain: seq<TreeNode>, lo: int, hi: int)
    requires ChainOver(chain, lo, hi) && lo < hi
    ensures ChainOver(chain[1..], lo + 1, hi)
  {
    forall k | 0 <= k < |chain| - 1
      ensures chain[1..][k].height == -1
      ensures chain[1..][k].Next() == (if lo + 1 + k + 1 < hi then lo + 1 + k + 1 else NullNode)
    {
      assert chain[1..][k] == chain[k + 1];
    }
  }

  /** Handing out the first slot of a pool just doubled from `a` to `c`. */
  lemma TakenAfterGrow(a: seq<TreeNode>, c: seq<TreeNode>, free: seq<int>, n: TreeNode)
    requires 0 < |a| && |c| == 2 * |a| && c[..|a|] == a
    requires ChainOver(c[|a|..], |a|, |c|) && free == SlotRange(|a|, |c|)
    ensures TakenFrom(a, [], c[|a| := n], free[1..], c[|a|].Next(), |a|)
  {
    var b, chain := c[|a| := n], c[|a|..];
    assert b[..|a|] == c[..|a|];
    assert b[|a| + 1..] == chain[1..];
    assert c[|a|] == chain[0];
    ChainTail(chain, |a|, |c|);
    ChainOverChained(b, |a| + 1, |a| + 1);
    assert free == [|a|] + SlotRange(|a| + 1, |c|);
  }

  /**
   * The state of `InsertLeaf`'s and `RemoveLeaf`'s upward walk, now at `i`
   * with `rest` left to refit, on pool `a` reached from `o`: the pool is
   * consistent and every proxy and free slot of `o` is as it was.
   */
  ghost predicate Refitting(o: seq<TreeNode>, a: seq<TreeNode>, root: int, loose: set<int>, i: int, rest: seq<int>,
                            capacity: int, count: int, freeList: int, free: seq<int>) {
    && Pool(a, capacity, count, freeList, free) && Walk(a, root, loose, i, rest)
    && SameProxies(o, a) && FreeSlotsKept(o, a)
  }

  /**
   * One round of the upward walk: balance at the head of the path, then
   * refresh the node returned.
   */
  lemma RefitStep(o: seq<TreeNode>, a: seq<TreeNode>, root: int, loose: set<int>, i: int, path: seq<int>,
                  capacity: int, count: int, freeList: int, free: seq<int>)
    requires i != NullNode && Refitting(o, a, root, loose, i, path, capacity, count, freeList, free)
    ensures |path| > 0 && path[0] == i
    ensures Shape(a, RootSet(root), loose, path) && PathOk(a, root, path)
    ensures var b := Balanced(a, root, loose, path);
            var r := BalancedRoot(a, root, path);
            var rest := [BalancedHead(a, path)] + path[1..];
            && 0 <= rest[0] < |b| && |b| == |a|
            && 0 <= b[rest[0]].child1 < |b| && 0 <= b[rest[0]].child2 < |b|
            && var c := b[rest[0] := Refreshed(b, rest[0])];
            && Refitting(o, c, r, loose, c[rest[0]].parent, rest[1..], capacity, count, freeList, free)
  {
    BalancePreserves(a, root, loose, path);
    var b := Balanced(a, root, loose, path);
    var r := BalancedRoot(a, root, path);
    var rest := [BalancedHead(a, path)] + path[1..];
    WalkStep(b, r, loose, rest);
    var c := FixedHead(b, r, rest);
    SameProxiesTrans(o, a, b);
    SameProxiesTrans(o, b, c);
    FreeSlotsKeptTrans(a, b, c);
    FreeSlotsKeptTrans(o, a, c);
    FreeListKept(a, c, freeList, free);
  }

  /**
   * `InsertLeaf`'s writes: the new parent `np` takes `sib`'s place under
   * `sib`'s old parent and gets `sib` and `leaf` as its children.
   */
  ghost function SpliceIn(a: seq<TreeNode>, leaf: int, np: int, sib: int): seq<TreeNode>
    requires 0 <= leaf < |a| && 0 <= np < |a| && 0 <= sib < |a|
    requires a[sib].parent == NullNode || 0 <= a[sib].parent < |a|
  {
    var op := a[sib].parent;
    var a1 := a[np := a[np].(parent := op, userData := NoUserData,
                             aabb := Combine(a[leaf].aabb, a[sib].aabb), height := a[sib].height + 1)];
    var a2 := if op != NullNode then a1[op := Relinked(a1[op], sib, np)] else a1;
    var a3 := a2[np := a2[np].(child1 := sib, child2 := leaf)];
    var a4 := a3[sib := a3[sib].(parent := np)];
    a4[leaf := a4[leaf].(parent := np)]
  }

  /** The writes of `InsertLeaf` make an insertion splice. */
  lemma SpliceInCase(a: seq<TreeNode>, root: int, leaf: int, np: int, sib: int, anc: seq<int>)
    requires Shape(a, RootSet(root), {leaf, np}, [])
    requires IsProxy(a, leaf) && IsProxy(a, np) && leaf != np
    requires Live(a, sib) && sib != leaf && sib != np
    requires a[sib].parent != NullNode ==>
               && PathOk(a, root, anc) && anc[0] == a[sib].parent
               && (forall k :: 0 < k < |anc| ==> a[anc[k]].height > a[a[sib].parent].height)
    ensures a[sib].parent == NullNode || 0 <= a[sib].parent < |a|
    ensures InsertCase(a, SpliceIn(a, leaf, np, sib), root, leaf, np, sib, anc)
  {
    var op := a[sib].parent;
    NodeAt(a, RootSet(root), {leaf, np}, [], sib);
    if op != NullNode {
      NodeAt(a, RootSet(root), {leaf, np}, [], op);
      assert op != sib && op != leaf && op != np;
    }
  }

  /**
   * The sibling the descent picks in pool `o`, once `np` has been allocated
   * (pool `a`): the writes of `InsertLeaf` make an insertion splice, with
   * `anc` the ancestors of the sibling's old parent.
   */
  lemma SiblingSplice(o: seq<TreeNode>, a: seq<TreeNode>, root: int, leaf: int, np: int, sib: int)
    returns (anc: seq<int>)
    requires Shape(o, RootSet(root), {leaf}, []) && IsProxy(o, leaf)
    requires WellFormedBelow(o, root) && sib in Subtree(o, root)
    requires Allocated(o, a, RootSet(root), {leaf}, np)
    ensures Live(o, sib) && a[sib] == o[sib] && a[leaf] == o[leaf]
    ensures o[sib].parent == NullNode || 0 <= o[sib].parent < |a|
    ensures 0 <= np < |a| && 0 <= leaf < |a| && np != leaf && np != sib && sib != leaf
    ensures var op := o[sib].parent; op != np && op != sib && op != leaf
    ensures InsertCase(a, SpliceIn(a, leaf, np, sib), root, leaf, np, sib, anc)
  {
    LooseNotInTree(o, RootSet(root), {leaf}, [], root, leaf);
    SubtreeFacts(o, root, sib);
    var op := o[sib].parent;
    assert {leaf} + {np} == {leaf, np};
    anc := [];
    if op != NullNode {
      NodeAt(o, RootSet(root), {leaf}, [], sib);
      anc := AncestorPath(a, root, {leaf, np}, op);
    }
    SpliceInCase(a, root, leaf, np, sib, anc);
  }

  /**
   * The insertion splice on pool `a`, which is `o` with `np` freshly
   * allocated: the tree holds `leaf` and `o`'s proxies again, with the new
   * parent and its ancestors left to refit.
   */
  lemma InsertSplice(o: seq<TreeNode>, a: seq<TreeNode>, b: seq<TreeNode>, root: int, leaf: int, np: int, sib: int,
                     anc: seq<int>, capacity: int, count: int, freeList: int, free: seq<int>)
    requires InsertCase(a, b, root, leaf, np, sib, anc) && Pool(a, capacity, count, freeList, free)
    requires np !in ProxyMap(o) && ProxyMap(a) == ProxyMap(o)[np := Proxy(a[np].aabb, NoUserData)]
    ensures var r := InsertRoot(a, root, np, sib);
            var path := InsertPath(a, np, sib, anc);
            && Pool(b, capacity, count, freeList, free)
            && Shape(b, RootSet(r), {}, path) && PathOk(b, r, path) && path[0] == np
            && ProxyMap(b) == ProxyMap(o)
  {
    InsertShape(a, b, root, leaf, np, sib, anc);
    InsertPathOk(a, b, root, leaf, np, sib, anc);
    InsertProxies(a, b, root, leaf, np, sib, anc);
    FreeListKept(a, b, freeList, free);
    AddedThenRemoved(ProxyMap(o), np, Proxy(a[np].aabb, NoUserData));
  }

  /** Adding a fresh key to a map and removing it again gives the map back. */
  lemma AddedThenRemoved(m: map<int, Proxy>, k: int, v: Proxy)
    requires k !in m
    ensures m[k := v] - {k} == m
  {
    assert (m[k := v] - {k}).Keys == m.Keys;
  }

  /** The parent, grandparent and sibling of a proxy that is not the root. */
  lemma LeafNeighbours(o: seq<TreeNode>, root: int, leaf: int)
    requires Shape(o, RootSet(root), {}, []) && IsProxy(o, leaf) && leaf != root
    ensures var p := o[leaf].parent;
            && Live(o, p) && !o[p].IsLeaf() && p != leaf
            && var gp := o[p].parent;
            && var sib := OtherChild(o[p], leaf);
            && Live(o, sib) && sib != leaf && sib != p
            && (gp == NullNode || (Live(o, gp) && !o[gp].IsLeaf() && gp != leaf && gp != p && gp != sib))
  {
    NodeAt(o, RootSet(root), {}, [], leaf);
    var p := o[leaf].parent;
    NodeAt(o, RootSet(root), {}, [], p);
    var gp := o[p].parent;
    if gp != NullNode {
      NodeAt(o, RootSet(root), {}, [], gp);
    }
  }

  /**
   * `RemoveLeaf`'s writes: the sibling of `leaf` takes its parent's place
   * under the grandparent, or becomes a root.
   */
  ghost function SpliceOut(a: seq<TreeNode>, leaf: int): seq<TreeNode>
    requires 0 <= leaf < |a| && 0 <= a[leaf].parent < |a|
    requires var p := a[leaf].parent; 0 <= OtherChild(a[p], leaf) < |a|
    requires var p := a[leaf].parent; a[p].parent == NullNode || 0 <= a[p].parent < |a|
  {
    var p := a[leaf].parent;
    var gp := a[p].parent;
    var sib := OtherChild(a[p], leaf);
    if gp != NullNode then
      var a1 := a[gp := Relinked(a[gp], p, sib)];
      a1[sib := a1[sib].(parent := gp)]
    else
      a[sib := a[sib].(parent := NullNode)]
  }

  /** `RemoveLeaf`'s writes leave the free list and the leaf's parent as they were. */
  lemma SpliceOutPool(o: seq<TreeNode>, root: int, leaf: int, capacity: int, count: int, freeList: int, free: seq<int>)
    requires Shape(o, RootSet(root), {}, []) && IsProxy(o, leaf) && leaf != root
    requires Pool(o, capacity, count, freeList, free)
    ensures 0 <= o[leaf].parent < |o|
    ensures var p := o[leaf].parent; 0 <= OtherChild(o[p], leaf) < |o|
    ensures var p := o[leaf].parent; o[p].parent == NullNode || 0 <= o[p].parent < |o|
    ensures var b := SpliceOut(o, leaf);
            Pool(b, capacity, count, freeList, free) && b[o[leaf].parent] == o[o[leaf].parent]
  {
    LeafNeighbours(o, root, leaf);
    var b := SpliceOut(o, leaf);
    assert FreeSlotsKept(o, b);
    FreeListKept(o, b, freeList, free);
  }

  /**
   * The removal splice on pool `o`, with `leaf`'s parent then freed as
   * record `n`: `leaf` is loose, `o`'s proxies are kept, and the
   * grandparent and its ancestors (`path`) are left to refit.
   */
  lemma RemoveSplice(o: seq<TreeNode>, root: int, leaf: int, n: TreeNode) returns (path: seq<int>)
    requires Shape(o, RootSet(root), {}, []) && IsProxy(o, leaf) && leaf != root
    requires 0 <= o[leaf].parent < |o| && n.height < 0
    requires var p := o[leaf].parent; 0 <= OtherChild(o[p], leaf) < |o|
    requires var p := o[leaf].parent; o[p].parent == NullNode || 0 <= o[p].parent < |o|
    ensures var p := o[leaf].parent;
            var gp := o[p].parent;
            var b := SpliceOut(o, leaf)[p := n];
            var r := if gp == NullNode then OtherChild(o[p], leaf) else root;
            && Shape(b, RootSet(r), {leaf}, if gp == NullNode then [] else path)
            && (gp != NullNode ==> PathOk(b, root, path) && path[0] == gp)
            && ProxyMap(b) == ProxyMap(o)
  {
    LeafNeighbours(o, root, leaf);
    var p := o[leaf].parent;
    var gp := o[p].parent;
    path := [];
    if gp != NullNode {
      path := AncestorPath(o, root, {}, gp);
    }
    var b := SpliceOut(o, leaf)[p := n];
    assert RemoveCase(o, b, root, leaf, path);
    RemoveShape(o, b, root, leaf, path);
    if gp != NullNode {
      RemovePathOk(o, b, root, leaf, path);
    }
    RemoveProxies(o, b, root, leaf, path);
  }

  /** The proxies whose fat box overlaps `box`. */
  ghost function Overlapping(proxies: map<int, Proxy>, box: AABB): set<int> {
    set i | i in proxies && TestOverlap(proxies[i].fatAABB, box)
  }

  /** `Query`'s pruning test is upward closed and selects the overlapping proxies. */
  lemma QueryTarget(nodes: seq<TreeNode>, q: AABB)
    ensures Upward((b: AABB) => TestOverlap(b, q))
    ensures ProxiesPassing(nodes, (b: AABB) => TestOverlap(b, q)) == Overlapping(ProxyMap(nodes), q)
  {
    forall big: AABB, small: AABB | Contains(big, small) && TestOverlap(small, q)
      ensures TestOverlap(big, q)
    {
      TestOverlapGrows(small, big, q);
    }
  }

  /** The first `n` reports of `calls` each asked the traversal to continue. */
  ghost predicate Continued(callback: (seq<int>, int) -> bool, calls: seq<int>, n: int)
    requires n <= |calls|
  {
    forall k :: 0 <= k < n ==> callback(calls[..k], calls[k])
  }

  lemma ContinuedAppend(callback: (seq<int>, int) -> bool, calls: seq<int>, x: int)
    requires Continued(callback, calls, |calls|)
    ensures Continued(callback, calls + [x], |calls|)
    ensures Continued(callback, calls + [x], |calls| + 1) <==> callback(calls, x)
  {
    var c := calls + [x];
    assert c[..|calls|] == calls;
    assert forall k :: 0 <= k < |calls| ==> c[..k] == calls[..k] && c[k] == calls[k];
  }

  /** What a traversal has reported lies in its target, and all of it once the stack is empty. */
  lemma CoveredCalls(nodes: seq<TreeNode>, keep: AABB -> bool, target: set<int>, stack: seq<int>, calls: seq<int>)
    requires StackOk(nodes, stack) && Covers(nodes, keep, target, stack, calls)
    ensures forall k :: 0 <= k < |calls| ==> calls[k] in target
    ensures stack == [] ==> (set y | y in calls) == target
  {
    forall k | 0 <= k < |calls|
      ensures calls[k] in target
    {
      assert calls[k] in (set y | y in calls);
    }
  }

  /** `RayCastInput`: the segment from `p1` towards `p2`, cut at `maxFraction`. */
  datatype RayCastInput = RayCastInput(p1: Vec2, p2: Vec2, maxFraction: real)

  /** One report of `RayCast`: the input passed, the proxy, and the callback's answer. */
  datatype RayHit = RayHit(input: RayCastInput, proxyId: int, value: real)

  /** The box of the segment from `p1` to `p1 + maxFraction * (p2 - p1)`. */
  function SegmentBox(p1: Vec2, p2: Vec2, maxFraction: real): (b: AABB)
    ensures InBox(p1, b) && InBox(p1.Plus(p2.Minus(p1).Scale(maxFraction)), b) && IsValid(b)
  {
    var t := p1.Plus(p2.Minus(p1).Scale(maxFraction));
    AABB(MinV(p1, t), MaxV(p1, t))
  }

  /** A node box survives `RayCast`'s pruning for the segment of `input`. */
  predicate Reaches(b: AABB, separated: AABB -> bool, input: RayCastInput) {
    TestOverlap(b, SegmentBox(input.p1, input.p2, input.maxFraction)) && !separated(b)
  }

  /** The proxies whose fat box survives `RayCast`'s pruning for the segment of `input`. */
  ghost function ReachedBy(proxies: map<int, Proxy>, separated: AABB -> bool, input: RayCastInput): set<int> {
    set i | i in proxies && Reaches(proxies[i].fatAABB, separated, input)
  }

  /** The clipping fraction after the reports `hits`: the last positive answer, or `f0`. */
  function LastFraction(f0: real, hits: seq<RayHit>): (f: real)
    ensures f == f0 || exists k :: 0 <= k < |hits| && hits[k].value > 0.0 && f == hits[k].value
    decreases |hits|
  {
    if hits == [] then f0
    else if hits[|hits| - 1].value > 0.0 then hits[|hits| - 1].value
    else LastFraction(f0, hits[..|hits| - 1])
  }

  /** No report answered 0 or a positive fraction: the segment was never clipped. */
  predicate AllIgnored(hits: seq<RayHit>) {
    forall k :: 0 <= k < |hits| ==> hits[k].value < 0.0
  }

  /**
   * Each report passed the segment of `input` clipped to the fraction the
   * earlier reports left, and recorded the callback's answer to it.
   */
  ghost predicate RayLog(callback: (seq<RayHit>, RayCastInput, int) -> real, input: RayCastInput, hits: seq<RayHit>) {
    forall k :: 0 <= k < |hits| ==>
      && hits[k].input == input.(maxFraction := LastFraction(input.maxFraction, hits[..k]))
      && hits[k].value == callback(hits[..k], hits[k].input, hits[k].proxyId)
  }

  lemma RayLogAppend(callback: (seq<RayHit>, RayCastInput, int) -> real, input: RayCastInput,
                     hits: seq<RayHit>, h: RayHit)
    requires RayLog(callback, input, hits)
    requires h.input == input.(maxFraction := LastFraction(input.maxFraction, hits))
    requires h.value == callback(hits, h.input, h.proxyId)
    ensures RayLog(callback, input, hits + [h])
    ensures LastFraction(input.maxFraction, hits + [h]) == if h.value > 0.0 then h.value else LastFraction(input.maxFraction, hits)
    ensures AllIgnored(hits + [h]) <==> AllIgnored(hits) && h.value < 0.0
  {
    var c := hits + [h];
    assert c[..|hits|] == hits;
    assert forall k :: 0 <= k < |hits| ==> c[..k] == hits[..k] && c[k] == hits[k];
  }

  /** With every answer ignored, the clipping fraction is the input's. */
  lemma {:induction false} IgnoredKeepsFraction(f0: real, hits: seq<RayHit>)
    requires AllIgnored(hits)
    ensures LastFraction(f0, hits) == f0
    decreases |hits|
  {
    if hits != [] {
      IgnoredKeepsFraction(f0, hits[..|hits| - 1]);
    }
  }

  /** `RayCast`'s pruning test, with separation upward closed, selects the proxies the segment reaches. */
  lemma RayTarget(nodes: seq<TreeNode>, separated: AABB -> bool, input: RayCastInput)
    ensures var keep := (b: AABB) => Reaches(b, separated, input);
            && (Upward((b: AABB) => !separated(b)) ==> Upward(keep))
            && ProxiesPassing(nodes, keep) == ReachedBy(ProxyMap(nodes), separated, input)
  {
    var seg := SegmentBox(input.p1, input.p2, input.maxFraction);
    if Upward((b: AABB) => !separated(b)) {
      forall big: AABB, small: AABB | Contains(big, small) && Reaches(small, separated, input)
        ensures Reaches(big, separated, input)
      {
        TestOverlapGrows(small, big, seg);
      }
    }
  }

  /** While every answer was ignored, the current segment is the input's. */
  lemma IgnoredReach(b: AABB, separated: AABB -> bool, input: RayCastInput, calls: seq<RayHit>)
    ensures AllIgnored(calls) ==>
              (Reaches(b, separated, input) <==>
               Reaches(b, separated, input.(maxFraction := LastFraction(input.maxFraction, calls))))
  {
    if AllIgnored(calls) {
      IgnoredKeepsFraction(input.maxFraction, calls);
    }
  }

  /**
   * Each report is of a proxy of `nodes` (listed in `ids`) whose box
   * survived the pruning for the segment it was passed.
   */
  ghost predicate Reported(nodes: seq<TreeNode>, separated: AABB -> bool, calls: seq<RayHit>, ids: seq<int>) {
    && |ids| == |calls|
    && forall k :: 0 <= k < |calls| ==>
         ids[k] == calls[k].proxyId && IsProxy(nodes, ids[k]) && Reaches(nodes[ids[k]].aabb, separated, calls[k].input)
  }

  lemma ReportedAppend(nodes: seq<TreeNode>, separated: AABB -> bool, calls: seq<RayHit>, ids: seq<int>, h: RayHit)
    requires Reported(nodes, separated, calls, ids)
    requires IsProxy(nodes, h.proxyId) && Reaches(nodes[h.proxyId].aabb, separated, h.input)
    ensures Reported(nodes, separated, calls + [h], ids + [h.proxyId])
  {
  }

  /** `RayCast`'s pruning test for the segment of `input`, before any clipping. */
  ghost function RayKeep(separated: AABB -> bool, input: RayCastInput): AABB -> bool {
    (b: AABB) => Reaches(b, separated, input)
  }

  /**
   * The state of `RayCast`'s loop: the traversal bookkeeping, the reports
   * so far (none answered 0), the current clipping fraction, and, while no
   * answer was used and separation is upward closed, coverage of the
   * proxies the unclipped segment reaches.
   */
  ghost predicate RayState(nodes: seq<TreeNode>, callback: (seq<RayHit>, RayCastInput, int) -> real,
                           separated: AABB -> bool, input: RayCastInput,
                           stack: seq<int>, calls: seq<RayHit>, ids: seq<int>, maxFraction: real) {
    && Walked(nodes, stack, ids) && Reported(nodes, separated, calls, ids)
    && RayLog(callback, input, calls) && (forall k :: 0 <= k < |calls| ==> calls[k].value != 0.0)
    && maxFraction == LastFraction(input.maxFraction, calls)
    && (Upward(RayKeep(separated, input)) && AllIgnored(calls) ==>
          Covers(nodes, RayKeep(separated, input), ProxiesPassing(nodes, RayKeep(separated, input)), stack, ids))
  }

  lemma RayStart(nodes: seq<TreeNode>, root: int, callback: (seq<RayHit>, RayCastInput, int) -> real,
                 separated: AABB -> bool, input: RayCastInput)
    requires Shape(nodes, RootSet(root), {}, [])
    ensures RayState(nodes, callback, separated, input, [root], [], [], input.maxFraction)
  {
    StartWalk(nodes, root, RayKeep(separated, input));
  }

  lemma RayNull(nodes: seq<TreeNode>, callback: (seq<RayHit>, RayCastInput, int) -> real,
                separated: AABB -> bool, input: RayCastInput,
                stack: seq<int>, calls: seq<RayHit>, ids: seq<int>, maxFraction: real)
    requires RayState(nodes, callback, separated, input, stack, calls, ids, maxFraction)
    requires |stack| > 0 && stack[|stack| - 1] == NullNode
    ensures var rest := stack[..|stack| - 1];
            && RayState(nodes, callback, separated, input, rest, calls, ids, maxFraction)
            && StackNodes(nodes, rest) == StackNodes(nodes, stack)
  {
    StepNull(nodes, RayKeep(separated, input), ProxiesPassing(nodes, RayKeep(separated, input)), stack, ids);
  }

  /** A non-null entry is a live slot below which the tree is well formed. */
  lemma RayLive(nodes: seq<TreeNode>, callback: (seq<RayHit>, RayCastInput, int) -> real,
                separated: AABB -> bool, input: RayCastInput,
                stack: seq<int>, calls: seq<RayHit>, ids: seq<int>, maxFraction: real)
    requires RayState(nodes, callback, separated, input, stack, calls, ids, maxFraction)
    requires |stack| > 0 && stack[|stack| - 1] != NullNode
    ensures Live(nodes, stack[|stack| - 1]) && LinksOk(nodes, stack[|stack| - 1])
  {
    assert WellFormedBelow(nodes, stack[|stack| - 1]);
  }

  lemma RayPrune(nodes: seq<TreeNode>, callback: (seq<RayHit>, RayCastInput, int) -> real,
                 separated: AABB -> bool, input: RayCastInput,
                 stack: seq<int>, calls: seq<RayHit>, ids: seq<int>, maxFraction: real)
    requires RayState(nodes, callback, separated, input, stack, calls, ids, maxFraction)
    requires |stack| > 0 && Live(nodes, stack[|stack| - 1])
    requires var b := nodes[stack[|stack| - 1]].aabb;
             !TestOverlap(b, SegmentBox(input.p1, input.p2, maxFraction)) || separated(b)
    ensures var rest := stack[..|stack| - 1];
            && RayState(nodes, callback, separated, input, rest, calls, ids, maxFraction)
            && |StackNodes(nodes, rest)| < |StackNodes(nodes, stack)|
  {
    var keep := RayKeep(separated, input);
    IgnoredReach(nodes[stack[|stack| - 1]].aabb, separated, input, calls);
    StepPrune(nodes, keep, ProxiesPassing(nodes, keep), stack, ids);
  }

  lemma RayLeaf(nodes: seq<TreeNode>, callback: (seq<RayHit>, RayCastInput, int) -> real,
                separated: AABB -> bool, input: RayCastInput,
                stack: seq<int>, calls: seq<RayHit>, ids: seq<int>, maxFraction: real)
    requires RayState(nodes, callback, separated, input, stack, calls, ids, maxFraction)
    requires |stack| > 0 && Live(nodes, stack[|stack| - 1]) && nodes[stack[|stack| - 1]].IsLeaf()
    requires var b := nodes[stack[|stack| - 1]].aabb;
             TestOverlap(b, SegmentBox(input.p1, input.p2, maxFraction)) && !separated(b)
    ensures var rest := stack[..|stack| - 1];
            var x := stack[|stack| - 1];
            var sub := RayCastInput(input.p1, input.p2, maxFraction);
            var h := RayHit(sub, x, callback(calls, sub, x));
            var f := if h.value > 0.0 then h.value else maxFraction;
            && (h.value != 0.0 ==> RayState(nodes, callback, separated, input, rest, calls + [h], ids + [x], f))
            && |StackNodes(nodes, rest)| < |StackNodes(nodes, stack)|
            && Reported(nodes, separated, calls + [h], ids + [x]) && RayLog(callback, input, calls + [h])
            && (forall k, l :: 0 <= k < l < |ids| + 1 ==> (ids + [x])[k] != (ids + [x])[l])
            && (forall k :: 0 <= k < |calls| ==> (calls + [h])[k].value != 0.0)
            && (h.value == 0.0 ==> !AllIgnored(calls + [h]))
  {
    var keep := RayKeep(separated, input);
    var x := stack[|stack| - 1];
    var sub := RayCastInput(input.p1, input.p2, maxFraction);
    var h := RayHit(sub, x, callback(calls, sub, x));
    StepLeaf(nodes, keep, ProxiesPassing(nodes, keep), stack, ids);
    IgnoredReach(nodes[x].aabb, separated, input, calls);
    RayLogAppend(callback, input, calls, h);
    ReportedAppend(nodes, separated, calls, ids, h);
  }

  lemma RayInternal(nodes: seq<TreeNode>, callback: (seq<RayHit>, RayCastInput, int) -> real,
                    separated: AABB -> bool, input: RayCastInput,
                    stack: seq<int>, calls: seq<RayHit>, ids: seq<int>, maxFraction: real)
    requires RayState(nodes, callback, separated, input, stack, calls, ids, maxFraction)
    requires |stack| > 0 && Live(nodes, stack[|stack| - 1]) && !nodes[stack[|stack| - 1]].IsLeaf()
    ensures var x := stack[|stack| - 1];
            var next := stack[..|stack| - 1] + [nodes[x].child1, nodes[x].child2];
            && RayState(nodes, callback, separated, input, next, calls, ids, maxFraction)
            && |StackNodes(nodes, next)| < |StackNodes(nodes, stack)|
  {
    var keep := RayKeep(separated, input);
    StepInternal(nodes, keep, ProxiesPassing(nodes, keep), stack, ids);
  }

  lemma RayDone(nodes: seq<TreeNode>, callback: (seq<RayHit>, RayCastInput, int) -> real,
                separated: AABB -> bool, input: RayCastInput,
                calls: seq<RayHit>, ids: seq<int>, maxFraction: real)
    requires RayState(nodes, callback, separated, input, [], calls, ids, maxFraction)
    ensures Upward(RayKeep(separated, input)) && AllIgnored(calls) ==>
              (set y | y in ids) == ProxiesPassing(nodes, RayKeep(separated, input))
  {
    var keep := RayKeep(separated, input);
    if Upward(keep) && AllIgnored(calls) {
      CoveredCalls(nodes, keep, ProxiesPassing(nodes, keep), [], ids);
    }
  }

  /** `RayCast`'s reports, read back in terms of the proxies. */
  lemma RayCastReport(nodes: seq<TreeNode>, separated: AABB -> bool, input: RayCastInput,
                      calls: seq<RayHit>, ids: seq<int>)
    requires Reported(nodes, separated, calls, ids)
    requires forall k, l :: 0 <= k < l < |ids| ==> ids[k] != ids[l]
    requires Upward(RayKeep(separated, input)) && AllIgnored(calls) ==>
               (set y | y in ids) == ProxiesPassing(nodes, RayKeep(separated, input))
    ensures forall k :: 0 <= k < |calls| ==>
              calls[k].proxyId in ProxyMap(nodes) &&
              Reaches(ProxyMap(nodes)[calls[k].proxyId].fatAABB, separated, calls[k].input)
    ensures forall k, l :: 0 <= k < l < |calls| ==> calls[k].proxyId != calls[l].proxyId
    ensures Upward((b: AABB) => !separated(b)) && AllIgnored(calls) ==>
              (set k | 0 <= k < |calls| :: calls[k].proxyId) == ReachedBy(ProxyMap(nodes), separated, input)
  {
    RayTarget(nodes, separated, input);
    if Upward((b: AABB) => !separated(b)) && AllIgnored(calls) {
      assert (set k | 0 <= k < |calls| :: calls[k].proxyId) == (set y | y in ids) by {
        forall y | y in ids
          ensures y in (set k | 0 <= k < |calls| :: calls[k].proxyId)
        {
          var k :| 0 <= k < |ids| && ids[k] == y;
        }
      }
    }
  }

  /** `CreateProxy`'s labelling of the slot `AllocateNode` handed out. */
  lemma LabelNewLeaf(o: seq<TreeNode>, a: seq<TreeNode>, root: int, x: int, box: AABB, ud: UserData,
                     capacity: int, count: int, freeList: int, free: seq<int>)
    requires Allocated(o, a, RootSet(root), {}, x) && Pool(a, capacity, count, freeList, free)
    ensures var b := a[x := a[x].(aabb := box, userData := ud, height := 0)];
            && Pool(b, capacity, count, freeList, free) && Shape(b, RootSet(root), {x}, []) && IsProxy(b, x)
            && ProxyMap(b) == ProxyMap(o)[x := Proxy(box, ud)]
  {
    assert {} + {x} == {x};
    var b := a[x := a[x].(aabb := box, userData := ud)];
    assert a[x := a[x].(aabb := box, userData := ud, height := 0)] == b;
    RelabelLoose(a, RootSet(root), {x}, x, box, ud);
    FreeListKept(a, b, freeList, free);
  }

  /** `MoveProxy`'s new box for the loose proxy `x`. */
  lemma RelabelProxy(a: seq<TreeNode>, root: int, x: int, box: AABB,
                     capacity: int, count: int, freeList: int, free: seq<int>)
    requires Shape(a, RootSet(root), {x}, []) && Pool(a, capacity, count, freeList, free)
    ensures var b := a[x := a[x].(aabb := box)];
            && Pool(b, capacity, count, freeList, free) && Shape(b, RootSet(root), {x}, []) && IsProxy(b, x)
            && ProxyMap(b) == ProxyMap(a)[x := Proxy(box, a[x].userData)]
  {
    var b := a[x := a[x].(aabb := box, userData := a[x].userData)];
    assert a[x := a[x].(aabb := box)] == b;
    NodeAt(a, RootSet(root), {x}, [], x);
    RelabelLoose(a, RootSet(root), {x}, x, box, a[x].userData);
    FreeListKept(a, b, freeList, free);
  }

  /** The strip loop's state: the pool is consistent and stripped up to slot `i`. */
  ghost predicate StrippedPool(o: seq<TreeNode>, a: seq<TreeNode>, i: int, leaves: seq<int>,
                               capacity: int, count: int, freeList: int, free: seq<int>) {
    Pool(a, capacity, count, freeList, free) && capacity == |o| && Stripped(o, a, i, leaves)
  }

  /** `StripLeaf` on a pool: cutting a proxy loose keeps the pool bookkeeping. */
  lemma StripLeafPool(o: seq<TreeNode>, a: seq<TreeNode>, i: int, leaves: seq<int>,
                      capacity: int, count: int, freeList: int, free: seq<int>)
    requires StrippedPool(o, a, i, leaves, capacity, count, freeList, free) && i < |o| && IsProxy(a, i)
    ensures var b := a[i := a[i].(parent := NullNode)];
            StrippedPool(o, b, i + 1, leaves + [i], capacity, count, freeList, free)
  {
    StripLeaf(o, a, i, leaves);
    FreeListKept(a, a[i := a[i].(parent := NullNode)], freeList, free);
  }

  /** A pool holding one non-empty tree has exactly its proxies as the root's leaves. */
  lemma RootCoversProxies(nodes: seq<TreeNode>, root: int)
    requires Shape(nodes, RootSet(root), {}, []) && root != NullNode
    ensures WellFormedBelow(nodes, root) && Leaves(nodes, root) == ProxyMap(nodes).Keys
  {
    WellFormedOffPath(nodes, RootSet(root), {}, NullNode, [], root);
    LeavesInSubtree(nodes, root);
    forall y | y in Subtree(nodes, root)
      ensures Live(nodes, y)
    {
      SubtreeFacts(nodes, root, y);
    }
    forall y | IsProxy(nodes, y)
      ensures y in Subtree(nodes, root)
    {
      ReachSingleRoot(nodes, root, {}, y);
    }
  }

  /** A non-empty tree holds at least one proxy, which is not one of the loose leaves. */
  lemma SomeProxy(nodes: seq<TreeNode>, root: int, loose: set<int>) returns (y: int)
    requires Shape(nodes, RootSet(root), loose, []) && root != NullNode
    ensures y in ProxyMap(nodes) && y !in loose
  {
    WellFormedOffPath(nodes, RootSet(root), loose, NullNode, [], root);
    SomeProxyBelow(nodes, root);
    y :| y in Subtree(nodes, root) && IsProxy(nodes, y);
    if y in loose {
      LooseNotInTree(nodes, RootSet(root), loose, [], root, y);
    }
  }

  /** A tree holding two proxies is not rooted at either of them. */
  lemma RootOfTwo(nodes: seq<TreeNode>, root: int, x: int, y: int)
    requires Shape(nodes, RootSet(root), {}, []) && root != NullNode
    requires x in ProxyMap(nodes) && y in ProxyMap(nodes) && x != y
    ensures root != x && root != y
  {
    RootCoversProxies(nodes, root);
  }

  /** The listed roots of a forest are slots of the pool. */
  lemma RootsInPool(nodes: seq<TreeNode>, list: seq<int>, count: int)
    requires Forest(nodes, list, count)
    ensures InPool(nodes, list, count)
  {
    forall k | 0 <= k < count
      ensures 0 <= list[k] < |nodes|
    {
      assert list[..count][k] == list[k] && list[k] in Members(list[..count]);
    }
  }

  /**
   * The records `JoinUnderNewParent` leaves in `c`, compared with the pool
   * `a` before the allocation: the new parent `p` over `i1` and `i2` with
   * their combined box and height, both pointing back to it, and every
   * other live record as it was.
   */
  ghost predicate JoinedFrom(a: seq<TreeNode>, c: seq<TreeNode>, p: int, i1: int, i2: int) {
    && Live(a, i1) && Live(a, i2) && |a| <= |c| && 0 <= p < |c| && p != i1 && p != i2
    && c[p].child1 == i1 && c[p].child2 == i2 && c[p].parent == NullNode && c[p].userData == NoUserData
    && c[p].aabb == Combine(a[i1].aabb, a[i2].aabb) && c[p].height == 1 + MaxInt(a[i1].height, a[i2].height)
    && c[i1] == a[i1].(parent := p) && c[i2] == a[i2].(parent := p)
    && forall i :: Live(a, i) && i != i1 && i != i2 ==> c[i] == a[i]
  }

  lemma JoinedRecords(a: seq<TreeNode>, b: seq<TreeNode>, roots: set<int>, p: int, i1: int, i2: int)
    requires Shape(a, roots, {}, []) && Allocated(a, b, roots, {}, p) && i1 in roots && i2 in roots && i1 != i2
    ensures JoinedFrom(a, Joined(b, p, i1, i2), p, i1, i2)
  {
  }

  /**
   * One round of phase two of `RebuildBottomUp`, from the pool `a` before the
   * parent `p` was allocated: after the join the forest has one root fewer,
   * the same proxies, and consistent pool bookkeeping.
   */
  lemma JoinStep(a: seq<TreeNode>, b: seq<TreeNode>, roots: set<int>, p: int, i1: int, i2: int,
                 capacity: int, count: int, freeList: int, free: seq<int>)
    requires Allocated(a, b, roots, {}, p) && Pool(b, capacity, count, freeList, free)
    requires i1 in roots && i2 in roots && i1 != i2
    ensures Live(b, i1) && Live(b, i2) && p !in roots
    ensures var c := Joined(b, p, i1, i2);
            && Shape(c, roots - {i1, i2} + {p}, {}, []) && ProxyMap(c) == ProxyMap(a)
            && Pool(c, capacity, count, freeList, free)
  {
    assert {} + {p} == {p};
    var c := Joined(b, p, i1, i2);
    JoinRoots(b, roots, p, i1, i2);
    FreeListKept(b, c, freeList, free);
    AddedThenRemoved(ProxyMap(a), p, Proxy(b[p].aabb, NoUserData));
  }

  /** The pool after `ShiftOrigin`: every slot's box moved by `-origin`, nothing else touched. */
  ghost function ShiftedPool(a: seq<TreeNode>, origin: Vec2): (b: seq<TreeNode>)
    ensures |b| == |a|
  {
    seq(|a|, i requires 0 <= i < |a| => a[i].(aabb := Shift(a[i].aabb, origin)))
  }

  /** Every proxy's fat box moved by `-origin`. */
  ghost function ShiftedProxies(proxies: map<int, Proxy>, origin: Vec2): map<int, Proxy> {
    map i | i in proxies :: proxies[i].(fatAABB := Shift(proxies[i].fatAABB, origin))
  }

  /** Moving every box keeps the invariant of each live slot. */
  lemma ShiftedNode(a: seq<TreeNode>, root: int, origin: Vec2, i: int)
    requires Shape(a, RootSet(root), {}, []) && Live(a, i)
    ensures NodeOk(ShiftedPool(a, origin), RootSet(root), {}, [], i)
  {
    var b := ShiftedPool(a, origin);
    assert NodeOk(a, RootSet(root), {}, [], i);
    if !a[i].IsLeaf() {
      var c1, c2 := a[i].child1, a[i].child2;
      assert b[c1].aabb == Shift(a[c1].aabb, origin) && b[c2].aabb == Shift(a[c2].aabb, origin);
      ShiftCombine(a[c1].aabb, a[c2].aabb, origin);
    }
    if i !in RootSet(root) {
      assert ParentOk(a, i);
    }
  }

  /** Moving every box keeps the pool's links, counts and free list, and moves every proxy. */
  lemma ShiftedShape(a: seq<TreeNode>, root: int, origin: Vec2,
                     capacity: int, count: int, freeList: int, free: seq<int>)
    requires Shape(a, RootSet(root), {}, []) && Pool(a, capacity, count, freeList, free)
    ensures Shape(ShiftedPool(a, origin), RootSet(root), {}, [])
    ensures Pool(ShiftedPool(a, origin), capacity, count, freeList, free)
    ensures ProxyMap(ShiftedPool(a, origin)) == ShiftedProxies(ProxyMap(a), origin)
  {
    var b := ShiftedPool(a, origin);
    forall i | Live(b, i)
      ensures NodeOk(b, RootSet(root), {}, [], i)
    {
      ShiftedNode(a, root, origin, i);
    }
    assert FreeListOk(b, freeList, free);
    assert ProxyMap(b).Keys == ProxyMap(a).Keys;
  }

  /** Shifting by `origin` and then by its opposite restores every proxy. */
  lemma ShiftBack(proxies: map<int, Proxy>, origin: Vec2)
    ensures ShiftedProxies(ShiftedProxies(proxies, origin), Vec2(-origin.x, -origin.y)) == proxies
  {
    var back := ShiftedProxies(ShiftedProxies(proxies, origin), Vec2(-origin.x, -origin.y));
    forall i | i in proxies
      ensures back[i] == proxies[i]
    {
      var b := proxies[i].fatAABB;
      assert Shift(Shift(b, origin), Vec2(-origin.x, -origin.y)).lowerBound == b.lowerBound;
      assert Shift(Shift(b, origin), Vec2(-origin.x, -origin.y)).upperBound == b.upperBound;
    }
  }

  /** After a shift, a query with the shifted box finds exactly the proxies found before. */
  lemma ShiftKeepsOverlapping(proxies: map<int, Proxy>, origin: Vec2, q: AABB)
    ensures Overlapping(ShiftedProxies(proxies, origin), Shift(q, origin)) == Overlapping(proxies, q)
  {
    forall i | i in proxies
      ensures TestOverlap(Shift(proxies[i].fatAABB, origin), Shift(q, origin)) == TestOverlap(proxies[i].fatAABB, q)
    {
      TestOverlapShift(proxies[i].fatAABB, q, origin);
    }
  }

  /** `CreateProxy`'s fat box: the tight box grown by `extension` on every side. */
  function Fattened(aabb: AABB, extension: real): (f: AABB)
    ensures extension >= 0.0 ==> Contains(f, aabb)
    ensures f.upperBound.x - f.lowerBound.x == aabb.upperBound.x - aabb.lowerBound.x + 2.0 * extension
    ensures f.upperBound.y - f.lowerBound.y == aabb.upperBound.y - aabb.lowerBound.y + 2.0 * extension
  {
    var r := Vec2(extension, extension);
    AABB(aabb.lowerBound.Minus(r), aabb.upperBound.Plus(r))
  }

  /** The box `a` moved by `d`. */
  function Translated(a: AABB, d: Vec2): AABB {
    AABB(a.lowerBound.Plus(d), a.upperBound.Plus(d))
  }

  /**
   * `MoveProxy`'s new box: the fat box stretched, on the side the proxy is
   * moving to, by `multiplier` times the displacement. It encloses the fat
   * box both where it is and where the displacement takes it.
   */
  function Predicted(aabb: AABB, displacement: Vec2, extension: real, multiplier: real): (b: AABB)
    ensures Contains(b, Fattened(aabb, extension))
    ensures Contains(b, Translated(Fattened(aabb, extension), displacement.Scale(multiplier)))
  {
    var fat := Fattened(aabb, extension);
    var d := displacement.Scale(multiplier);
    var lo := fat.lowerBound;
    var hi := fat.upperBound;
    var lo1 := if d.x < 0.0 then lo.(x := lo.x + d.x) else lo;
    var hi1 := if d.x < 0.0 then hi else hi.(x := hi.x + d.x);
    var lo2 := if d.y < 0.0 then lo1.(y := lo1.y + d.y) else lo1;
    var hi2 := if d.y < 0.0 then hi1 else hi1.(y := hi1.y + d.y);
    AABB(lo2, hi2)
  }

  /** `MoveProxy`'s computation of the predicted fat box. */
  method PredictedBox(aabb: AABB, displacement: Vec2, extension: real, multiplier: real) returns (b: AABB)
    ensures b == Predicted(aabb, displacement, extension, multiplier)
  {
    // Grow the tight box by the margin on every side.
    var r := Vec2(extension, extension);
    var lower := aabb.lowerBound.Minus(r);
    var upper := aabb.upperBound.Plus(r);

    // Stretch the box in the direction the proxy is expected to move.
    var d := displacement.Scale(multiplier);
    if d.x < 0.0 {
      lower := lower.(x := lower.x + d.x);
    } else {
      upper := upper.(x := upper.x + d.x);
    }
    if d.y < 0.0 {
      lower := lower.(y := lower.y + d.y);
    } else {
      upper := upper.(y := upper.y + d.y);
    }
    b := AABB(lower, upper);
  }

  /**
   * `InsertLeaf`'s cost of pushing the new leaf below `child` rather than
   * pairing it with `child`'s ancestor, given the inherited cost.
   */
  function DescentCost(nodes: seq<TreeNode>, child: int, leafAABB: AABB, inheritanceCost: real): real
    requires 0 <= child < |nodes|
  {
    var aabb := Combine(leafAABB, nodes[child].aabb);
    if nodes[child].IsLeaf() then Perimeter(aabb) + inheritanceCost
    else Perimeter(aabb) - Perimeter(nodes[child].aabb) + inheritanceCost
  }

  /** `InsertLeaf`'s cost of giving `index` and the new leaf a new common parent. */
  function PairCost(nodes: seq<TreeNode>, index: int, leafAABB: AABB): real
    requires 0 <= index < |nodes|
  {
    2.0 * Perimeter(Combine(nodes[index].aabb, leafAABB))
  }

  /** `InsertLeaf`'s lower bound on the cost of descending below `index`. */
  function InheritanceCost(nodes: seq<TreeNode>, index: int, leafAABB: AABB): real
    requires 0 <= index < |nodes|
  {
    2.0 * (Perimeter(Combine(nodes[index].aabb, leafAABB)) - Perimeter(nodes[index].aabb))
  }

  /** The descent of `InsertLeaf` stops at internal node `index`. */
  predicate StopsAt(nodes: seq<TreeNode>, index: int, leafAABB: AABB)
    requires 0 <= index < |nodes| && 0 <= nodes[index].child1 < |nodes| && 0 <= nodes[index].child2 < |nodes|
  {
    var inherit := InheritanceCost(nodes, index, leafAABB);
    var cost := PairCost(nodes, index, leafAABB);
    cost < DescentCost(nodes, nodes[index].child1, leafAABB, inherit)
    && cost < DescentCost(nodes, nodes[index].child2, leafAABB, inherit)
  }

  /**
   * Where `InsertLeaf`'s descent from `index` ends for a leaf with box
   * `leafAABB`: at a leaf, or at an internal node where pairing is cheaper
   * than descending into either child; otherwise it descends into the
   * cheaper child (child2 on a tie).
   */
  function Descend(nodes: seq<TreeNode>, index: int, leafAABB: AABB): (s: int)
    requires WellFormedBelow(nodes, index)
    ensures WellFormedBelow(nodes, s) && s in Subtree(nodes, index)
    ensures nodes[s].IsLeaf() || StopsAt(nodes, s, leafAABB)
    decreases nodes[index].height
  {
    if nodes[index].IsLeaf() || StopsAt(nodes, index, leafAABB) then index
    else
      var inherit := InheritanceCost(nodes, index, leafAABB);
      var child1, child2 := nodes[index].child1, nodes[index].child2;
      if DescentCost(nodes, child1, leafAABB, inherit) < DescentCost(nodes, child2, leafAABB, inherit)
      then Descend(nodes, child1, leafAABB)
      else Descend(nodes, child2, leafAABB)
  }

  /**
   * The cost comparison of one step of `InsertLeaf`'s descent at internal
   * node `index`: whether to stop there, and otherwise the child to descend into.
   */
  method DescentChoice(nodes: seq<TreeNode>, index: int, leafAABB: AABB) returns (stop: bool, next: int)
    requires 0 <= index < |nodes| && !nodes[index].IsLeaf()
    requires 0 <= nodes[index].child1 < |nodes| && 0 <= nodes[index].child2 < |nodes|
    ensures stop == StopsAt(nodes, index, leafAABB)
    ensures var inherit := InheritanceCost(nodes, index, leafAABB);
            var child1, child2 := nodes[index].child1, nodes[index].child2;
            next == if DescentCost(nodes, child1, leafAABB, inherit) < DescentCost(nodes, child2, leafAABB, inherit)
                    then child1 else child2
  {
    var child1 := nodes[index].child1;
    var child2 := nodes[index].child2;
    var area := Perimeter(nodes[index].aabb);
    var combinedArea := Perimeter(Combine(nodes[index].aabb, leafAABB));
    // Pairing the leaf with this node here costs twice the joint perimeter.
    var cost := 2.0 * combinedArea;
    // Going lower adds at least the growth of this node's perimeter.
    var inheritanceCost := 2.0 * (combinedArea - area);
    var cost1;
    if nodes[child1].IsLeaf() {
      cost1 := Perimeter(Combine(leafAABB, nodes[child1].aabb)) + inheritanceCost;
    } else {
      var oldArea := Perimeter(nodes[child1].aabb);
      var newArea := Perimeter(Combine(leafAABB, nodes[child1].aabb));
      cost1 := newArea - oldArea + inheritanceCost;
    }
    var cost2;
    if nodes[child2].IsLeaf() {
      cost2 := Perimeter(Combine(leafAABB, nodes[child2].aabb)) + inheritanceCost;
    } else {
      var oldArea := Perimeter(nodes[child2].aabb);
      var newArea := Perimeter(Combine(leafAABB, nodes[child2].aabb));
      cost2 := newArea - oldArea + inheritanceCost;
    }
    assert cost == PairCost(nodes, index, leafAABB);
    assert inheritanceCost == InheritanceCost(nodes, index, leafAABB);
    assert cost1 == DescentCost(nodes, child1, leafAABB, inheritanceCost);
    assert cost2 == DescentCost(nodes, child2, leafAABB, inheritanceCost);
    stop := cost < cost1 && cost < cost2;
    next := if cost1 < cost2 then child1 else child2;
  }

  /** One step of the descent: below a node where it does not stop, it goes on from the cheaper child. */
  lemma DescendStep(nodes: seq<TreeNode>, index: int, leafAABB: AABB)
    requires WellFormedBelow(nodes, index) && !nodes[index].IsLeaf() && !StopsAt(nodes, index, leafAABB)
    ensures var inherit := InheritanceCost(nodes, index, leafAABB);
            var child1, child2 := nodes[index].child1, nodes[index].child2;
            var next := if DescentCost(nodes, child1, leafAABB, inherit) < DescentCost(nodes, child2, leafAABB, inherit)
                        then child1 else child2;
            && WellFormedBelow(nodes, next) && nodes[next].height < nodes[index].height
            && Descend(nodes, next, leafAABB) == Descend(nodes, index, leafAABB)
  {
  }

  /**
   * One row of `RebuildBottomUp`'s pair search: every pair `(i, j)` with
   * `i < j < count`, keeping the first pair of least cost seen so far.
   */
  method SearchPairsFrom(pool: seq<TreeNode>, nodes: seq<int>, count: int, i: int,
                         found: bool, iMin: int, jMin: int, minCost: real)
    returns (found': bool, iMin': int, jMin': int, minCost': real)
    requires InPool(pool, nodes, count) && 0 <= i < count
    requires Searched(pool, nodes, count, i, i + 1, found, iMin, jMin, minCost)
    ensures Searched(pool, nodes, count, i + 1, i + 2, found', iMin', jMin', minCost')
  {
    found', iMin', jMin', minCost' := found, iMin, jMin, minCost;
    for j := i + 1 to count
      invariant Searched(pool, nodes, count, i, j, found', iMin', jMin', minCost')
    {
      var cost := JoinCost(pool, nodes[i], nodes[j]);
      if !found' || cost < minCost' {
        SearchTake(pool, nodes, count, i, j, found', iMin', jMin', minCost');
        iMin', jMin', minCost', found' := i, j, cost, true;
      } else {
        SearchKeep(pool, nodes, count, i, j, found', iMin', jMin', minCost');
      }
    }
    SearchRow(pool, nodes, count, i, found', iMin', jMin', minCost');
  }

  /**
   * The pair search of `RebuildBottomUp`: among the first `count` listed
   * subtrees, the pair whose union has the least perimeter, the first
   * such pair in row order.
   */
  method ClosestPair(pool: seq<TreeNode>, nodes: seq<int>, count: int) returns (iMin: int, jMin: int)
    requires 2 <= count && InPool(pool, nodes, count)
    ensures 0 <= iMin < jMin < count
    ensures forall p, q :: 0 <= p < q < count ==>
              JoinCost(pool, nodes[iMin], nodes[jMin]) <= JoinCost(pool, nodes[p], nodes[q])
    ensures forall p, q :: 0 <= p < q < count && Before(p, q, iMin, jMin) ==>
              JoinCost(pool, nodes[iMin], nodes[jMin]) < JoinCost(pool, nodes[p], nodes[q])
  {
    var found := false;
    var minCost := 0.0;
    iMin, jMin := -1, -1;
    SearchStart(pool, nodes, count);
    for i := 0 to count
      invariant Searched(pool, nodes, count, i, i + 1, found, iMin, jMin, minCost)
    {
      found, iMin, jMin, minCost := SearchPairsFrom(pool, nodes, count, i, found, iMin, jMin, minCost);
    }
    SearchDone(pool, nodes, count, found, iMin, jMin, minCost);
  }

  class DynamicTree {
    var freeList: int
    var nodeCapacity: int
    var nodeCount: int
    var root: int
    var treeNodes: seq<TreeNode>
    /** The slots of the free list, in list order. */
    ghost var freeSlots: seq<int>
    /** `Settings.AABBExtension`: how far a proxy's box is fattened. */
    const aabbExtension: real
    /** `Settings.AABBMultiplier`: how far a moving proxy's box is stretched ahead. */
    const aabbMultiplier: real

    /** The pool: capacity, free list and node count agree. */
    ghost predicate PoolOk()
      reads this
    {
      Pool(treeNodes, nodeCapacity, nodeCount, freeList, freeSlots)
    }

    /** Between public operations: the pool is consistent and holds one well-formed tree. */
    ghost predicate Valid()
      reads this
    {
      && PoolOk() && aabbExtension > 0.0 && aabbMultiplier > 0.0
      && Shape(treeNodes, RootSet(root), {}, [])
    }

    /** The proxies: proxy id to fat box and user data. */
    ghost function Proxies(): map<int, Proxy>
      reads this
    {
      ProxyMap(treeNodes)
    }

    /** An empty tree with 16 free slots chained in order. */
    constructor (extension: real, multiplier: real)
      requires extension > 0.0 && multiplier > 0.0
      ensures Valid() && Proxies() == map[]
      ensures root == NullNode && nodeCount == 0 && nodeCapacity == 16 && freeList == 0
      ensures ChainOver(treeNodes, 0, 16) && freeSlots == SlotRange(0, 16)
      ensures aabbExtension == extension && aabbMultiplier == multiplier
    {
      aabbExtension := extension;
      aabbMultiplier := multiplier;
      root := NullNode;
      var capacity := 16;
      nodeCapacity := capacity;
      nodeCount := 0;
      var nodes := FreeChain(0, capacity);
      treeNodes := nodes;
      freeList := 0;
      freeSlots := SlotRange(0, capacity);
      new;
      FreshFreeList(treeNodes, 0);
      assert ProxyMap(treeNodes).Keys == {};
    }

    /**
     * The pool is full: doubles it, keeping the old slots and chaining the
     * new ones into the free list.
     */
    method GrowPool(ghost roots: set<int>, ghost loose: set<int>)
      requires PoolOk() && Shape(treeNodes, roots, loose, []) && freeList == NullNode
      modifies this
      ensures PoolOk() && Grown(old(treeNodes), treeNodes, roots, loose)
      ensures nodeCapacity == 2 * old(nodeCapacity) && freeList == old(nodeCount) == old(nodeCapacity)
      ensures treeNodes[..old(nodeCapacity)] == old(treeNodes)
      ensures ChainOver(treeNodes[old(nodeCapacity)..], old(nodeCapacity), nodeCapacity)
      ensures freeSlots == SlotRange(old(nodeCapacity), nodeCapacity)
      ensures nodeCount == old(nodeCount) && root == old(root)
    {
      var count, capacity := nodeCount, nodeCapacity * 2;
      var chain := FreeChain(count, capacity);
      GrownPool(treeNodes, chain, roots, loose, nodeCapacity, count, freeList, freeSlots);
      ghost var slots := SlotRange(count, capacity);
      treeNodes, nodeCapacity, freeList, freeSlots := treeNodes + chain, capacity, count, slots;
    }

    /**
     * Takes the head of the free list, growing the pool first when the list
     * is empty, and turns it into a fresh leaf that hangs in no tree.
     */
    method AllocateNode(ghost roots: set<int>, ghost loose: set<int>) returns (nodeId: int)
      requires PoolOk() && Shape(treeNodes, roots, loose, [])
      modifies this
      ensures PoolOk() && Allocated(old(treeNodes), treeNodes, roots, loose, nodeId)
      ensures old(freeList) != NullNode ==> nodeId == old(freeList) && nodeCapacity == old(nodeCapacity)
      ensures old(freeList) == NullNode ==> nodeId == old(nodeCount) && nodeCapacity == 2 * old(nodeCapacity)
      ensures TakenFrom(old(treeNodes), old(freeSlots), treeNodes, freeSlots, freeList, nodeId)
      ensures nodeCount == old(nodeCount) + 1 && root == old(root)
    {
      if freeList == NullNode {
        GrowPool(roots, loose);
      }
      nodeId := freeList;
      var newNode := treeNodes[nodeId].(parent := NullNode, child1 := NullNode, child2 := NullNode,
                                        height := 0, userData := NoUserData);
      TakenSlot(old(treeNodes), treeNodes, roots, loose, nodeCapacity, nodeCount, freeList, freeSlots, newNode);
      var next := treeNodes[nodeId].Next();
      if old(freeList) == NullNode {
        TakenAfterGrow(old(treeNodes), treeNodes, freeSlots, newNode);
      }
      treeNodes, freeList, nodeCount, freeSlots := treeNodes[nodeId := newNode], next, nodeCount + 1, freeSlots[1..];
    }

    /** Pushes a live slot onto the free list. */
    method FreeNode(nodeId: int)
      requires PoolOk() && Live(treeNodes, nodeId)
      modifies this
      ensures PoolOk()
      ensures treeNodes == old(treeNodes)[nodeId := old(treeNodes)[nodeId].(parent := old(freeList), height := -1)]
      ensures freeList == nodeId && freeSlots == [nodeId] + old(freeSlots) && nodeCount == old(nodeCount) - 1
      ensures root == old(root) && nodeCapacity == old(nodeCapacity)
    {
      FreeListPush(treeNodes, freeList, freeSlots, nodeId, treeNodes[nodeId].(parent := freeList, height := -1));
      treeNodes := treeNodes[nodeId := treeNodes[nodeId].(parent := freeList, height := -1)];
      freeList := nodeId;
      nodeCount := nodeCount - 1;
      freeSlots := [nodeId] + freeSlots;
    }
  
    /**
     * Rotates the taller child of `iA` up when the children's heights differ
     * by more than one, and returns the node now in `iA`'s place.
     */
    method Balance(iA: int, ghost path: seq<int>, ghost loose: set<int>) returns (r: int)
      requires Shape(treeNodes, RootSet(root), loose, path) && PathOk(treeNodes, root, path) && path[0] == iA
      modifies this
      ensures treeNodes == Balanced(old(treeNodes), old(root), loose, path)
      ensures r == BalancedHead(old(treeNodes), path) && root == BalancedRoot(old(treeNodes), old(root), path)
      ensures nodeCapacity == old(nodeCapacity) && nodeCount == old(nodeCount)
      ensures freeList == old(freeList) && freeSlots == old(freeSlots)
    {
      var A := treeNodes[iA];
      if A.IsLeaf() || A.height < 2 {
        return iA;
      }
      NodeAt(treeNodes, RootSet(root), loose, path, iA);
      var iB, iC := A.child1, A.child2;
      var B, C := treeNodes[iB], treeNodes[iC];
      var balance := C.height - B.height;
      if balance > 1 {
        RotationCaseAt(treeNodes, root, loose, path);
        r := RotateChild2Up(iA, path, loose);
        return;
      }
      if balance < -1 {
        RotationCaseAt(treeNodes, root, loose, path);
        r := RotateChild1Up(iA, path, loose);
        return;
      }
      return iA;
    }
  
    /** `Balance`'s rotation when child2 (`C`) is too tall: `C` takes `A`'s place. */
    method RotateChild2Up(iA: int, ghost path: seq<int>, ghost loose: set<int>) returns (iC: int)
      requires RotationCase(treeNodes, root, loose, path, true) && path[0] == iA
      modifies this
      ensures treeNodes == Rotated(old(treeNodes), old(root), loose, path, true)
      ensures iC == old(treeNodes)[iA].child2 && root == RotatedRoot(old(treeNodes), old(root), path, true)
      ensures nodeCapacity == old(nodeCapacity) && nodeCount == old(nodeCount)
      ensures freeList == old(freeList) && freeSlots == old(freeSlots)
    {
      var nodes := treeNodes;
      var A := nodes[iA];
      var iB := A.child1;
      iC := A.child2;
      var B, C := nodes[iB], nodes[iC];
      var iF, iG := C.child1, C.child2;
      var F, G := nodes[iF], nodes[iG];
      C := C.(child1 := iA, parent := A.parent);
      A := A.(parent := iC);
      if C.parent != NullNode {
        var P := nodes[C.parent];
        P := if P.child1 == iA then P.(child1 := iC) else P.(child2 := iC);
        nodes := nodes[C.parent := P];
      } else {
        root := iC;
      }
      if F.height > G.height {
        C := C.(child2 := iF);
        A := A.(child2 := iG);
        G := G.(parent := iA);
        A := A.(aabb := Combine(B.aabb, G.aabb));
        C := C.(aabb := Combine(A.aabb, F.aabb));
        A := A.(height := 1 + MaxInt(B.height, G.height));
        C := C.(height := 1 + MaxInt(A.height, F.height));
        nodes := nodes[iA := A][iC := C][iG := G];
      } else {
        C := C.(child2 := iG);
        A := A.(child2 := iF);
        F := F.(parent := iA);
        A := A.(aabb := Combine(B.aabb, F.aabb));
        C := C.(aabb := Combine(A.aabb, G.aabb));
        A := A.(height := 1 + MaxInt(B.height, F.height));
        C := C.(height := 1 + MaxInt(A.height, G.height));
        nodes := nodes[iA := A][iC := C][iF := F];
      }
      treeNodes := nodes;
    }

    /** `Balance`'s rotation when child1 (`B`) is too tall: `B` takes `A`'s place. */
    method RotateChild1Up(iA: int, ghost path: seq<int>, ghost loose: set<int>) returns (iB: int)
      requires RotationCase(treeNodes, root, loose, path, false) && path[0] == iA
      modifies this
      ensures treeNodes == Rotated(old(treeNodes), old(root), loose, path, false)
      ensures iB == old(treeNodes)[iA].child1 && root == RotatedRoot(old(treeNodes), old(root), path, false)
      ensures nodeCapacity == old(nodeCapacity) && nodeCount == old(nodeCount)
      ensures freeList == old(freeList) && freeSlots == old(freeSlots)
    {
      var nodes := treeNodes;
      var A := nodes[iA];
      iB := A.child1;
      var iC := A.child2;
      var B, C := nodes[iB], nodes[iC];
      var iD, iE := B.child1, B.child2;
      var D, E := nodes[iD], nodes[iE];
      B := B.(child1 := iA, parent := A.parent);
      A := A.(parent := iB);
      if B.parent != NullNode {
        var P := nodes[B.parent];
        P := if P.child1 == iA then P.(child1 := iB) else P.(child2 := iB);
        nodes := nodes[B.parent := P];
      } else {
        root := iB;
      }
      if D.height > E.height {
        B := B.(child2 := iD);
        A := A.(child1 := iE);
        E := E.(parent := iA);
        A := A.(aabb := Combine(C.aabb, E.aabb));
        B := B.(aabb := Combine(A.aabb, D.aabb));
        A := A.(height := 1 + MaxInt(C.height, E.height));
        B := B.(height := 1 + MaxInt(A.height, D.height));
        nodes := nodes[iA := A][iB := B][iE := E];
      } else {
        B := B.(child2 := iE);
        A := A.(child1 := iD);
        D := D.(parent := iA);
        A := A.(aabb := Combine(C.aabb, D.aabb));
        B := B.(aabb := Combine(A.aabb, E.aabb));
        A := A.(height := 1 + MaxInt(C.height, D.height));
        B := B.(height := 1 + MaxInt(A.height, E.height));
        nodes := nodes[iA := A][iB := B][iD := D];
      }
      treeNodes := nodes;
    }
  
    /**
     * The upward walk ending `InsertLeaf` and `RemoveLeaf`: from `index` up
     * to the root, balances each ancestor and recomputes its height and box
     * from its children.
     */
    method RefitAncestors(index: int, ghost path: seq<int>, ghost loose: set<int>)
      requires PoolOk() && Shape(treeNodes, RootSet(root), loose, path) && PathOk(treeNodes, root, path)
      requires path[0] == index
      modifies this
      ensures PoolOk() && Shape(treeNodes, RootSet(root), loose, []) && root != NullNode
      ensures SameProxies(old(treeNodes), treeNodes) && FreeSlotsKept(old(treeNodes), treeNodes)
      ensures ProxyMap(treeNodes) == old(ProxyMap(treeNodes))
      ensures nodeCapacity == old(nodeCapacity) && nodeCount == old(nodeCount) && freeList == old(freeList)
    {
      var i := index;
      ghost var rest := path;
      while i != NullNode
        invariant Refitting(old(treeNodes), treeNodes, root, loose, i, rest, nodeCapacity, nodeCount, freeList, freeSlots)
        invariant nodeCapacity == old(nodeCapacity) && nodeCount == old(nodeCount)
        invariant freeList == old(freeList) && freeSlots == old(freeSlots)
        decreases |rest|
      {
        ghost var a := treeNodes;
        RefitStep(old(treeNodes), a, root, loose, i, rest, nodeCapacity, nodeCount, freeList, freeSlots);
        i := Balance(i, rest, loose);
        rest := [i] + rest[1..];
        treeNodes := treeNodes[i := Refreshed(treeNodes, i)];
        i := treeNodes[i].parent;
        rest := rest[1..];
      }
      SameProxiesMap(old(treeNodes), treeNodes);
    }
  
    /** `InsertLeaf`'s descent from the root to the best sibling for a leaf with box `leafAABB`. */
    method FindSibling(leafAABB: AABB, ghost loose: set<int>) returns (index: int)
      requires Shape(treeNodes, RootSet(root), loose, []) && root != NullNode
      ensures WellFormedBelow(treeNodes, root) && index == Descend(treeNodes, root, leafAABB)
    {
      WellFormedOffPath(treeNodes, RootSet(root), loose, NullNode, [], root);
      var nodes := treeNodes;
      index := root;
      while !nodes[index].IsLeaf()
        invariant WellFormedBelow(nodes, index)
        invariant Descend(nodes, index, leafAABB) == Descend(nodes, root, leafAABB)
        decreases nodes[index].height
      {
        var stop, next := DescentChoice(nodes, index, leafAABB);
        if stop {
          break;
        }
        DescendStep(nodes, index, leafAABB);
        index := next;
      }
    }
  
    /**
     * Hangs the loose proxy `leaf` into the tree: as the root of an empty
     * tree, or beside the sibling the descent picks, under a new parent;
     * then refits the ancestors.
     */
    method InsertLeaf(leaf: int)
      requires PoolOk() && Shape(treeNodes, RootSet(root), {leaf}, []) && IsProxy(treeNodes, leaf)
      modifies this
      ensures PoolOk() && Shape(treeNodes, RootSet(root), {}, []) && root != NullNode
      ensures ProxyMap(treeNodes) == old(ProxyMap(treeNodes))
      ensures old(root) == NullNode ==> root == leaf && nodeCount == old(nodeCount)
      ensures old(root) != NullNode ==> root != leaf && nodeCount == old(nodeCount) + 1
    {
      if root == NullNode {
        AttachLoneLeaf(treeNodes, leaf);
        FreeListKept(treeNodes, treeNodes[leaf := treeNodes[leaf].(parent := NullNode)], freeList, freeSlots);
        SameProxiesMap(treeNodes, treeNodes[leaf := treeNodes[leaf].(parent := NullNode)]);
        root := leaf;
        treeNodes := treeNodes[leaf := treeNodes[leaf].(parent := NullNode)];
        return;
      }

      // Descend to the cheapest place to hang the leaf.
      var leafAABB := treeNodes[leaf].aabb;
      var sibling := FindSibling(leafAABB, {leaf});

      ghost var other := SomeProxy(treeNodes, root, {leaf});
      ghost var path := HangBeside(leaf, sibling);

      // Repair heights and boxes from the new parent up to the root.
      RefitAncestors(treeNodes[leaf].parent, path, {});
      RootOfTwo(treeNodes, root, leaf, other);
    }
  
    /**
     * `InsertLeaf`'s splice: allocates a new parent for `sibling` and the
     * loose proxy `leaf` and hangs it in `sibling`'s place. Returns the
     * repair path, from the new parent up to the root.
     */
    method HangBeside(leaf: int, sibling: int) returns (ghost path: seq<int>)
      requires PoolOk() && Shape(treeNodes, RootSet(root), {leaf}, []) && IsProxy(treeNodes, leaf)
      requires root != NullNode && WellFormedBelow(treeNodes, root) && sibling in Subtree(treeNodes, root)
      requires 0 <= sibling < |treeNodes|
      modifies this
      ensures PoolOk() && Shape(treeNodes, RootSet(root), {}, path) && PathOk(treeNodes, root, path)
      ensures IsProxy(treeNodes, leaf) && treeNodes[leaf].parent == path[0]
      ensures ProxyMap(treeNodes) == old(ProxyMap(treeNodes)) && nodeCount == old(nodeCount) + 1
      ensures root == (if old(treeNodes)[sibling].parent == NullNode then path[0] else old(root))
    {
      var leafAABB := treeNodes[leaf].aabb;
      var oldNode := treeNodes[sibling];
      var oldParent := oldNode.parent;
      ghost var o := treeNodes;
      var newParent := AllocateNode(RootSet(root), {leaf});
      ghost var a := treeNodes;
      ghost var anc := SiblingSplice(o, a, root, leaf, newParent, sibling);
      LinkNewParent(leaf, sibling, newParent, oldParent, leafAABB, oldNode);
      InsertSplice(o, a, treeNodes, old(root), leaf, newParent, sibling, anc, nodeCapacity, nodeCount, freeList, freeSlots);
      path := InsertPath(a, newParent, sibling, anc);
    }
  
    /**
     * `InsertLeaf`'s writes: `newParent` takes `sibling`'s place under
     * `oldParent` (or as the root) and gets `sibling` and `leaf` as children.
     */
    method LinkNewParent(leaf: int, sibling: int, newParent: int, oldParent: int, leafAABB: AABB, oldNode: TreeNode)
      requires 0 <= leaf < |treeNodes| && 0 <= sibling < |treeNodes| && 0 <= newParent < |treeNodes|
      requires leafAABB == treeNodes[leaf].aabb && oldNode == treeNodes[sibling] && oldParent == oldNode.parent
      requires oldParent == NullNode || 0 <= oldParent < |treeNodes|
      requires newParent != leaf && newParent != sibling && sibling != leaf
      requires oldParent != newParent && oldParent != sibling && oldParent != leaf
      modifies this
      ensures treeNodes == SpliceIn(old(treeNodes), leaf, newParent, sibling)
      ensures root == (if oldParent == NullNode then newParent else old(root))
      ensures nodeCapacity == old(nodeCapacity) && nodeCount == old(nodeCount)
      ensures freeList == old(freeList) && freeSlots == old(freeSlots)
    {
      treeNodes := treeNodes[newParent := treeNodes[newParent].(parent := oldParent, userData := NoUserData,
                                                                aabb := Combine(leafAABB, oldNode.aabb),
                                                                height := oldNode.height + 1)];
      if oldParent != NullNode {
        // The new parent takes the sibling's place under its old parent.
        var p := treeNodes[oldParent];
        p := if p.child1 == sibling then p.(child1 := newParent) else p.(child2 := newParent);
        treeNodes := treeNodes[oldParent := p];
        treeNodes := treeNodes[newParent := treeNodes[newParent].(child1 := sibling, child2 := leaf)];
        treeNodes := treeNodes[sibling := treeNodes[sibling].(parent := newParent)];
        treeNodes := treeNodes[leaf := treeNodes[leaf].(parent := newParent)];
      } else {
        // The new parent becomes the root.
        treeNodes := treeNodes[newParent := treeNodes[newParent].(child1 := sibling, child2 := leaf)];
        treeNodes := treeNodes[sibling := treeNodes[sibling].(parent := newParent)];
        treeNodes := treeNodes[leaf := treeNodes[leaf].(parent := newParent)];
        root := newParent;
      }
    }
  
    /**
     * Takes the proxy `leaf` out of the tree, leaving it loose: its parent
     * is freed and the sibling takes the parent's place; then refits the
     * ancestors.
     */
    method RemoveLeaf(leaf: int)
      requires PoolOk() && Shape(treeNodes, RootSet(root), {}, []) && IsProxy(treeNodes, leaf)
      modifies this
      ensures PoolOk() && Shape(treeNodes, RootSet(root), {leaf}, [])
      ensures ProxyMap(treeNodes) == old(ProxyMap(treeNodes))
      ensures old(root) == leaf ==> root == NullNode && nodeCount == old(nodeCount)
      ensures old(root) != leaf ==> nodeCount == old(nodeCount) - 1 && root != NullNode
    {
      if leaf == root {
        DetachLoneRoot(treeNodes, leaf);
        root := NullNode;
        return;
      }
      ghost var o := treeNodes;
      LeafNeighbours(o, root, leaf);
      var parent := treeNodes[leaf].parent;
      var grandParent := treeNodes[parent].parent;
      var sibling;
      if treeNodes[parent].child1 == leaf {
        sibling := treeNodes[parent].child2;
      } else {
        sibling := treeNodes[parent].child1;
      }
      SpliceOutPool(o, root, leaf, nodeCapacity, nodeCount, freeList, freeSlots);
      UnlinkParent(leaf, parent, grandParent, sibling);
      FreeNode(parent);
      ghost var path := RemoveSplice(o, old(root), leaf, treeNodes[parent]);
      if grandParent != NullNode {
        // Refit the ancestors above the removed parent.
        RefitAncestors(grandParent, path, {leaf});
      }
    }

    /**
     * `RemoveLeaf`'s writes: `sibling` takes `parent`'s place under
     * `grandParent`, or becomes the root.
     */
    method UnlinkParent(leaf: int, parent: int, grandParent: int, sibling: int)
      requires 0 <= leaf < |treeNodes| && 0 <= parent < |treeNodes| && 0 <= sibling < |treeNodes|
      requires parent == treeNodes[leaf].parent && grandParent == treeNodes[parent].parent
      requires sibling == OtherChild(treeNodes[parent], leaf)
      requires grandParent == NullNode || (0 <= grandParent < |treeNodes| && grandParent != sibling)
      modifies this
      ensures treeNodes == SpliceOut(old(treeNodes), leaf)
      ensures root == (if grandParent == NullNode then sibling else old(root))
      ensures nodeCapacity == old(nodeCapacity) && nodeCount == old(nodeCount)
      ensures freeList == old(freeList) && freeSlots == old(freeSlots)
    {
      if grandParent != NullNode {
        // The sibling replaces the freed parent under the grandparent.
        var g := treeNodes[grandParent];
        g := if g.child1 == parent then g.(child1 := sibling) else g.(child2 := sibling);
        treeNodes := treeNodes[grandParent := g];
        treeNodes := treeNodes[sibling := treeNodes[sibling].(parent := grandParent)];
      } else {
        root := sibling;
        treeNodes := treeNodes[sibling := treeNodes[sibling].(parent := NullNode)];
      }
    }

    /**
     * Creates a proxy for the tight box `aabb`: a fresh leaf holding the box
     * fattened by `aabbExtension`, inserted into the tree.
     */
    method CreateProxy(aabb: AABB, userData: UserData) returns (proxyId: int)
      requires Valid()
      modifies this
      ensures Valid() && proxyId !in old(Proxies())
      ensures Proxies() == old(Proxies())[proxyId := Proxy(Fattened(aabb, aabbExtension), userData)]
      ensures Contains(Proxies()[proxyId].fatAABB, aabb)
      ensures nodeCount == old(nodeCount) + (if old(root) == NullNode then 1 else 2)
      ensures root == proxyId <==> old(root) == NullNode
    {
      ghost var oldRoot := root;
      proxyId := AllocateNode(RootSet(root), {});
      assert root == oldRoot;

      // Enlarge the box by the margin before storing it.
      var fat := Fattened(aabb, aabbExtension);
      ghost var a := treeNodes;
      LabelNewLeaf(old(treeNodes), a, root, proxyId, fat, userData, nodeCapacity, nodeCount, freeList, freeSlots);
      treeNodes := treeNodes[proxyId := treeNodes[proxyId].(aabb := fat, userData := userData, height := 0)];

      InsertLeaf(proxyId);
    }

    /** Destroys proxy `proxyId`: takes its leaf out of the tree and frees the slot. */
    method DestroyProxy(proxyId: int)
      requires Valid() && proxyId in Proxies()
      modifies this
      ensures Valid() && Proxies() == old(Proxies()) - {proxyId}
      ensures nodeCount == old(nodeCount) - (if old(root) == proxyId then 1 else 2)
    {
      RemoveLeaf(proxyId);
      ghost var a := treeNodes;
      FreeNode(proxyId);
      Deactivate(a, RootSet(root), {proxyId}, proxyId, treeNodes[proxyId]);
      assert {proxyId} - {proxyId} == {};
    }

    /**
     * Moves proxy `proxyId` to the tight box `aabb`. While its fat box still
     * encloses `aabb` nothing changes; otherwise the leaf is taken out, given
     * the fattened box stretched along the predicted displacement, and
     * inserted again. Returns whether it was re-inserted.
     */
    method MoveProxy(proxyId: int, aabb: AABB, displacement: Vec2) returns (moved: bool)
      requires Valid() && proxyId in Proxies()
      modifies this
      ensures Valid() && proxyId in Proxies() && Contains(Proxies()[proxyId].fatAABB, aabb)
      ensures moved <==> !Contains(old(Proxies())[proxyId].fatAABB, aabb)
      ensures !moved ==> unchanged(this)
      ensures moved ==> Proxies() == old(Proxies())[proxyId := Proxy(Predicted(aabb, displacement, aabbExtension, aabbMultiplier),
                                                                      old(Proxies())[proxyId].userData)]
      ensures nodeCount == old(nodeCount)
    {
      if Contains(treeNodes[proxyId].aabb, aabb) {
        return false;
      }

      RemoveLeaf(proxyId);

      var b := PredictedBox(aabb, displacement, aabbExtension, aabbMultiplier);
      ContainsTransitive(b, Fattened(aabb, aabbExtension), aabb);

      RelabelProxy(treeNodes, root, proxyId, b, nodeCapacity, nodeCount, freeList, freeSlots);
      treeNodes := treeNodes[proxyId := treeNodes[proxyId].(aabb := b)];

      InsertLeaf(proxyId);
      return true;
    }

    /** The user data of proxy `proxyId`. */
    function GetUserData(proxyId: int): (u: UserData)
      reads this
      requires 0 <= proxyId < |treeNodes|
      ensures proxyId in Proxies() ==> u == Proxies()[proxyId].userData
    {
      treeNodes[proxyId].userData
    }

    /** The fat box of proxy `proxyId`. */
    function GetFatAABB(proxyId: int): (b: AABB)
      reads this
      requires 0 <= proxyId < |treeNodes|
      ensures proxyId in Proxies() ==> b == Proxies()[proxyId].fatAABB
    {
      treeNodes[proxyId].aabb
    }

    /** The height of the tree: 0 when empty, else the root's stored height. */
    function GetHeight(): (h: int)
      reads this
      requires Valid()
      ensures root == NullNode ==> h == 0
      ensures root != NullNode ==> ComputeHeight(treeNodes, root, |treeNodes|) == Some(h)
    {
      if root == NullNode then 0
      else
        WellFormedOffPath(treeNodes, RootSet(root), {}, NullNode, [], root);
        HeightBelowSize(treeNodes, root);
        ComputeHeightWellFormed(treeNodes, root, |treeNodes|);
        treeNodes[root].height
    }

    /** The largest height gap between the two children of any node, over every slot of the pool. */
    method GetMaxBalance() returns (maxBalance: int)
      requires Valid()
      ensures ChildrenInRange(treeNodes)
      ensures forall i :: 0 <= i < |treeNodes| ==> BalanceAt(treeNodes, i) <= maxBalance
      ensures maxBalance == 0 || exists i :: 0 <= i < |treeNodes| && BalanceAt(treeNodes, i) == maxBalance
    {
      ShapedChildrenInRange(treeNodes, RootSet(root), {});
      maxBalance := 0;
      for i := 0 to nodeCapacity
        invariant forall k :: 0 <= k < i ==> BalanceAt(treeNodes, k) <= maxBalance
        invariant maxBalance == 0 || exists k :: 0 <= k < i && BalanceAt(treeNodes, k) == maxBalance
      {
        var node := treeNodes[i];
        if node.height <= 1 {
          continue;
        }
        var child1 := node.child1;
        var child2 := node.child2;
        var balance := AbsInt(treeNodes[child2].height - treeNodes[child1].height);
        assert BalanceAt(treeNodes, i) == balance;
        maxBalance := MaxInt(maxBalance, balance);
      }
    }

    /** Moves every box of the pool by `-newOrigin`; the tree and its proxies move with it. */
    method ShiftOrigin(newOrigin: Vec2)
      requires Valid()
      modifies this
      ensures Valid() && Proxies() == ShiftedProxies(old(Proxies()), newOrigin)
      ensures treeNodes == ShiftedPool(old(treeNodes), newOrigin)
      ensures root == old(root) && nodeCount == old(nodeCount) && nodeCapacity == old(nodeCapacity)
      ensures freeList == old(freeList)
    {
      ShiftedShape(treeNodes, root, newOrigin, nodeCapacity, nodeCount, freeList, freeSlots);
      ghost var target := ShiftedPool(treeNodes, newOrigin);
      var nodes := treeNodes;
      assert |nodes| == nodeCapacity;
      for i := 0 to nodeCapacity
        invariant |nodes| == nodeCapacity
        invariant nodes[i..] == treeNodes[i..] && nodes[..i] == target[..i]
      {
        var box := nodes[i].aabb;
        nodes := nodes[i := nodes[i].(aabb := AABB(box.lowerBound.Minus(newOrigin), box.upperBound.Minus(newOrigin)))];
      }
      assert nodes == nodes[..nodeCapacity] && target == target[..nodeCapacity];
      treeNodes := nodes;
    }

    /**
     * `RebuildBottomUp`'s join: allocates a parent for the roots `index1` and
     * `index2` of the forest, with their combined height and box.
     */
    method JoinUnderNewParent(ghost roots: set<int>, index1: int, index2: int) returns (parentIndex: int)
      requires PoolOk() && Shape(treeNodes, roots, {}, [])
      requires index1 in roots && index2 in roots && index1 != index2
      modifies this
      ensures PoolOk() && parentIndex !in roots && Shape(treeNodes, roots - {index1, index2} + {parentIndex}, {}, [])
      ensures Proxies() == old(Proxies()) && root == old(root) && nodeCount == old(nodeCount) + 1
      ensures JoinedFrom(old(treeNodes), treeNodes, parentIndex, index1, index2)
      ensures old(freeList) != NullNode ==> parentIndex == old(freeList) && freeSlots == old(freeSlots)[1..]
    {
      ghost var a := treeNodes;
      parentIndex := AllocateNode(roots, {});
      ghost var b := treeNodes;
      JoinStep(a, b, roots, parentIndex, index1, index2, nodeCapacity, nodeCount, freeList, freeSlots);
      JoinedRecords(a, b, roots, parentIndex, index1, index2);
      treeNodes := Joined(treeNodes, parentIndex, index1, index2);
    }

    /**
     * `RebuildBottomUp`'s first pass: every proxy loses its parent and is
     * listed, in slot order, and every internal node is freed, leaving a
     * forest of single leaves.
     */
    method StripToLeaves() returns (nodes: seq<int>)
      requires Valid()
      modifies this
      ensures PoolOk() && Shape(treeNodes, Members(nodes), {}, []) && Distinct(nodes)
      ensures Proxies() == old(Proxies()) && root == old(root)
      ensures old(root) != NullNode ==> |nodes| > 0
      ensures Members(nodes) == Proxies().Keys
      ensures forall i :: Live(treeNodes, i) ==> treeNodes[i].IsLeaf() && treeNodes[i].parent == NullNode
    {
      ghost var o := treeNodes;
      nodes := [];
      StripStart(o);
      for i := 0 to nodeCapacity
        invariant StrippedPool(o, treeNodes, i, nodes, nodeCapacity, nodeCount, freeList, freeSlots)
        invariant root == old(root)
      {
        if treeNodes[i].height < 0 {
          StripFree(o, treeNodes, i, nodes);
          continue;
        }
        if treeNodes[i].IsLeaf() {
          StripLeafPool(o, treeNodes, i, nodes, nodeCapacity, nodeCount, freeList, freeSlots);
          treeNodes, nodes := treeNodes[i := treeNodes[i].(parent := NullNode)], nodes + [i];
        } else {
          ghost var a := treeNodes;
          ghost var next := freeList;
          FreeNode(i);
          StripInternal(o, a, treeNodes, i, next, nodes);
        }
      }
      StripDone(o, treeNodes, old(root), nodes);
    }

    /**
     * Rebuilds the tree bottom-up: every internal node is freed, every proxy
     * stands alone, and the two subtrees whose union is cheapest are joined
     * under a new parent until one tree is left.
     */
    method RebuildBottomUp()
      requires Valid() && root != NullNode
      modifies this
      ensures Valid() && Proxies() == old(Proxies()) && root != NullNode
      ensures WellFormedBelow(treeNodes, root) && Leaves(treeNodes, root) == Proxies().Keys
    {
      var nodes := StripToLeaves();

      var count := |nodes|;
      assert nodes[..count] == nodes;
      while count > 1
        invariant PoolOk() && Forest(treeNodes, nodes, count) && Proxies() == old(Proxies())
        decreases count
      {
        RootsInPool(treeNodes, nodes, count);
        var iMin, jMin := ClosestPair(treeNodes, nodes, count);
        var index1, index2 := nodes[iMin], nodes[jMin];
        ForestPair(treeNodes, nodes, count, iMin, jMin);
        var parentIndex := JoinUnderNewParent(Members(nodes[..count]), index1, index2);
        ForestJoin(treeNodes, nodes, count, iMin, jMin, parentIndex);
        nodes := nodes[jMin := nodes[count - 1]][iMin := parentIndex];
        count := count - 1;
      }
      RootsInPool(treeNodes, nodes, 1);
      assert Members(nodes[..1]) == RootSet(nodes[0]);
      root := nodes[0];
      RootCoversProxies(treeNodes, root);
    }

    /**
     * Reports to `callback` every proxy whose fat box overlaps `aabb`, until
     * the callback returns false. The callback sees the ids reported before
     * and the id being reported; the ids reported are returned in order.
     */
    method Query(callback: (seq<int>, int) -> bool, aabb: AABB) returns (calls: seq<int>)
      requires Valid()
      ensures forall k :: 0 <= k < |calls| ==> calls[k] in Overlapping(Proxies(), aabb)
      ensures forall k, l :: 0 <= k < l < |calls| ==> calls[k] != calls[l]
      ensures |calls| > 0 ==> Continued(callback, calls, |calls| - 1)
      ensures Continued(callback, calls, |calls|) ==> (set y | y in calls) == Overlapping(Proxies(), aabb)
    {
      ghost var keep := (b: AABB) => TestOverlap(b, aabb);
      ghost var target := ProxiesPassing(treeNodes, keep);
      QueryTarget(treeNodes, aabb);
      StartWalk(treeNodes, root, keep);
      var stack := [root];
      calls := [];
      while |stack| > 0
        invariant Walked(treeNodes, stack, calls) && Covers(treeNodes, keep, target, stack, calls)
        invariant Continued(callback, calls, |calls|)
        decreases |StackNodes(treeNodes, stack)|, |stack|
      {
        ghost var before := stack;
        var nodeId := stack[|stack| - 1];
        stack := stack[..|stack| - 1];
        if nodeId == NullNode {
          StepNull(treeNodes, keep, target, before, calls);
          continue;
        }
        if TestOverlap(treeNodes[nodeId].aabb, aabb) {
          if treeNodes[nodeId].IsLeaf() {
            StepLeaf(treeNodes, keep, target, before, calls);
            var proceed := callback(calls, nodeId);
            ContinuedAppend(callback, calls, nodeId);
            calls := calls + [nodeId];
            if !proceed {
              CoveredCalls(treeNodes, keep, target, stack, calls);
              return;
            }
          } else {
            StepInternal(treeNodes, keep, target, before, calls);
            stack := stack + [treeNodes[nodeId].child1, treeNodes[nodeId].child2];
          }
        } else {
          StepPrune(treeNodes, keep, target, before, calls);
        }
      }
      CoveredCalls(treeNodes, keep, target, stack, calls);
    }

    /**
     * Casts the segment of `input` against the proxies. Nodes whose box
     * misses the segment's box, or that `separated` rules out, are pruned;
     * each proxy reached is reported to `callback`, whose answer ends the
     * cast (0), clips the segment to that fraction (positive) or is ignored
     * (negative). The reports made are returned in order.
     */
    method RayCast(callback: (seq<RayHit>, RayCastInput, int) -> real, separated: AABB -> bool,
                   input: RayCastInput) returns (calls: seq<RayHit>)
      requires Valid() && input.p1 != input.p2
      ensures forall k :: 0 <= k < |calls| ==>
                calls[k].proxyId in Proxies() && Reaches(Proxies()[calls[k].proxyId].fatAABB, separated, calls[k].input)
      ensures forall k, l :: 0 <= k < l < |calls| ==> calls[k].proxyId != calls[l].proxyId
      ensures RayLog(callback, input, calls)
      ensures forall k :: 0 <= k < |calls| - 1 ==> calls[k].value != 0.0
      ensures Upward((b: AABB) => !separated(b)) && AllIgnored(calls) ==>
                (set k | 0 <= k < |calls| :: calls[k].proxyId) == ReachedBy(Proxies(), separated, input)
    {
      var p1 := input.p1;
      var p2 := input.p2;
      var maxFraction := input.maxFraction;

      // The box around the part of the segment still to search.
      var segmentAABB := SegmentBox(p1, p2, maxFraction);

      ghost var ids: seq<int> := [];
      var stack := [root];
      calls := [];
      RayStart(treeNodes, root, callback, separated, input);
      while |stack| > 0
        invariant RayState(treeNodes, callback, separated, input, stack, calls, ids, maxFraction)
        invariant segmentAABB == SegmentBox(p1, p2, maxFraction)
        decreases |StackNodes(treeNodes, stack)|, |stack|
      {
        ghost var before := stack;
        var nodeId := stack[|stack| - 1];
        stack := stack[..|stack| - 1];
        if nodeId == NullNode {
          RayNull(treeNodes, callback, separated, input, before, calls, ids, maxFraction);
          continue;
        }

        RayLive(treeNodes, callback, separated, input, before, calls, ids, maxFraction);
        if !TestOverlap(treeNodes[nodeId].aabb, segmentAABB) || separated(treeNodes[nodeId].aabb) {
          RayPrune(treeNodes, callback, separated, input, before, calls, ids, maxFraction);
          continue;
        }

        if treeNodes[nodeId].IsLeaf() {
          var subInput := RayCastInput(input.p1, input.p2, maxFraction);
          var value := callback(calls, subInput, nodeId);
          RayLeaf(treeNodes, callback, separated, input, before, calls, ids, maxFraction);
          calls := calls + [RayHit(subInput, nodeId, value)];
          ids := ids + [nodeId];

          if value == 0.0 {
            // A zero answer from the callback stops the search.
            assert !AllIgnored(calls);
            RayCastReport(treeNodes, separated, input, calls, ids);
            return;
          }

          if value > 0.0 {
            // Clip the segment at the reported fraction.
            maxFraction := value;
            segmentAABB := SegmentBox(p1, p2, maxFraction);
          }
        } else {
          RayInternal(treeNodes, callback, separated, input, before, calls, ids, maxFraction);
          stack := stack + [treeNodes[nodeId].child1, treeNodes[nodeId].child2];
        }
      }
      RayDone(treeNodes, callback, separated, input, calls, ids, maxFraction);
      RayCastReport(treeNodes, separated, input, calls, ids);
    }
  }

  /**
   * Creating a proxy and destroying it again leaves the tree holding the same
   * proxies with the same number of records in use.
   */
  method CreateThenDestroy(tree: DynamicTree, aabb: AABB, userData: UserData) returns (proxyId: int)
    requires tree.Valid()
    modifies tree
    ensures tree.Valid() && proxyId !in tree.Proxies()
    ensures tree.Proxies() == old(tree.Proxies()) && tree.nodeCount == old(tree.nodeCount)
  {
    proxyId := tree.CreateProxy(aabb, userData);
    tree.DestroyProxy(proxyId);
    AddedThenRemoved(old(tree.Proxies()), proxyId, Proxy(Fattened(aabb, tree.aabbExtension), userData));
  }
}
