/**
 * The node pool of the dynamic tree: `TreeNode` slots addressed by index,
 * and the per-node invariants that the tree's `ValidateStructure` and
 * `ValidateMetrics` routines check.
 *
 * Invariants are stated slot by slot. A whole-tree state is described by
 * `Shape(nodes, roots, loose, path)`:
 *  - `roots`: the nodes with no parent (one root for the tree; many while
 *    `RebuildBottomUp` pairs subtrees up),
 *  - `loose`: live leaves that hang in no tree (a leaf just removed by
 *    `RemoveLeaf`, or a slot just handed out by `AllocateNode`),
 *  - `path`: the ancestors whose height and box are still being repaired by
 *    the upward walk of `InsertLeaf`/`RemoveLeaf`.
 */
module TreeNodes {
  import opened Geometry

  /** `DynamicTree.NullNode`. */
  const NullNode: int := -1

  /** The owner handle a proxy carries; the tree stores it and never reads it. */
  datatype UserData = NoUserData | Handle(id: int)

  /**
   * `TreeNode`. `parent` doubles as the free list's `Next` link while the slot
   * is free; `height` is -1 for a free slot, 0 for a leaf.
   */
  datatype TreeNode = TreeNode(aabb: AABB, child1: int, child2: int, height: int,
                               userData: UserData, parent: int)
  {
    predicate IsLeaf() { child1 == NullNode }
    function Next(): int { parent }
  }

  function MaxInt(a: int, b: int): int { if a > b then a else b }

  /** Slot `i` exists and is not on the free list. */
  predicate Live(nodes: seq<TreeNode>, i: int) {
    0 <= i < |nodes| && nodes[i].height >= 0
  }

  /** Slot `i` holds a proxy: a live leaf. */
  predicate IsProxy(nodes: seq<TreeNode>, i: int) {
    Live(nodes, i) && nodes[i].IsLeaf()
  }

  /**
   * Link invariant of `ValidateStructure`: a leaf has no second child and
   * height 0; an internal node has two distinct live children whose parent
   * is this node.
   */
  ghost predicate LinksOk(nodes: seq<TreeNode>, i: int)
    requires 0 <= i < |nodes|
  {
    var n := nodes[i];
    if n.IsLeaf() then n.child2 == NullNode && n.height == 0
    else
      && Live(nodes, n.child1) && Live(nodes, n.child2) && n.child1 != n.child2
      && nodes[n.child1].parent == i && nodes[n.child2].parent == i
  }

  /**
   * Metric invariant of `ValidateMetrics`: an internal node is one taller than
   * its taller child and its box is the union of its children's boxes.
   */
  ghost predicate MetricsOk(nodes: seq<TreeNode>, i: int)
    requires 0 <= i < |nodes|
  {
    var n := nodes[i];
    !n.IsLeaf() && 0 <= n.child1 < |nodes| && 0 <= n.child2 < |nodes| ==>
      && n.height == 1 + MaxInt(nodes[n.child1].height, nodes[n.child2].height)
      && n.aabb == Combine(nodes[n.child1].aabb, nodes[n.child2].aabb)
  }

  /** The parent of `i` is a live internal node that has `i` as a child. */
  ghost predicate ParentOk(nodes: seq<TreeNode>, i: int)
    requires 0 <= i < |nodes|
  {
    var p := nodes[i].parent;
    Live(nodes, p) && !nodes[p].IsLeaf() && (nodes[p].child1 == i || nodes[p].child2 == i)
  }

  ghost predicate NodeOk(nodes: seq<TreeNode>, roots: set<int>, loose: set<int>, path: seq<int>, i: int)
    requires 0 <= i < |nodes|
  {
    && LinksOk(nodes, i)
    && (i !in path ==> MetricsOk(nodes, i))
    && (!nodes[i].IsLeaf() ==> nodes[i].child1 !in loose && nodes[i].child2 !in loose)
    && (i in roots ==> nodes[i].parent == NullNode && i !in loose)
    && (i in loose ==> nodes[i].IsLeaf())
    && (i !in roots && i !in loose ==> ParentOk(nodes, i))
  }

  /** See the module comment. */
  ghost predicate Shape(nodes: seq<TreeNode>, roots: set<int>, loose: set<int>, path: seq<int>)
  {
    && (forall r :: r in roots ==> Live(nodes, r))
    && (forall i :: i in loose ==> Live(nodes, i))
    && (forall i {:trigger NodeOk(nodes, roots, loose, path, i)} ::
          Live(nodes, i) ==> NodeOk(nodes, roots, loose, path, i))
  }

  /**
   * `path` lists, bottom-up, a live internal node and all its ancestors:
   * distinct, each the parent of the one before, ending at `root`, which
   * has no parent.
   */
  ghost predicate PathOk(nodes: seq<TreeNode>, root: int, path: seq<int>)
  {
    && |path| > 0
    && (forall k :: 0 <= k < |path| ==> Live(nodes, path[k]) && !nodes[path[k]].IsLeaf())
    && (forall k, l :: 0 <= k < l < |path| ==> path[k] != path[l])
    && (forall k :: 0 <= k < |path| - 1 ==> nodes[path[k]].parent == path[k + 1])
    && path[|path| - 1] == root && nodes[root].parent == NullNode
  }

  function RootSet(root: int): set<int> {
    if root == NullNode then {} else {root}
  }

  /**
   * The free list threaded through `Next`: `free` lists its slots in order,
   * each free slot has height -1, and every slot with a negative height is on it.
   */
  ghost predicate FreeListOk(nodes: seq<TreeNode>, freeList: int, free: seq<int>)
  {
    && (forall k :: 0 <= k < |free| ==> 0 <= free[k] < |nodes| && nodes[free[k]].height == -1)
    && (forall k, l :: 0 <= k < l < |free| ==> free[k] != free[l])
    && freeList == (if |free| == 0 then NullNode else free[0])
    && (forall k :: 0 <= k < |free| ==> nodes[free[k]].Next() == (if k + 1 < |free| then free[k + 1] else NullNode))
    && (forall i :: 0 <= i < |nodes| && nodes[i].height < 0 ==> i in free)
  }

  /** `FreeNode`: a live slot pushed on the free list. */
  lemma FreeListPush(a: seq<TreeNode>, freeList: int, free: seq<int>, x: int, n: TreeNode)
    requires FreeListOk(a, freeList, free) && Live(a, x) && n.height == -1 && n.Next() == freeList
    ensures FreeListOk(a[x := n], x, [x] + free)
  {
    var b := a[x := n];
    var f := [x] + free;
    assert x !in free;
    forall k | 0 <= k < |f|
      ensures 0 <= f[k] < |b| && b[f[k]].height == -1
      ensures b[f[k]].Next() == (if k + 1 < |f| then f[k + 1] else NullNode)
    {
      if k > 0 {
        var j := k - 1;
        assert f[k] == free[j] && free[j] != x;
        assert b[f[k]] == a[free[j]];
        FreeNext(a, freeList, free, j);
        if k + 1 < |f| {
          assert f[k + 1] == free[j + 1];
        }
      } else {
        assert b[f[0]] == n;
        if |free| > 0 {
          assert f[1] == free[0];
        }
      }
    }
    forall k, l | 0 <= k < l < |f|
      ensures f[k] != f[l]
    {
      assert f[l] == free[l - 1];
      if k > 0 {
        assert f[k] == free[k - 1];
      }
    }
    forall i | 0 <= i < |b| && b[i].height < 0
      ensures i in f
    {
      if i != x {
        assert i in free;
      }
    }
    assert FreeListOk(b, x, f);
  }

  /** The link of the `j`-th free slot. */
  lemma FreeNext(a: seq<TreeNode>, freeList: int, free: seq<int>, j: int)
    requires FreeListOk(a, freeList, free) && 0 <= j < |free|
    ensures 0 <= free[j] < |a| && a[free[j]].height == -1
    ensures a[free[j]].Next() == (if j + 1 < |free| then free[j + 1] else NullNode)
  {
  }

  /** `AllocateNode`: the head of the free list taken out and made live. */
  lemma FreeListPop(a: seq<TreeNode>, freeList: int, free: seq<int>, n: TreeNode)
    requires FreeListOk(a, freeList, free) && |free| > 0 && n.height >= 0
    ensures FreeListOk(a[free[0] := n], a[free[0]].Next(), free[1..])
  {
    var b := a[free[0] := n];
    var f := free[1..];
    FreeNext(a, freeList, free, 0);
    forall k | 0 <= k < |f|
      ensures 0 <= f[k] < |b| && b[f[k]].height == -1
      ensures b[f[k]].Next() == (if k + 1 < |f| then f[k + 1] else NullNode)
    {
      var j := k + 1;
      assert f[k] == free[j] && free[j] != free[0];
      assert b[f[k]] == a[free[j]];
      FreeNext(a, freeList, free, j);
      if k + 1 < |f| {
        assert f[k + 1] == free[j + 1];
      }
    }
    forall k, l | 0 <= k < l < |f|
      ensures f[k] != f[l]
    {
      assert f[k] == free[k + 1] && f[l] == free[l + 1];
    }
    forall i | 0 <= i < |b| && b[i].height < 0
      ensures i in f
    {
      var k :| 0 <= k < |free| && free[k] == i;
      assert k != 0 && f[k - 1] == i;
    }
    assert FreeListOk(b, a[free[0]].Next(), f);
  }

  /** The proxies of a pool: each live leaf's fat box and user data. */
  datatype Proxy = Proxy(fatAABB: AABB, userData: UserData)

  ghost function ProxyMap(nodes: seq<TreeNode>): map<int, Proxy> {
    map i | 0 <= i < |nodes| && IsProxy(nodes, i) :: Proxy(nodes[i].aabb, nodes[i].userData)
  }

  /** Two pools hold the same proxies with the same boxes and user data. */
  ghost predicate SameProxies(a: seq<TreeNode>, b: seq<TreeNode>) {
    && (forall i :: IsProxy(a, i) ==> IsProxy(b, i) && b[i].aabb == a[i].aabb && b[i].userData == a[i].userData)
    && (forall i :: IsProxy(b, i) ==> IsProxy(a, i))
  }

  lemma SameProxiesMap(a: seq<TreeNode>, b: seq<TreeNode>)
    requires SameProxies(a, b)
    ensures ProxyMap(a) == ProxyMap(b)
  {
    assert ProxyMap(a).Keys == ProxyMap(b).Keys;
  }

  lemma SameProxiesTrans(a: seq<TreeNode>, b: seq<TreeNode>, c: seq<TreeNode>)
    requires SameProxies(a, b) && SameProxies(b, c)
    ensures SameProxies(a, c)
  {
  }

  /** Every free slot, and the liveness of every slot, is the same in both pools. */
  ghost predicate FreeSlotsKept(a: seq<TreeNode>, b: seq<TreeNode>) {
    && |a| == |b|
    && (forall i :: 0 <= i < |a| ==> (a[i].height < 0 <==> b[i].height < 0))
    && (forall i :: 0 <= i < |a| && a[i].height < 0 ==> b[i] == a[i])
  }

  lemma FreeListKept(a: seq<TreeNode>, b: seq<TreeNode>, freeList: int, free: seq<int>)
    requires FreeListOk(a, freeList, free) && FreeSlotsKept(a, b)
    ensures FreeListOk(b, freeList, free)
  {
    forall k | 0 <= k < |free|
      ensures b[free[k]] == a[free[k]]
    {
    }
  }

  lemma FreeSlotsKeptTrans(a: seq<TreeNode>, b: seq<TreeNode>, c: seq<TreeNode>)
    requires FreeSlotsKept(a, b) && FreeSlotsKept(b, c)
    ensures FreeSlotsKept(a, c)
  {
  }
}
