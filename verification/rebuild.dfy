/**
 * The two phases of `RebuildBottomUp`, stated on pool values.
 *
 * Phase one walks the pool slot by slot: a proxy loses its parent and joins
 * the list of subtrees, an internal node is freed. Phase two repeatedly
 * joins the two subtrees whose union has the smallest perimeter under a
 * freshly allocated parent, until one tree is left.
 */
module BottomUp {
  import opened Geometry
  import opened TreeNodes
  import opened Subtrees
  import opened TreeEdits

  /** The slots listed in `s`. */
  function Members(s: seq<int>): set<int> {
    set y | y in s
  }

  /** The entries of `s` are pairwise distinct. */
  predicate Distinct(s: seq<int>) {
    forall k, l :: 0 <= k < l < |s| ==> s[k] != s[l]
  }

  /**
   * Phase one has visited slots `0 .. i - 1` of the original pool `o`: in
   * `a` each visited proxy has lost its parent and is listed in `leaves`
   * (in slot order), each visited internal node is free, each free slot is
   * still free, and the slots not yet visited are untouched.
   */
  ghost predicate Stripped(o: seq<TreeNode>, a: seq<TreeNode>, i: int, leaves: seq<int>) {
    && |a| == |o| && 0 <= i <= |o|
    && (forall k :: i <= k < |o| ==> a[k] == o[k])
    && (forall k :: 0 <= k < i && o[k].height < 0 ==> a[k].height < 0)
    && (forall k :: 0 <= k < i && IsProxy(o, k) ==> a[k] == o[k].(parent := NullNode))
    && (forall k :: 0 <= k < i && Live(o, k) && !o[k].IsLeaf() ==> a[k].height < 0)
    && (forall k, l :: 0 <= k < l < |leaves| ==> leaves[k] < leaves[l])
    && (forall y :: y in leaves <==> 0 <= y < i && IsProxy(o, y))
  }

  lemma StripStart(o: seq<TreeNode>)
    ensures Stripped(o, o, 0, [])
  {
  }

  /** A free slot is passed over. */
  lemma StripFree(o: seq<TreeNode>, a: seq<TreeNode>, i: int, leaves: seq<int>)
    requires Stripped(o, a, i, leaves) && i < |o| && o[i].height < 0
    ensures Stripped(o, a, i + 1, leaves)
  {
  }

  /** A proxy is cut loose from its parent and listed. */
  lemma StripLeaf(o: seq<TreeNode>, a: seq<TreeNode>, i: int, leaves: seq<int>)
    requires Stripped(o, a, i, leaves) && i < |o| && IsProxy(o, i)
    ensures Stripped(o, a[i := a[i].(parent := NullNode)], i + 1, leaves + [i])
    ensures FreeSlotsKept(a, a[i := a[i].(parent := NullNode)])
  {
    var b := a[i := a[i].(parent := NullNode)];
    var l := leaves + [i];
    forall k, m | 0 <= k < m < |l|
      ensures l[k] < l[m]
    {
      if m == |leaves| {
        assert leaves[k] in leaves;
      }
    }
  }

  /** An internal node is freed: `b` is `a` with slot `i` pushed on the free list ahead of `next`. */
  lemma StripInternal(o: seq<TreeNode>, a: seq<TreeNode>, b: seq<TreeNode>, i: int, next: int, leaves: seq<int>)
    requires Stripped(o, a, i, leaves) && i < |o| && Live(o, i) && !o[i].IsLeaf()
    requires b == a[i := a[i].(parent := next, height := -1)]
    ensures Stripped(o, b, i + 1, leaves)
  {
  }

  /** There is a proxy below every well-formed node. */
  lemma {:induction false} SomeProxyBelow(nodes: seq<TreeNode>, x: int)
    requires WellFormedBelow(nodes, x)
    ensures exists y :: y in Subtree(nodes, x) && IsProxy(nodes, y)
    decreases nodes[x].height
  {
    if nodes[x].IsLeaf() {
      assert x in Subtree(nodes, x);
    } else {
      SomeProxyBelow(nodes, nodes[x].child1);
      var y :| y in Subtree(nodes, nodes[x].child1) && IsProxy(nodes, y);
      assert y in Subtree(nodes, x);
    }
  }

  /**
   * At the end of phase one every live slot is a former proxy standing
   * alone: the pool is a forest of single leaves, one per proxy, and the
   * proxies are those of the original tree; a non-empty tree leaves at
   * least one.
   */
  lemma StripDone(o: seq<TreeNode>, a: seq<TreeNode>, root: int, leaves: seq<int>)
    requires Shape(o, RootSet(root), {}, []) && Stripped(o, a, |o|, leaves)
    ensures Shape(a, Members(leaves), {}, []) && Distinct(leaves)
    ensures ProxyMap(a) == ProxyMap(o)
    ensures root != NullNode ==> |leaves| > 0
    ensures forall y :: y in leaves ==> IsProxy(a, y)
    ensures Members(leaves) == ProxyMap(a).Keys
    ensures forall i :: Live(a, i) ==> IsProxy(a, i)
  {
    var roots := Members(leaves);
    forall i | Live(a, i)
      ensures NodeOk(a, roots, {}, [], i)
    {
      assert NodeOk(o, RootSet(root), {}, [], i);
      assert i in leaves;
    }
    forall k, l | 0 <= k < l < |leaves|
      ensures leaves[k] != leaves[l]
    {
    }
    forall i | IsProxy(a, i)
      ensures IsProxy(o, i)
    {
    }
    assert ProxyMap(a).Keys == ProxyMap(o).Keys;
    if root != NullNode {
      WellFormedOffPath(o, RootSet(root), {}, NullNode, [], root);
      SomeProxyBelow(o, root);
      var y :| y in Subtree(o, root) && IsProxy(o, y);
      assert y in leaves;
    }
  }

  /**
   * Phase two's writes: the fresh leaf `p` becomes the parent of the roots
   * `i1` (its first child) and `i2` (its second), with their combined
   * height and box, and both children point back to it.
   */
  function Joined(b: seq<TreeNode>, p: int, i1: int, i2: int): seq<TreeNode>
    requires 0 <= p < |b| && 0 <= i1 < |b| && 0 <= i2 < |b|
  {
    var parent := b[p].(child1 := i1, child2 := i2,
                        height := 1 + MaxInt(b[i1].height, b[i2].height),
                        aabb := Combine(b[i1].aabb, b[i2].aabb), parent := NullNode);
    var c := b[p := parent];
    var c' := c[i1 := c[i1].(parent := p)];
    c'[i2 := c'[i2].(parent := p)]
  }

  /** The conditions under which `JoinRoots` applies. */
  ghost predicate JoinCase(b: seq<TreeNode>, roots: set<int>, p: int, i1: int, i2: int) {
    && Shape(b, roots, {p}, []) && Live(b, p) && FreshLeaf(b[p])
    && i1 in roots && i2 in roots && i1 != i2
  }

  /** The slots `Joined` writes are distinct, and no other slot names them as a child. */
  lemma JoinFacts(b: seq<TreeNode>, roots: set<int>, p: int, i1: int, i2: int)
    requires JoinCase(b, roots, p, i1, i2)
    ensures Live(b, i1) && Live(b, i2) && p != i1 && p != i2
    ensures b[i1].parent == NullNode && b[i2].parent == NullNode
    ensures forall k :: Live(b, k) && !b[k].IsLeaf() ==>
              && b[k].child1 !in {p, i1, i2} && b[k].child2 !in {p, i1, i2}
              && Live(b, b[k].child1) && Live(b, b[k].child2)
  {
    NodeAt(b, roots, {p}, [], i1);
    NodeAt(b, roots, {p}, [], i2);
    forall k | Live(b, k) && !b[k].IsLeaf()
      ensures b[k].child1 !in {p, i1, i2} && b[k].child2 !in {p, i1, i2}
      ensures Live(b, b[k].child1) && Live(b, b[k].child2)
    {
      NodeAt(b, roots, {p}, [], k);
    }
  }

  /** The new parent's invariant. */
  lemma JoinAtParent(b: seq<TreeNode>, roots: set<int>, p: int, i1: int, i2: int)
    requires JoinCase(b, roots, p, i1, i2)
    ensures NodeOk(Joined(b, p, i1, i2), roots - {i1, i2} + {p}, {}, [], p)
  {
    JoinFacts(b, roots, p, i1, i2);
  }

  /** A joined root's invariant: its own subtree is untouched, and it now has a parent. */
  lemma JoinAtChild(b: seq<TreeNode>, roots: set<int>, p: int, i1: int, i2: int, k: int)
    requires JoinCase(b, roots, p, i1, i2) && (k == i1 || k == i2)
    ensures NodeOk(Joined(b, p, i1, i2), roots - {i1, i2} + {p}, {}, [], k)
  {
    JoinFacts(b, roots, p, i1, i2);
    NodeAt(b, roots, {p}, [], k);
    var c := Joined(b, p, i1, i2);
    if !b[k].IsLeaf() {
      assert c[b[k].child1] == b[b[k].child1] && c[b[k].child2] == b[b[k].child2];
    }
    assert ParentOk(c, k);
  }

  /** Any other slot keeps its record and its invariant. */
  lemma JoinAtOther(b: seq<TreeNode>, roots: set<int>, p: int, i1: int, i2: int, k: int)
    requires JoinCase(b, roots, p, i1, i2) && Live(b, k) && k != p && k != i1 && k != i2
    ensures NodeOk(Joined(b, p, i1, i2), roots - {i1, i2} + {p}, {}, [], k)
  {
    JoinFacts(b, roots, p, i1, i2);
    NodeAt(b, roots, {p}, [], k);
    var c := Joined(b, p, i1, i2);
    var rc := roots - {i1, i2} + {p};
    if !b[k].IsLeaf() {
      assert ChildLinkKept(b, c, b[k].child1, {}) && ChildLinkKept(b, c, b[k].child2, {});
      assert ChildMetricsKept(b, c, b[k].child1) && ChildMetricsKept(b, c, b[k].child2);
    }
    if k !in roots {
      assert ParentOk(b, k);
      var q := b[k].parent;
      assert q != p;
      assert c[q].child1 == b[q].child1 && c[q].child2 == b[q].child2 && c[q].height == b[q].height;
      assert ParentOk(c, k);
    }
    NodeOkKept(b, roots, {p}, [], c, rc, {}, [], k);
  }

  /**
   * Joining two roots under a fresh leaf: the forest loses the two roots and
   * gains the new parent, no proxy is gained or lost except the fresh leaf,
   * which is now internal, and no free slot changes.
   */
  lemma JoinRoots(b: seq<TreeNode>, roots: set<int>, p: int, i1: int, i2: int)
    requires JoinCase(b, roots, p, i1, i2)
    ensures Shape(Joined(b, p, i1, i2), roots - {i1, i2} + {p}, {}, [])
    ensures ProxyMap(Joined(b, p, i1, i2)) == ProxyMap(b) - {p}
    ensures FreeSlotsKept(b, Joined(b, p, i1, i2))
  {
    JoinShape(b, roots, p, i1, i2);
    JoinProxies(b, roots, p, i1, i2);
  }

  lemma JoinShape(b: seq<TreeNode>, roots: set<int>, p: int, i1: int, i2: int)
    requires JoinCase(b, roots, p, i1, i2)
    ensures Shape(Joined(b, p, i1, i2), roots - {i1, i2} + {p}, {}, [])
  {
    var c := Joined(b, p, i1, i2);
    var rc := roots - {i1, i2} + {p};
    JoinFacts(b, roots, p, i1, i2);
    forall k | Live(c, k)
      ensures NodeOk(c, rc, {}, [], k)
    {
      if k == p {
        JoinAtParent(b, roots, p, i1, i2);
      } else if k == i1 || k == i2 {
        JoinAtChild(b, roots, p, i1, i2, k);
      } else {
        JoinAtOther(b, roots, p, i1, i2, k);
      }
    }
  }

  lemma JoinProxies(b: seq<TreeNode>, roots: set<int>, p: int, i1: int, i2: int)
    requires JoinCase(b, roots, p, i1, i2)
    ensures ProxyMap(Joined(b, p, i1, i2)) == ProxyMap(b) - {p}
    ensures FreeSlotsKept(b, Joined(b, p, i1, i2))
  {
    var c := Joined(b, p, i1, i2);
    JoinFacts(b, roots, p, i1, i2);
    assert ProxyMap(c).Keys == ProxyMap(b).Keys - {p};
  }

  /**
   * Phase two's list update: the second of the pair is overwritten by the
   * last listed root and the first by the new parent, and the list is
   * shortened by one.
   */
  lemma ReplacePair(nodes: seq<int>, count: int, iMin: int, jMin: int, p: int)
    requires 0 <= iMin < jMin < count <= |nodes| && Distinct(nodes[..count])
    requires p !in Members(nodes[..count])
    ensures var n := nodes[jMin := nodes[count - 1]][iMin := p];
            && Distinct(n[..count - 1])
            && Members(n[..count - 1]) == Members(nodes[..count]) - {nodes[iMin], nodes[jMin]} + {p}
  {
    var n := nodes[jMin := nodes[count - 1]][iMin := p];
    var s := nodes[..count];
    var t := n[..count - 1];
    forall k, l | 0 <= k < l < |t|
      ensures t[k] != t[l]
    {
      assert s[k] != s[l] && s[k] != s[count - 1] && s[l] != s[count - 1];
    }
    forall y | y in t
      ensures y in Members(s) - {nodes[iMin], nodes[jMin]} + {p}
    {
      var k :| 0 <= k < |t| && t[k] == y;
      if k != iMin {
        if k == jMin {
          assert y == s[count - 1];
        } else {
          assert y == s[k];
        }
      }
    }
    forall y | y in Members(s) - {nodes[iMin], nodes[jMin]} + {p}
      ensures y in t
    {
      if y == p {
        assert t[iMin] == p;
      } else {
        var k :| 0 <= k < count && s[k] == y;
        if k == count - 1 {
          assert t[jMin] == y;
        } else {
          assert t[k] == y;
        }
      }
    }
  }

  /** The cost phase two minimises: the perimeter of the union of two slots' boxes. */
  function JoinCost(nodes: seq<TreeNode>, x: int, y: int): real
    requires 0 <= x < |nodes| && 0 <= y < |nodes|
  {
    Perimeter(Combine(nodes[x].aabb, nodes[y].aabb))
  }

  /** Pair `(p, q)` comes before pair `(i, j)` in the search order (row by row). */
  predicate Before(p: int, q: int, i: int, j: int) {
    p < i || (p == i && q < j)
  }

  /** Every listed entry is a slot of the pool. */
  predicate InPool(nodes: seq<TreeNode>, list: seq<int>, count: int) {
    0 <= count <= |list| && forall k :: 0 <= k < count ==> 0 <= list[k] < |nodes|
  }

  /**
   * The pair search has looked at every pair before `(i, j)`: if it looked
   * at any, `(iMin, jMin)` is one of them with the least cost, and every
   * pair looked at before it costs strictly more.
   */
  ghost predicate Searched(nodes: seq<TreeNode>, list: seq<int>, count: int, i: int, j: int,
                           found: bool, iMin: int, jMin: int, minCost: real)
    requires InPool(nodes, list, count)
  {
    && (found ==> 0 <= iMin < jMin < count && minCost == JoinCost(nodes, list[iMin], list[jMin]))
    && (forall p, q :: 0 <= p < q < count && Before(p, q, i, j) ==>
          found && minCost <= JoinCost(nodes, list[p], list[q]))
    && (forall p, q :: 0 <= p < q < count && Before(p, q, iMin, jMin) ==>
          minCost < JoinCost(nodes, list[p], list[q]))
  }

  lemma SearchStart(nodes: seq<TreeNode>, list: seq<int>, count: int)
    requires InPool(nodes, list, count)
    ensures Searched(nodes, list, count, 0, 1, false, -1, -1, 0.0)
  {
  }

  /** Pair `(i, j)` costs less than the best so far, or is the first: it becomes the best. */
  lemma SearchTake(nodes: seq<TreeNode>, list: seq<int>, count: int, i: int, j: int,
                   found: bool, iMin: int, jMin: int, minCost: real)
    requires InPool(nodes, list, count) && 0 <= i < j < count
    requires Searched(nodes, list, count, i, j, found, iMin, jMin, minCost)
    requires !found || JoinCost(nodes, list[i], list[j]) < minCost
    ensures Searched(nodes, list, count, i, j + 1, true, i, j, JoinCost(nodes, list[i], list[j]))
  {
    var cost := JoinCost(nodes, list[i], list[j]);
    forall p, q | 0 <= p < q < count && Before(p, q, i, j)
      ensures cost < JoinCost(nodes, list[p], list[q])
    {
      assert found && minCost <= JoinCost(nodes, list[p], list[q]);
    }
    forall p, q | 0 <= p < q < count && Before(p, q, i, j + 1)
      ensures cost <= JoinCost(nodes, list[p], list[q])
    {
      if Before(p, q, i, j) {
        assert minCost <= JoinCost(nodes, list[p], list[q]);
      }
    }
  }

  /** Pair `(i, j)` costs no less than the best so far: the best stays. */
  lemma SearchKeep(nodes: seq<TreeNode>, list: seq<int>, count: int, i: int, j: int,
                   found: bool, iMin: int, jMin: int, minCost: real)
    requires InPool(nodes, list, count) && 0 <= i < j < count
    requires Searched(nodes, list, count, i, j, found, iMin, jMin, minCost)
    requires found && minCost <= JoinCost(nodes, list[i], list[j])
    ensures Searched(nodes, list, count, i, j + 1, found, iMin, jMin, minCost)
  {
    forall p, q | 0 <= p < q < count && Before(p, q, i, j + 1)
      ensures minCost <= JoinCost(nodes, list[p], list[q])
    {
      if Before(p, q, i, j) {
        assert found && minCost <= JoinCost(nodes, list[p], list[q]);
      } else {
        assert p == i && q == j;
      }
    }
  }

  /** Row `i` is done: the search moves on to row `i + 1`. */
  lemma SearchRow(nodes: seq<TreeNode>, list: seq<int>, count: int, i: int,
                  found: bool, iMin: int, jMin: int, minCost: real)
    requires InPool(nodes, list, count) && 0 <= i < count
    requires Searched(nodes, list, count, i, count, found, iMin, jMin, minCost)
    ensures Searched(nodes, list, count, i + 1, i + 2, found, iMin, jMin, minCost)
  {
    var next, end := i + 1, i + 2;
    forall p, q | 0 <= p < q < count && Before(p, q, next, end)
      ensures found && minCost <= JoinCost(nodes, list[p], list[q])
    {
      assert Before(p, q, i, count);
    }
  }

  /** All rows done: the best pair is the least, and the first least, of all pairs. */
  lemma SearchDone(nodes: seq<TreeNode>, list: seq<int>, count: int,
                   found: bool, iMin: int, jMin: int, minCost: real)
    requires InPool(nodes, list, count) && 2 <= count
    requires Searched(nodes, list, count, count, count + 1, found, iMin, jMin, minCost)
    ensures 0 <= iMin < jMin < count
    ensures forall p, q :: 0 <= p < q < count ==>
              JoinCost(nodes, list[iMin], list[jMin]) <= JoinCost(nodes, list[p], list[q])
    ensures forall p, q :: 0 <= p < q < count && Before(p, q, iMin, jMin) ==>
              JoinCost(nodes, list[iMin], list[jMin]) < JoinCost(nodes, list[p], list[q])
  {
    assert Before(0, 1, count, count + 1);
  }

  /** Phase two's state: the first `count` listed slots are the distinct roots of a forest. */
  ghost predicate Forest(pool: seq<TreeNode>, list: seq<int>, count: int) {
    && 1 <= count <= |list| && Distinct(list[..count])
    && Shape(pool, Members(list[..count]), {}, [])
  }

  /** Two different positions of the list name two different roots of the forest. */
  lemma ForestPair(pool: seq<TreeNode>, list: seq<int>, count: int, iMin: int, jMin: int)
    requires Forest(pool, list, count) && 0 <= iMin < jMin < count
    ensures list[iMin] in Members(list[..count]) && list[jMin] in Members(list[..count])
    ensures list[iMin] != list[jMin]
  {
    assert list[..count][iMin] == list[iMin] && list[..count][jMin] == list[jMin];
  }

  /** After the join, the updated list describes the new forest. */
  lemma ForestJoin(pool: seq<TreeNode>, list: seq<int>, count: int, iMin: int, jMin: int, p: int)
    requires 0 <= iMin < jMin < count <= |list| && Distinct(list[..count])
    requires p !in Members(list[..count])
    requires Shape(pool, Members(list[..count]) - {list[iMin], list[jMin]} + {p}, {}, [])
    ensures Forest(pool, list[jMin := list[count - 1]][iMin := p], count - 1)
  {
    ReplacePair(list, count, iMin, jMin, p);
  }
}
