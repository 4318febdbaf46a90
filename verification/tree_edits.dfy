/**
 * How the per-node invariants survive the small edits the tree makes:
 * growing the pool, handing out a slot, fixing the metrics of the lowest
 * stale ancestor, and reading off the chain of ancestors of a node.
 */
module TreeEdits {
  import opened Geometry
  import opened TreeNodes
  import opened Subtrees

  /** Child `c` keeps its parent link and liveness, and is not loose afterwards. */
  ghost predicate ChildLinkKept(a: seq<TreeNode>, b: seq<TreeNode>, c: int, lb: set<int>) {
    0 <= c < |a| <= |b| && b[c].parent == a[c].parent && (Live(a, c) ==> Live(b, c)) && c !in lb
  }

  /** Child `c` keeps the fields its parent's metrics are computed from. */
  ghost predicate ChildMetricsKept(a: seq<TreeNode>, b: seq<TreeNode>, c: int) {
    0 <= c < |a| <= |b| && b[c].height == a[c].height && b[c].aabb == a[c].aabb
  }

  /**
   * A slot whose own record is unchanged keeps its invariant when its
   * children keep what it reads of them and its parent still claims it.
   */
  lemma NodeOkKept(a: seq<TreeNode>, ra: set<int>, la: set<int>, pa: seq<int>,
                   b: seq<TreeNode>, rb: set<int>, lb: set<int>, pb: seq<int>, i: int)
    requires |a| <= |b| && Live(a, i) && b[i] == a[i] && NodeOk(a, ra, la, pa, i)
    requires !a[i].IsLeaf() ==> ChildLinkKept(a, b, a[i].child1, lb) && ChildLinkKept(a, b, a[i].child2, lb)
    requires i !in pb && !a[i].IsLeaf() ==> ChildMetricsKept(a, b, a[i].child1) && ChildMetricsKept(a, b, a[i].child2)
    requires i !in pb ==> i !in pa
    requires (i in rb <==> i in ra) && (i in lb <==> i in la)
    requires i !in rb && i !in lb ==> ParentOk(b, i)
    ensures NodeOk(b, rb, lb, pb, i)
  {
  }

  /** Appending free slots (the pool doubling) leaves the tree as it was. */
  lemma ShapeGrow(a: seq<TreeNode>, tail: seq<TreeNode>, roots: set<int>, loose: set<int>)
    requires Shape(a, roots, loose, [])
    requires forall k :: 0 <= k < |tail| ==> tail[k].height < 0
    ensures Shape(a + tail, roots, loose, [])
    ensures ProxyMap(a + tail) == ProxyMap(a)
  {
    var b := a + tail;
    forall i | Live(b, i)
      ensures NodeOk(b, roots, loose, [], i)
    {
      assert NodeOk(a, roots, loose, [], i);
      if !a[i].IsLeaf() {
        assert ChildLinkKept(a, b, a[i].child1, loose) && ChildLinkKept(a, b, a[i].child2, loose);
        assert ChildMetricsKept(a, b, a[i].child1) && ChildMetricsKept(a, b, a[i].child2);
      }
      if i !in roots && i !in loose {
        assert ParentOk(a, i);
      }
      NodeOkKept(a, roots, loose, [], b, roots, loose, [], i);
    }
    assert ProxyMap(b).Keys == ProxyMap(a).Keys;
  }

  /** The record `AllocateNode` leaves in a slot it hands out. */
  ghost predicate FreshLeaf(n: TreeNode) {
    n.child1 == NullNode && n.child2 == NullNode && n.height == 0 && n.parent == NullNode
  }

  /** A free slot turned into a fresh leaf joins the pool as a loose proxy. */
  lemma Activate(a: seq<TreeNode>, roots: set<int>, loose: set<int>, x: int, n: TreeNode)
    requires Shape(a, roots, loose, []) && 0 <= x < |a| && a[x].height < 0 && FreshLeaf(n)
    ensures Shape(a[x := n], roots, loose + {x}, [])
    ensures ProxyMap(a[x := n]) == ProxyMap(a)[x := Proxy(n.aabb, n.userData)]
  {
    var b := a[x := n];
    forall i | Live(b, i)
      ensures NodeOk(b, roots, loose + {x}, [], i)
    {
      if i != x {
        assert NodeOk(a, roots, loose, [], i);
        if i !in roots && i !in loose {
          assert ParentOk(a, i);
        }
        NodeOkKept(a, roots, loose, [], b, roots, loose + {x}, [], i);
      }
    }
    assert ProxyMap(b).Keys == ProxyMap(a).Keys + {x};
  }

  /** Freeing a loose leaf drops it, and its proxy, from the pool. */
  lemma Deactivate(a: seq<TreeNode>, roots: set<int>, loose: set<int>, x: int, n: TreeNode)
    requires Shape(a, roots, loose, []) && x in loose && n.height < 0
    ensures Shape(a[x := n], roots, loose - {x}, [])
    ensures ProxyMap(a[x := n]) == ProxyMap(a) - {x}
  {
    var b := a[x := n];
    NodeAt(a, roots, loose, [], x);
    forall i | Live(b, i)
      ensures NodeOk(b, roots, loose - {x}, [], i)
    {
      NodeAt(a, roots, loose, [], i);
      if !a[i].IsLeaf() {
        assert ChildLinkKept(a, b, a[i].child1, loose - {x}) && ChildLinkKept(a, b, a[i].child2, loose - {x});
        assert ChildMetricsKept(a, b, a[i].child1) && ChildMetricsKept(a, b, a[i].child2);
      }
      if i !in roots && i !in loose {
        assert ParentOk(a, i);
        assert a[i].parent != x;
      }
      NodeOkKept(a, roots, loose, [], b, roots, loose - {x}, [], i);
    }
    assert ProxyMap(b).Keys == ProxyMap(a).Keys - {x};
  }

  /** A loose leaf may take a new box and user data: no other slot reads them. */
  lemma RelabelLoose(a: seq<TreeNode>, roots: set<int>, loose: set<int>, x: int, box: AABB, ud: UserData)
    requires Shape(a, roots, loose, []) && x in loose
    ensures var b := a[x := a[x].(aabb := box, userData := ud)];
            && Shape(b, roots, loose, [])
            && ProxyMap(b) == ProxyMap(a)[x := Proxy(box, ud)]
            && FreeSlotsKept(a, b)
  {
    var b := a[x := a[x].(aabb := box, userData := ud)];
    NodeAt(a, roots, loose, [], x);
    forall i | Live(b, i)
      ensures NodeOk(b, roots, loose, [], i)
    {
      NodeAt(a, roots, loose, [], i);
      if i != x {
        if !a[i].IsLeaf() {
          assert ChildLinkKept(a, b, a[i].child1, loose) && ChildLinkKept(a, b, a[i].child2, loose);
          assert ChildMetricsKept(a, b, a[i].child1) && ChildMetricsKept(a, b, a[i].child2);
        }
        if i !in roots && i !in loose {
          assert ParentOk(a, i);
          assert a[i].parent != x;
        }
        NodeOkKept(a, roots, loose, [], b, roots, loose, [], i);
      }
    }
    assert ProxyMap(b).Keys == ProxyMap(a).Keys;
  }

  /** A tree that is a single leaf: taking the leaf out leaves it loose and the tree empty. */
  lemma DetachLoneRoot(a: seq<TreeNode>, r: int)
    requires Shape(a, {r}, {}, []) && 0 <= r < |a| && a[r].IsLeaf()
    ensures Shape(a, {}, {r}, [])
  {
    forall i | Live(a, i)
      ensures NodeOk(a, {}, {r}, [], i)
    {
      NodeAt(a, {r}, {}, [], i);
      if i != r {
        ReachSingleRoot(a, r, {}, i);
        assert false;
      }
    }
  }

  /** An empty tree and a single loose leaf: the leaf becomes the root. */
  lemma AttachLoneLeaf(a: seq<TreeNode>, x: int)
    requires Shape(a, {}, {x}, [])
    ensures Shape(a[x := a[x].(parent := NullNode)], {x}, {}, [])
    ensures SameProxies(a, a[x := a[x].(parent := NullNode)]) && FreeSlotsKept(a, a[x := a[x].(parent := NullNode)])
  {
    var b := a[x := a[x].(parent := NullNode)];
    NodeAt(a, {}, {x}, [], x);
    forall i | Live(b, i)
      ensures NodeOk(b, {x}, {}, [], i)
    {
      NoRootAllLoose(a, {x}, i);
    }
  }

  /** With no root, every live slot is loose. */
  lemma NoRootAllLoose(nodes: seq<TreeNode>, loose: set<int>, x: int)
    requires Shape(nodes, {}, loose, []) && Live(nodes, x)
    ensures x in loose
  {
    if x !in loose {
      ReachRoot(nodes, {}, loose, x);
      assert false;
    }
  }

  /** The invariant of one live slot of a shaped pool. */
  lemma NodeAt(nodes: seq<TreeNode>, roots: set<int>, loose: set<int>, path: seq<int>, i: int)
    requires Shape(nodes, roots, loose, path) && Live(nodes, i)
    ensures NodeOk(nodes, roots, loose, path, i)
  {
  }

  /** A loose leaf is not part of any tree. */
  lemma LooseNotInTree(nodes: seq<TreeNode>, roots: set<int>, loose: set<int>, path: seq<int>, r: int, x: int)
    requires Shape(nodes, roots, loose, path) && r in roots && WellFormedBelow(nodes, r) && x in loose
    ensures x !in Subtree(nodes, r)
  {
    if x in Subtree(nodes, r) {
      if x == r {
        NodeAt(nodes, roots, loose, path, r);
        assert false;
      }
      SubtreeFacts(nodes, r, x);
      NodeAt(nodes, roots, loose, path, nodes[x].parent);
      assert false;
    }
  }

  /**
   * The ancestors of an internal tree node, bottom-up, form a repair path
   * ending at the root; all of them are taller than the node.
   */
  lemma {:induction false} AncestorPath(nodes: seq<TreeNode>, root: int, loose: set<int>, x: int)
    returns (path: seq<int>)
    requires Shape(nodes, RootSet(root), loose, []) && Live(nodes, x) && !nodes[x].IsLeaf()
    ensures PathOk(nodes, root, path) && path[0] == x
    ensures forall k :: 0 < k < |path| ==> nodes[path[k]].height > nodes[x].height
    decreases MaxHeight(nodes) - nodes[x].height
  {
    assert NodeOk(nodes, RootSet(root), loose, [], x);
    if x == root {
      path := [x];
    } else {
      var p := nodes[x].parent;
      assert NodeOk(nodes, RootSet(root), loose, [], p);
      var rest := AncestorPath(nodes, root, loose, p);
      path := [x] + rest;
      forall k, l | 0 <= k < l < |path|
        ensures path[k] != path[l]
      {
        if k == 0 {
          assert nodes[path[l]].height > nodes[x].height;
        } else {
          assert path[k] == rest[k - 1] && path[l] == rest[l - 1];
        }
      }
      forall k | 0 < k < |path|
        ensures nodes[path[k]].height > nodes[x].height
      {
        if k > 1 {
          assert path[k] == rest[k - 1];
        }
      }
    }
  }

  /** No node below an off-path node is on the repair path. */
  lemma {:induction false} PathNotBelow(nodes: seq<TreeNode>, root: int, path: seq<int>, s: int, y: int)
    requires PathOk(nodes, root, path) && WellFormedBelow(nodes, s) && s !in path
    requires y in Subtree(nodes, s)
    ensures y !in path
    decreases if 0 <= y < |nodes| then nodes[s].height - nodes[y].height else 0
  {
    SubtreeFacts(nodes, s, y);
    if y != s && y in path {
      var p := nodes[y].parent;
      PathParentOnPath(nodes, root, path, y);
      SubtreeFacts(nodes, s, p);
      PathNotBelow(nodes, root, path, s, p);
      assert false;
    }
  }

  /** The children of a node off the path are off the path. */
  lemma ChildOffPath(nodes: seq<TreeNode>, root: int, path: seq<int>, x: int, c: int)
    requires path == [] || PathOk(nodes, root, path)
    requires 0 <= x < |nodes| && x !in path && 0 <= c < |nodes| && nodes[c].parent == x
    ensures c !in path
  {
    if c in path {
      PathParentOnPath(nodes, root, path, c);
      assert false;
    }
  }

  /** Recomputing one node's height and box from its children. */
  function Refreshed(nodes: seq<TreeNode>, x: int): (n: TreeNode)
    requires 0 <= x < |nodes| && 0 <= nodes[x].child1 < |nodes| && 0 <= nodes[x].child2 < |nodes|
    ensures n.height > nodes[nodes[x].child1].height && n.height > nodes[nodes[x].child2].height
    ensures Contains(n.aabb, nodes[nodes[x].child1].aabb) && Contains(n.aabb, nodes[nodes[x].child2].aabb)
  {
    var c1, c2 := nodes[x].child1, nodes[x].child2;
    nodes[x].(height := 1 + MaxInt(nodes[c1].height, nodes[c2].height),
              aabb := Combine(nodes[c1].aabb, nodes[c2].aabb))
  }

  /** The pool after the lowest stale ancestor `path[0]` has been refreshed. */
  ghost function FixedHead(a: seq<TreeNode>, root: int, path: seq<int>): seq<TreeNode>
    requires PathOk(a, root, path) && LinksOk(a, path[0])
  {
    a[path[0] := Refreshed(a, path[0])]
  }

  /** The refreshed slot itself: its metrics now hold and its links are as before. */
  lemma FixStepHead(a: seq<TreeNode>, root: int, loose: set<int>, path: seq<int>)
    requires Shape(a, RootSet(root), loose, path) && PathOk(a, root, path)
    ensures LinksOk(a, path[0])
    ensures NodeOk(FixedHead(a, root, path), RootSet(root), loose, path[1..], path[0])
  {
    var x := path[0];
    NodeAt(a, RootSet(root), loose, path, x);
    var b := FixedHead(a, root, path);
    assert x !in path[1..] by {
      forall k | 0 <= k < |path| - 1
        ensures path[1..][k] != x
      {
        assert path[1..][k] == path[k + 1];
      }
    }
    assert a[x].child1 != x && a[x].child2 != x by {
      // a child of x names x as its parent, but x's parent is path[1] or nothing
      if |path| > 1 {
        assert a[x].parent == path[1] && path[1] != x;
      } else {
        assert x == root && a[x].parent == NullNode;
      }
    }
    if x != root {
      assert a[x].parent == path[1];
      NodeAt(a, RootSet(root), loose, path, path[1]);
    }
  }

  /** The parent of the refreshed slot: still on the path, its links unchanged. */
  lemma FixStepParent(a: seq<TreeNode>, root: int, loose: set<int>, path: seq<int>)
    requires Shape(a, RootSet(root), loose, path) && PathOk(a, root, path) && |path| > 1
    ensures LinksOk(a, path[0])
    ensures NodeOk(FixedHead(a, root, path), RootSet(root), loose, path[1..], path[1])
  {
    var x, i := path[0], path[1];
    NodeAt(a, RootSet(root), loose, path, x);
    NodeAt(a, RootSet(root), loose, path, i);
    var b := FixedHead(a, root, path);
    assert i in path[1..] by {
      assert path[1..][0] == i;
    }
    if i != root {
      NodeAt(a, RootSet(root), loose, path, a[i].parent);
      assert a[i].parent == path[2];
    }
  }

  /** Any other live slot keeps its invariant across the refresh. */
  lemma FixStepOther(a: seq<TreeNode>, root: int, loose: set<int>, path: seq<int>, i: int)
    requires Shape(a, RootSet(root), loose, path) && PathOk(a, root, path)
    requires Live(a, i) && i != path[0] && (|path| > 1 ==> i != path[1])
    ensures LinksOk(a, path[0])
    ensures NodeOk(FixedHead(a, root, path), RootSet(root), loose, path[1..], i)
  {
    var x := path[0];
    NodeAt(a, RootSet(root), loose, path, x);
    NodeAt(a, RootSet(root), loose, path, i);
    var b := FixedHead(a, root, path);
    var rest := path[1..];
    assert i in path ==> i in rest by {
      if i in path {
        var k :| 0 <= k < |path| && path[k] == i;
        assert rest[k - 1] == i;
      }
    }
    if !a[i].IsLeaf() {
      // x's parent is path[1] (or nothing), so x is not a child of i
      assert a[i].child1 != x && a[i].child2 != x by {
        if a[i].child1 == x || a[i].child2 == x {
          assert false;
        }
      }
      assert ChildLinkKept(a, b, a[i].child1, loose) && ChildLinkKept(a, b, a[i].child2, loose);
    }
    if i !in RootSet(root) && i !in loose {
      assert ParentOk(a, i);
    }
    NodeOkKept(a, RootSet(root), loose, path, b, RootSet(root), loose, rest, i);
  }

  /**
   * One step of the upward walk: once the lowest stale ancestor has its
   * height and box recomputed, it leaves the repair path.
   */
  lemma FixStep(a: seq<TreeNode>, root: int, loose: set<int>, path: seq<int>)
    requires Shape(a, RootSet(root), loose, path) && PathOk(a, root, path)
    ensures LinksOk(a, path[0])
    ensures var b := FixedHead(a, root, path);
            && Shape(b, RootSet(root), loose, path[1..])
            && (|path| > 1 ==> PathOk(b, root, path[1..]))
            && (|path| == 1 ==> path[0] == root)
            && SameProxies(a, b) && FreeSlotsKept(a, b)
  {
    FixStepShape(a, root, loose, path);
    FixStepKeeps(a, root, loose, path);
    if |path| > 1 {
      FixRestPath(a, FixedHead(a, root, path), root, path);
    }
  }

  /** The per-slot half of `FixStep`. */
  lemma FixStepShape(a: seq<TreeNode>, root: int, loose: set<int>, path: seq<int>)
    requires Shape(a, RootSet(root), loose, path) && PathOk(a, root, path)
    ensures LinksOk(a, path[0])
    ensures Shape(FixedHead(a, root, path), RootSet(root), loose, path[1..])
  {
    var x := path[0];
    FixStepHead(a, root, loose, path);
    var b := FixedHead(a, root, path);
    var rest := path[1..];
    forall i | Live(b, i)
      ensures NodeOk(b, RootSet(root), loose, rest, i)
    {
      if i == x {
      } else if |path| > 1 && i == path[1] {
        FixStepParent(a, root, loose, path);
      } else {
        FixStepOther(a, root, loose, path, i);
      }
    }
  }

  /** Refreshing an internal node touches no proxy and no free slot. */
  lemma FixStepKeeps(a: seq<TreeNode>, root: int, loose: set<int>, path: seq<int>)
    requires Shape(a, RootSet(root), loose, path) && PathOk(a, root, path) && LinksOk(a, path[0])
    ensures SameProxies(a, FixedHead(a, root, path)) && FreeSlotsKept(a, FixedHead(a, root, path))
  {
  }

  /** The rest of the path is still a path once its head is refreshed. */
  lemma FixRestPath(a: seq<TreeNode>, b: seq<TreeNode>, root: int, path: seq<int>)
    requires PathOk(a, root, path) && |path| > 1 && |b| == |a|
    requires forall i :: 0 <= i < |a| && i != path[0] ==> b[i] == a[i]
    ensures PathOk(b, root, path[1..])
  {
    var rest := path[1..];
    forall k | 0 <= k < |rest| - 1
      ensures b[rest[k]].parent == rest[k + 1]
    {
      assert rest[k] == path[k + 1] && rest[k + 1] == path[k + 2];
    }
    forall k | 0 <= k < |rest|
      ensures Live(b, rest[k]) && !b[rest[k]].IsLeaf()
    {
      assert rest[k] == path[k + 1];
    }
    forall k, l | 0 <= k < l < |rest|
      ensures rest[k] != rest[l]
    {
      assert rest[k] == path[k + 1] && rest[l] == path[l + 1];
    }
  }

  /**
   * Where the upward walk stands: at `index`, the lowest stale ancestor,
   * with the rest of the repair path above it; or past the root, with every
   * node's height and box up to date.
   */
  ghost predicate Walk(nodes: seq<TreeNode>, root: int, loose: set<int>, index: int, path: seq<int>) {
    if index != NullNode then
      |path| > 0 && path[0] == index && Shape(nodes, RootSet(root), loose, path) && PathOk(nodes, root, path)
    else
      Shape(nodes, RootSet(root), loose, []) && root != NullNode
  }

  /** Refreshing the head of the path moves the walk to its parent. */
  lemma WalkStep(a: seq<TreeNode>, root: int, loose: set<int>, path: seq<int>)
    requires Shape(a, RootSet(root), loose, path) && PathOk(a, root, path)
    ensures LinksOk(a, path[0])
    ensures var b := FixedHead(a, root, path);
            && Walk(b, root, loose, b[path[0]].parent, path[1..])
            && SameProxies(a, b) && FreeSlotsKept(a, b)
  {
    FixStep(a, root, loose, path);
    if |path| > 1 {
      assert a[path[0]].parent == path[1];
    }
  }
}
