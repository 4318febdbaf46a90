/**
 * Whole-subtree views of the node pool, derived from the per-node invariants:
 * the nodes and the leaves below a node, and the facts that make the pool a
 * forest (every node below a root, no node below two siblings).
 */
module Subtrees {
  import opened Geometry
  import opened TreeNodes

  /** Every node below `x` (and `x` itself) satisfies the link and metric invariants. */
  ghost predicate WellFormedBelow(nodes: seq<TreeNode>, x: int)
    decreases if 0 <= x < |nodes| then nodes[x].height else 0
  {
    && Live(nodes, x) && LinksOk(nodes, x) && MetricsOk(nodes, x)
    && (!nodes[x].IsLeaf() ==>
          WellFormedBelow(nodes, nodes[x].child1) && WellFormedBelow(nodes, nodes[x].child2))
  }

  /** The slots of the subtree rooted at `x`. */
  ghost function Subtree(nodes: seq<TreeNode>, x: int): set<int>
    requires WellFormedBelow(nodes, x)
    decreases nodes[x].height
  {
    if nodes[x].IsLeaf() then {x}
    else {x} + Subtree(nodes, nodes[x].child1) + Subtree(nodes, nodes[x].child2)
  }

  /** The proxies (leaves) of the subtree rooted at `x`. */
  ghost function Leaves(nodes: seq<TreeNode>, x: int): set<int>
    requires WellFormedBelow(nodes, x)
    decreases nodes[x].height
  {
    if nodes[x].IsLeaf() then {x}
    else Leaves(nodes, nodes[x].child1) + Leaves(nodes, nodes[x].child2)
  }

  /** The largest height stored in the pool. */
  ghost function MaxHeight(nodes: seq<TreeNode>): (m: int)
    ensures forall i :: 0 <= i < |nodes| ==> nodes[i].height <= m
  {
    if |nodes| == 0 then 0
    else MaxInt(nodes[|nodes| - 1].height, MaxHeight(nodes[..|nodes| - 1]))
  }

  /** Everything a subtree's members inherit from its root. */
  lemma {:induction false} SubtreeFacts(nodes: seq<TreeNode>, x: int, y: int)
    requires WellFormedBelow(nodes, x) && y in Subtree(nodes, x)
    ensures WellFormedBelow(nodes, y) && Subtree(nodes, y) <= Subtree(nodes, x)
    ensures Leaves(nodes, y) <= Leaves(nodes, x)
    ensures nodes[y].height <= nodes[x].height
    ensures Contains(nodes[x].aabb, nodes[y].aabb)
    ensures y != x ==> nodes[y].height < nodes[x].height
    ensures y != x ==> var p := nodes[y].parent;
                       p in Subtree(nodes, x) && Live(nodes, p) && !nodes[p].IsLeaf() &&
                       (nodes[p].child1 == y || nodes[p].child2 == y)
    decreases nodes[x].height
  {
    if y == x {
      ContainsReflexive(nodes[x].aabb);
    } else {
      var c := if y in Subtree(nodes, nodes[x].child1) then nodes[x].child1 else nodes[x].child2;
      SubtreeFacts(nodes, c, y);
      ContainsTransitive(nodes[x].aabb, nodes[c].aabb, nodes[y].aabb);
    }
  }

  /** Subtrees of the leaves-only kind: a leaf's leaves are itself. */
  lemma {:induction false} LeavesInSubtree(nodes: seq<TreeNode>, x: int)
    requires WellFormedBelow(nodes, x)
    ensures Leaves(nodes, x) == set y | y in Subtree(nodes, x) && 0 <= y < |nodes| && nodes[y].IsLeaf()
    decreases nodes[x].height
  {
    if !nodes[x].IsLeaf() {
      LeavesInSubtree(nodes, nodes[x].child1);
      LeavesInSubtree(nodes, nodes[x].child2);
    }
  }

  /** A node is never below its own child. */
  lemma ParentNotBelow(nodes: seq<TreeNode>, c: int, p: int)
    requires WellFormedBelow(nodes, c)
    requires 0 <= p < |nodes| && !nodes[p].IsLeaf() && (nodes[p].child1 == c || nodes[p].child2 == c)
    ensures p !in Subtree(nodes, c)
  {
    if p in Subtree(nodes, c) {
      SubtreeFacts(nodes, c, p);
      assert false;
    }
  }

  /** Two subtrees that share a node are nested. */
  lemma {:induction false} Nested(nodes: seq<TreeNode>, a: int, b: int, y: int)
    requires WellFormedBelow(nodes, a) && WellFormedBelow(nodes, b)
    requires 0 <= y < |nodes| && y in Subtree(nodes, a) && y in Subtree(nodes, b)
    ensures a in Subtree(nodes, b) || b in Subtree(nodes, a)
    decreases nodes[a].height - nodes[y].height
  {
    SubtreeFacts(nodes, a, y);
    SubtreeFacts(nodes, b, y);
    if y != a && y != b {
      var p := nodes[y].parent;
      SubtreeFacts(nodes, a, p);
      Nested(nodes, a, b, p);
    }
  }

  /** The two children of a node span disjoint subtrees that do not contain it. */
  lemma ChildrenDisjoint(nodes: seq<TreeNode>, x: int)
    requires WellFormedBelow(nodes, x) && !nodes[x].IsLeaf()
    ensures x !in Subtree(nodes, nodes[x].child1) && x !in Subtree(nodes, nodes[x].child2)
    ensures Subtree(nodes, nodes[x].child1) !! Subtree(nodes, nodes[x].child2)
  {
    var c1, c2 := nodes[x].child1, nodes[x].child2;
    ParentNotBelow(nodes, c1, x);
    ParentNotBelow(nodes, c2, x);
    forall y | y in Subtree(nodes, c1)
      ensures y !in Subtree(nodes, c2)
    {
      if y in Subtree(nodes, c2) {
        SubtreeFacts(nodes, c1, y);
        Nested(nodes, c1, c2, y);
        if c1 in Subtree(nodes, c2) {
          SubtreeFacts(nodes, c2, c1);
        } else {
          SubtreeFacts(nodes, c1, c2);
        }
        assert false;
      }
    }
  }

  /** The fields a subtree view reads are the same in two pools. */
  ghost predicate SameTreeFields(a: TreeNode, b: TreeNode) {
    a.aabb == b.aabb && a.child1 == b.child1 && a.child2 == b.child2 && a.height == b.height
  }

  /**
   * A subtree is unaffected by writes outside it (and by a new parent link
   * of its own root).
   */
  lemma {:induction false} SubtreeFrame(a: seq<TreeNode>, b: seq<TreeNode>, x: int)
    requires WellFormedBelow(a, x) && |a| <= |b|
    requires forall y :: y in Subtree(a, x) ==> 0 <= y < |a| && SameTreeFields(a[y], b[y])
    requires forall y :: y in Subtree(a, x) && y != x ==> b[y].parent == a[y].parent
    ensures WellFormedBelow(b, x)
    ensures Subtree(b, x) == Subtree(a, x) && Leaves(b, x) == Leaves(a, x)
    ensures forall y :: y in Subtree(a, x) ==> (a[y].IsLeaf() <==> b[y].IsLeaf())
    decreases a[x].height
  {
    if !a[x].IsLeaf() {
      var c1, c2 := a[x].child1, a[x].child2;
      ChildrenDisjoint(a, x);
      SubtreeFrame(a, b, c1);
      SubtreeFrame(a, b, c2);
    }
  }

  /** A node off the repair path of a shaped pool is well formed below. */
  lemma {:induction false} WellFormedOffPath(nodes: seq<TreeNode>, roots: set<int>, loose: set<int>,
                                             root: int, path: seq<int>, x: int)
    requires Shape(nodes, roots, loose, path) && (path == [] || PathOk(nodes, root, path))
    requires Live(nodes, x) && x !in path
    ensures WellFormedBelow(nodes, x)
    decreases nodes[x].height
  {
    assert NodeOk(nodes, roots, loose, path, x);
    if !nodes[x].IsLeaf() {
      var c1, c2 := nodes[x].child1, nodes[x].child2;
      if c1 in path {
        PathParentOnPath(nodes, root, path, c1);
        assert false;
      }
      if c2 in path {
        PathParentOnPath(nodes, root, path, c2);
        assert false;
      }
      WellFormedOffPath(nodes, roots, loose, root, path, c1);
      WellFormedOffPath(nodes, roots, loose, root, path, c2);
    }
  }

  /** The repair path is closed upwards: the parent of a node on it is on it. */
  lemma PathParentOnPath(nodes: seq<TreeNode>, root: int, path: seq<int>, c: int)
    requires path == [] || PathOk(nodes, root, path)
    requires c in path && 0 <= c < |nodes| && nodes[c].parent != NullNode
    ensures nodes[c].parent in path
  {
    var k :| 0 <= k < |path| && path[k] == c;
    if k < |path| - 1 {
      assert nodes[c].parent == path[k + 1];
    }
  }

  /** In a shaped pool with no repair in progress every tree node lies below a root. */
  lemma {:induction false} ReachRoot(nodes: seq<TreeNode>, roots: set<int>, loose: set<int>, x: int)
    requires Shape(nodes, roots, loose, []) && Live(nodes, x) && x !in loose
    ensures exists r :: r in roots && WellFormedBelow(nodes, r) && x in Subtree(nodes, r)
    decreases MaxHeight(nodes) - nodes[x].height
  {
    assert NodeOk(nodes, roots, loose, [], x);
    if x in roots {
      WellFormedOffPath(nodes, roots, loose, NullNode, [], x);
    } else {
      var p := nodes[x].parent;
      assert NodeOk(nodes, roots, loose, [], p);
      ReachRoot(nodes, roots, loose, p);
      var r :| r in roots && WellFormedBelow(nodes, r) && p in Subtree(nodes, r);
      SubtreeFacts(nodes, r, p);
    }
  }

  /** With a single root, every tree node lies below it. */
  lemma ReachSingleRoot(nodes: seq<TreeNode>, root: int, loose: set<int>, x: int)
    requires Shape(nodes, RootSet(root), loose, []) && Live(nodes, x) && x !in loose
    ensures root != NullNode && WellFormedBelow(nodes, root) && x in Subtree(nodes, root)
  {
    ReachRoot(nodes, RootSet(root), loose, x);
  }
}
