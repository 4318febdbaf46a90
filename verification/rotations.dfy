/**
 * The single rotation `Balance` performs at the lowest stale ancestor `A`
 * of the upward walk. With `X` the promoted child of `A` and `S` the other
 * one, `X`'s taller child `K` stays with `X` and the other child `M` moves
 * to `A`; `X` takes `A`'s place, with `A` as its first child:
 *
 *        P                P
 *        |                |
 *        A                X
 *       / \              / \
 *      S   X     ==>    A   K
 *         / \          / \
 *        K   M        S   M
 *
 * (drawn for `X` = child2 of `A`, the `C` case of the source; the `B` case
 * mirrors it with `M` becoming child1 of `A`).
 */
module Rotations {
  import opened Geometry
  import opened TreeNodes
  import opened Subtrees
  import opened TreeEdits
  import opened Splices

  /** The child of `A` that is promoted: child2 (`C`) or child1 (`B`). */
  function Promoted(a: TreeNode, xIsChild2: bool): int {
    if xIsChild2 then a.child2 else a.child1
  }

  /** The child of `A` that stays below `A`. */
  function Stays(a: TreeNode, xIsChild2: bool): int {
    if xIsChild2 then a.child1 else a.child2
  }

  /** Of `X`'s children, the one that stays with `X`: child1 if strictly taller, else child2. */
  function Kept(nodes: seq<TreeNode>, x: int): int
    requires 0 <= x < |nodes| && 0 <= nodes[x].child1 < |nodes| && 0 <= nodes[x].child2 < |nodes|
  {
    var f, g := nodes[x].child1, nodes[x].child2;
    if nodes[f].height > nodes[g].height then f else g
  }

  /** Of `X`'s children, the one that moves to `A`. */
  function Moved(nodes: seq<TreeNode>, x: int): int
    requires 0 <= x < |nodes| && 0 <= nodes[x].child1 < |nodes| && 0 <= nodes[x].child2 < |nodes|
  {
    var f, g := nodes[x].child1, nodes[x].child2;
    if nodes[f].height > nodes[g].height then g else f
  }

  /** The walk is at `path[0]`, which has an internal child on the promoted side. */
  ghost predicate RotationCase(a: seq<TreeNode>, root: int, loose: set<int>, path: seq<int>, xIsChild2: bool) {
    && Shape(a, RootSet(root), loose, path) && PathOk(a, root, path)
    && LinksOk(a, path[0])
    && var iX := Promoted(a[path[0]], xIsChild2);
    && 0 <= iX < |a| && !a[iX].IsLeaf() && LinksOk(a, iX)
    && (|path| > 1 ==> a[path[0]].parent == path[1])
    && (|path| == 1 ==> a[path[0]].parent == NullNode)
  }

  /** The record of `A` after the rotation. */
  function NewA(a: seq<TreeNode>, iA: int, xIsChild2: bool): (n: TreeNode)
    requires 0 <= iA < |a| && LinksOk(a, iA) && !a[iA].IsLeaf()
    requires var iX := Promoted(a[iA], xIsChild2); !a[iX].IsLeaf() && LinksOk(a, iX)
  {
    var iX := Promoted(a[iA], xIsChild2);
    var iS := Stays(a[iA], xIsChild2);
    var iM := Moved(a, iX);
    var linked := if xIsChild2 then a[iA].(child2 := iM) else a[iA].(child1 := iM);
    linked.(parent := iX, aabb := Combine(a[iS].aabb, a[iM].aabb), height := 1 + MaxInt(a[iS].height, a[iM].height))
  }

  /** The record of `X` after the rotation. */
  function NewX(a: seq<TreeNode>, iA: int, xIsChild2: bool): (n: TreeNode)
    requires 0 <= iA < |a| && LinksOk(a, iA) && !a[iA].IsLeaf()
    requires var iX := Promoted(a[iA], xIsChild2); !a[iX].IsLeaf() && LinksOk(a, iX)
  {
    var iX := Promoted(a[iA], xIsChild2);
    var iK := Kept(a, iX);
    var newA := NewA(a, iA, xIsChild2);
    a[iX].(child1 := iA, child2 := iK, parent := a[iA].parent,
           aabb := Combine(newA.aabb, a[iK].aabb), height := 1 + MaxInt(newA.height, a[iK].height))
  }

  /** The pool after the rotation at `path[0]`. */
  ghost function Rotated(a: seq<TreeNode>, root: int, loose: set<int>, path: seq<int>, xIsChild2: bool): seq<TreeNode>
    requires RotationCase(a, root, loose, path, xIsChild2)
  {
    var iA := path[0];
    var iX := Promoted(a[iA], xIsChild2);
    var iM := Moved(a, iX);
    var p := a[iA].parent;
    var a1 := if p != NullNode then a[p := Relinked(a[p], iA, iX)] else a;
    a1[iA := NewA(a, iA, xIsChild2)][iX := NewX(a, iA, xIsChild2)][iM := a[iM].(parent := iA)]
  }

  /** The root after the rotation: `X` if `A` was the root. */
  ghost function RotatedRoot(a: seq<TreeNode>, root: int, path: seq<int>, xIsChild2: bool): int
    requires PathOk(a, root, path) && LinksOk(a, path[0])
  {
    if |path| == 1 then Promoted(a[path[0]], xIsChild2) else root
  }

  /** The facts about the six slots a rotation touches or reads. */
  lemma RotationFacts(a: seq<TreeNode>, root: int, loose: set<int>, path: seq<int>, xIsChild2: bool)
    requires RotationCase(a, root, loose, path, xIsChild2)
    ensures var iA := path[0];
            var iX := Promoted(a[iA], xIsChild2);
            var iS := Stays(a[iA], xIsChild2);
            var iK := Kept(a, iX);
            var iM := Moved(a, iX);
            var p := a[iA].parent;
            && Live(a, iA) && Live(a, iX) && Live(a, iS) && Live(a, iK) && Live(a, iM)
            && a[iX].parent == iA && a[iS].parent == iA && a[iK].parent == iX && a[iM].parent == iX
            && iX !in path && iS !in path && iK !in path && iM !in path
            && iX != iS && iK != iM && iA != iX && iA != iS && iA != iK && iA != iM
            && iX != iK && iX != iM && iS != iK && iS != iM
            && iA !in loose && iX !in loose && iS !in loose && iK !in loose && iM !in loose
            && (p == NullNode <==> |path| == 1) && (p == NullNode ==> iA == root)
            && (p != NullNode ==>
                  && p == path[1] && Live(a, p) && !a[p].IsLeaf() && (a[p].child1 == iA || a[p].child2 == iA)
                  && p != iX && p != iS && p != iK && p != iM && p !in loose)
            && MetricsOk(a, iX) && MetricsOk(a, iS) && MetricsOk(a, iK) && MetricsOk(a, iM)
            && {iA, iX, iS, iK, iM} !! RootSet(root) - {iA}
  {
    var iA := path[0];
    var iX := Promoted(a[iA], xIsChild2);
    var iS := Stays(a[iA], xIsChild2);
    var iK := Kept(a, iX);
    var iM := Moved(a, iX);
    NodeAt(a, RootSet(root), loose, path, iA);
    ChildOfHeadOffPath(a, root, path, iX);
    ChildOfHeadOffPath(a, root, path, iS);
    ChildOffPath(a, root, path, iX, iK);
    ChildOffPath(a, root, path, iX, iM);
    NodeAt(a, RootSet(root), loose, path, iX);
    NodeAt(a, RootSet(root), loose, path, iS);
    NodeAt(a, RootSet(root), loose, path, iK);
    NodeAt(a, RootSet(root), loose, path, iM);
    var p := a[iA].parent;
    if p != NullNode {
      NodeAt(a, RootSet(root), loose, path, p);
    }
    assert root == path[|path| - 1];
  }

  /** A child of the head of the path is not on the path. */
  lemma ChildOfHeadOffPath(a: seq<TreeNode>, root: int, path: seq<int>, c: int)
    requires PathOk(a, root, path) && 0 <= c < |a| && a[c].parent == path[0]
    ensures c !in path
  {
    forall k | 0 <= k < |path|
      ensures path[k] != c
    {
      if k < |path| - 1 {
        assert a[path[k]].parent == path[k + 1];
        assert path[k + 1] != path[0];
      }
    }
  }

  /** The records of the five slots a rotation rewrites or reads, in the rotated pool. */
  lemma RotatedSlots(a: seq<TreeNode>, root: int, loose: set<int>, path: seq<int>, xIsChild2: bool)
    requires RotationCase(a, root, loose, path, xIsChild2)
    ensures var b := Rotated(a, root, loose, path, xIsChild2);
            var iA := path[0];
            var iX := Promoted(a[iA], xIsChild2);
            var iS := Stays(a[iA], xIsChild2);
            var iK := Kept(a, iX);
            var iM := Moved(a, iX);
            && |b| == |a|
            && b[iA] == NewA(a, iA, xIsChild2) && b[iX] == NewX(a, iA, xIsChild2)
            && b[iS] == a[iS] && b[iK] == a[iK] && b[iM] == a[iM].(parent := iA)
  {
    RotationFacts(a, root, loose, path, xIsChild2);
  }

  /** The head of a path of distinct nodes does not recur in its tail. */
  lemma HeadOffTail(path: seq<int>, x: int)
    requires |path| > 0 && forall k, l :: 0 <= k < l < |path| ==> path[k] != path[l]
    requires x != path[0]
    ensures path[0] !in [x] + path[1..]
  {
    forall k | 0 <= k < |path| - 1
      ensures path[1..][k] != path[0]
    {
      assert path[1..][k] == path[k + 1];
    }
  }

  lemma RotAtA(a: seq<TreeNode>, root: int, loose: set<int>, path: seq<int>, xIsChild2: bool)
    requires RotationCase(a, root, loose, path, xIsChild2)
    ensures var b := Rotated(a, root, loose, path, xIsChild2);
            var iX := Promoted(a[path[0]], xIsChild2);
            NodeOk(b, RootSet(RotatedRoot(a, root, path, xIsChild2)), loose, [iX] + path[1..], path[0])
  {
    RotationFacts(a, root, loose, path, xIsChild2);
    RotatedSlots(a, root, loose, path, xIsChild2);
    var iA := path[0];
    var iX := Promoted(a[iA], xIsChild2);
    var iS := Stays(a[iA], xIsChild2);
    var iM := Moved(a, iX);
    var b := Rotated(a, root, loose, path, xIsChild2);
    CombineCommutes(a[iS].aabb, a[iM].aabb);
    HeadOffTail(path, iX);
    assert MetricsOk(b, iA);
  }

  lemma RotAtX(a: seq<TreeNode>, root: int, loose: set<int>, path: seq<int>, xIsChild2: bool)
    requires RotationCase(a, root, loose, path, xIsChild2)
    ensures var b := Rotated(a, root, loose, path, xIsChild2);
            var iX := Promoted(a[path[0]], xIsChild2);
            NodeOk(b, RootSet(RotatedRoot(a, root, path, xIsChild2)), loose, [iX] + path[1..], iX)
  {
    RotationFacts(a, root, loose, path, xIsChild2);
    var iA := path[0];
    var iX := Promoted(a[iA], xIsChild2);
    var iK := Kept(a, iX);
    var b := Rotated(a, root, loose, path, xIsChild2);
    RotatedSlots(a, root, loose, path, xIsChild2);
    var p := a[iA].parent;
    if p != NullNode {
      assert b[p] == Relinked(a[p], iA, iX);
      assert iX != root;
    }
  }

  lemma RotAtMoved(a: seq<TreeNode>, root: int, loose: set<int>, path: seq<int>, xIsChild2: bool)
    requires RotationCase(a, root, loose, path, xIsChild2)
    ensures var b := Rotated(a, root, loose, path, xIsChild2);
            var iX := Promoted(a[path[0]], xIsChild2);
            NodeOk(b, RootSet(RotatedRoot(a, root, path, xIsChild2)), loose, [iX] + path[1..], Moved(a, iX))
  {
    RotationFacts(a, root, loose, path, xIsChild2);
    var iA := path[0];
    var iX := Promoted(a[iA], xIsChild2);
    var iM := Moved(a, iX);
    var b := Rotated(a, root, loose, path, xIsChild2);
    RotatedSlots(a, root, loose, path, xIsChild2);
    NodeAt(a, RootSet(root), loose, path, iM);
    assert iM !in [iX] + path[1..];
    if !a[iM].IsLeaf() {
      var c1, c2 := a[iM].child1, a[iM].child2;
      ChildOffPath(a, root, path, iM, c1);
      ChildOffPath(a, root, path, iM, c2);
      assert c1 != iA && c2 != iA && c1 != iX && c2 != iX && c1 != iM && c2 != iM;
      assert c1 != a[iA].parent && c2 != a[iA].parent;
      assert b[c1] == a[c1] && b[c2] == a[c2];
    }
  }

  lemma RotAtParent(a: seq<TreeNode>, root: int, loose: set<int>, path: seq<int>, xIsChild2: bool)
    requires RotationCase(a, root, loose, path, xIsChild2) && |path| > 1
    ensures var b := Rotated(a, root, loose, path, xIsChild2);
            var iX := Promoted(a[path[0]], xIsChild2);
            NodeOk(b, RootSet(RotatedRoot(a, root, path, xIsChild2)), loose, [iX] + path[1..], path[1])
  {
    RotationFacts(a, root, loose, path, xIsChild2);
    var iA := path[0];
    var iX := Promoted(a[iA], xIsChild2);
    var p := path[1];
    var b := Rotated(a, root, loose, path, xIsChild2);
    assert b[p] == Relinked(a[p], iA, iX);
    assert b[iX] == NewX(a, iA, xIsChild2);
    NodeAt(a, RootSet(root), loose, path, p);
    var q := OtherChild(a[p], iA);
    assert a[q].parent == p;
    assert q != iX && q != Moved(a, iX) && q != iA;
    assert q != p;
    assert b[q] == a[q];
    assert p in [iX] + path[1..] by {
      assert ([iX] + path[1..])[1] == p;
    }
    if |path| > 2 {
      var g := a[p].parent;
      assert g == path[2];
      NodeAt(a, RootSet(root), loose, path, g);
      assert g != iX && g != Moved(a, iX);
      assert b[g] == a[g];
    }
  }

  /** What the rotation does to one slot. */
  lemma RotatedSlot(a: seq<TreeNode>, root: int, loose: set<int>, path: seq<int>, xIsChild2: bool, i: int)
    requires RotationCase(a, root, loose, path, xIsChild2) && 0 <= i < |a|
    ensures var b := Rotated(a, root, loose, path, xIsChild2);
            var iA := path[0];
            var iX := Promoted(a[iA], xIsChild2);
            var iM := Moved(a, iX);
            var p := a[iA].parent;
            && |b| == |a|
            && (i != iA && i != iX && i != iM && i != p ==> b[i] == a[i])
            && (a[i].height < 0 <==> b[i].height < 0)
            && (a[i].height < 0 ==> b[i] == a[i])
            && (a[i].IsLeaf() <==> b[i].IsLeaf())
            && (a[i].IsLeaf() ==> b[i].aabb == a[i].aabb && b[i].userData == a[i].userData)
            && (i != iA && i != iX ==> b[i].height == a[i].height && b[i].aabb == a[i].aabb)
            && b[i].parent == (if i == iA then iX else if i == iX then p else if i == iM then iA else a[i].parent)
            && (i == iA ==> b[i] == NewA(a, iA, xIsChild2))
            && (i == iX ==> b[i] == NewX(a, iA, xIsChild2))
            && (i == iM ==> b[i] == a[iM].(parent := iA))
            && (i == p && p != NullNode ==> b[i] == Relinked(a[p], iA, iX))
  {
    RotationFacts(a, root, loose, path, xIsChild2);
    var iA := path[0];
    var iX := Promoted(a[iA], xIsChild2);
    var iM := Moved(a, iX);
    var p := a[iA].parent;
    var b := Rotated(a, root, loose, path, xIsChild2);
    if i == iA {
      assert b[iA] == NewA(a, iA, xIsChild2);
    } else if i == iX {
      assert b[iX] == NewX(a, iA, xIsChild2);
    } else if i == iM {
      assert b[iM] == a[iM].(parent := iA);
    } else if i == p {
      assert b[p] == Relinked(a[p], iA, iX);
    }
  }

  /** A slot the rotation leaves alone is still claimed by its parent. */
  lemma RotParentKept(a: seq<TreeNode>, root: int, loose: set<int>, path: seq<int>, xIsChild2: bool, i: int)
    requires RotationCase(a, root, loose, path, xIsChild2) && Live(a, i)
    requires var iX := Promoted(a[path[0]], xIsChild2);
             i != path[0] && i != iX && i != Moved(a, iX) && i != a[path[0]].parent
    requires i !in RootSet(root) && i !in loose
    ensures ParentOk(Rotated(a, root, loose, path, xIsChild2), i)
  {
    var iA := path[0];
    var iX := Promoted(a[iA], xIsChild2);
    var b := Rotated(a, root, loose, path, xIsChild2);
    NodeAt(a, RootSet(root), loose, path, i);
    var q := a[i].parent;
    NodeAt(a, RootSet(root), loose, path, q);
    RotatedSlot(a, root, loose, path, xIsChild2, i);
    RotatedSlot(a, root, loose, path, xIsChild2, q);
    if q == iA {
      assert i == Stays(a[iA], xIsChild2);
    } else if q == iX {
      assert i == Kept(a, iX);
    } else if q == a[iA].parent {
      NodeAt(a, RootSet(root), loose, path, iA);
      assert a[q].child1 == iA || a[q].child2 == iA;
    }
  }

  lemma RotAtOther(a: seq<TreeNode>, root: int, loose: set<int>, path: seq<int>, xIsChild2: bool, i: int)
    requires RotationCase(a, root, loose, path, xIsChild2) && Live(a, i)
    requires var iX := Promoted(a[path[0]], xIsChild2);
             i != path[0] && i != iX && i != Moved(a, iX) && i != a[path[0]].parent
    ensures var b := Rotated(a, root, loose, path, xIsChild2);
            var iX := Promoted(a[path[0]], xIsChild2);
            NodeOk(b, RootSet(RotatedRoot(a, root, path, xIsChild2)), loose, [iX] + path[1..], i)
  {
    var iA := path[0];
    var iX := Promoted(a[iA], xIsChild2);
    var b := Rotated(a, root, loose, path, xIsChild2);
    var pb := [iX] + path[1..];
    var rb := RootSet(RotatedRoot(a, root, path, xIsChild2));
    NodeAt(a, RootSet(root), loose, path, i);
    RotatedSlot(a, root, loose, path, xIsChild2, i);
    if !a[i].IsLeaf() {
      var c1, c2 := a[i].child1, a[i].child2;
      RotatedSlot(a, root, loose, path, xIsChild2, c1);
      RotatedSlot(a, root, loose, path, xIsChild2, c2);
    }
    assert path == [iA] + path[1..];
    assert i in pb <==> i in path;
    if i !in RootSet(root) && i !in loose {
      RotParentKept(a, root, loose, path, xIsChild2, i);
    }
    assert i in rb <==> i in RootSet(root);
    NodeOkKept(a, RootSet(root), loose, path, b, rb, loose, pb, i);
  }

  /** After the rotation the pool is shaped, with `X` in `A`'s place at the head of the path. */
  lemma RotateShape(a: seq<TreeNode>, root: int, loose: set<int>, path: seq<int>, xIsChild2: bool)
    requires RotationCase(a, root, loose, path, xIsChild2)
    ensures var b := Rotated(a, root, loose, path, xIsChild2);
            var iX := Promoted(a[path[0]], xIsChild2);
            Shape(b, RootSet(RotatedRoot(a, root, path, xIsChild2)), loose, [iX] + path[1..])
  {
    RotationFacts(a, root, loose, path, xIsChild2);
    var iA := path[0];
    var iX := Promoted(a[iA], xIsChild2);
    var iM := Moved(a, iX);
    var p := a[iA].parent;
    var b := Rotated(a, root, loose, path, xIsChild2);
    var rb := RootSet(RotatedRoot(a, root, path, xIsChild2));
    var pb := [iX] + path[1..];
    forall i | Live(b, i)
      ensures NodeOk(b, rb, loose, pb, i)
    {
      if i == iA {
        RotAtA(a, root, loose, path, xIsChild2);
      } else if i == iX {
        RotAtX(a, root, loose, path, xIsChild2);
      } else if i == iM {
        RotAtMoved(a, root, loose, path, xIsChild2);
      } else if i == p {
        RotAtParent(a, root, loose, path, xIsChild2);
      } else {
        RotAtOther(a, root, loose, path, xIsChild2, i);
      }
    }
    forall r | r in rb
      ensures Live(b, r)
    {
      if |path| > 1 {
        assert r == root && root != iA && root != iX && root != iM;
      }
    }
  }

  /**
   * Replacing the head of a repair path by `x`: the rest of the path keeps its
   * nodes and parent links, and `x` hangs where the old head did.
   */
  lemma NewPathHead(a: seq<TreeNode>, b: seq<TreeNode>, root: int, path: seq<int>, x: int)
    requires PathOk(a, root, path) && |b| == |a|
    requires Live(b, x) && !b[x].IsLeaf() && x !in path[1..]
    requires b[x].parent == (if |path| > 1 then path[1] else NullNode)
    requires forall k :: 1 <= k < |path| ==>
               Live(b, path[k]) && !b[path[k]].IsLeaf() && b[path[k]].parent == a[path[k]].parent
    ensures PathOk(b, if |path| > 1 then root else x, [x] + path[1..])
  {
    var pb := [x] + path[1..];
    forall k | 0 <= k < |pb|
      ensures Live(b, pb[k]) && !b[pb[k]].IsLeaf()
    {
      if k > 0 {
        assert pb[k] == path[k];
      }
    }
    forall k, l | 0 <= k < l < |pb|
      ensures pb[k] != pb[l]
    {
      assert pb[l] == path[l];
      if k > 0 {
        assert pb[k] == path[k];
      } else {
        assert path[l] in path[1..];
      }
    }
    forall k | 0 <= k < |pb| - 1
      ensures b[pb[k]].parent == pb[k + 1]
    {
      assert pb[k + 1] == path[k + 1];
      if k > 0 {
        assert pb[k] == path[k];
      }
    }
    if |path| > 1 {
      assert pb[|pb| - 1] == path[|path| - 1];
    }
  }

  /** After the rotation `X` heads a repair path ending at the (possibly new) root. */
  lemma RotatePathOk(a: seq<TreeNode>, root: int, loose: set<int>, path: seq<int>, xIsChild2: bool)
    requires RotationCase(a, root, loose, path, xIsChild2)
    ensures var b := Rotated(a, root, loose, path, xIsChild2);
            var iX := Promoted(a[path[0]], xIsChild2);
            PathOk(b, RotatedRoot(a, root, path, xIsChild2), [iX] + path[1..])
  {
    RotationFacts(a, root, loose, path, xIsChild2);
    var iX := Promoted(a[path[0]], xIsChild2);
    var b := Rotated(a, root, loose, path, xIsChild2);
    RotatedSlot(a, root, loose, path, xIsChild2, iX);
    forall k | 1 <= k < |path|
      ensures Live(b, path[k]) && !b[path[k]].IsLeaf() && b[path[k]].parent == a[path[k]].parent
    {
      RotatedSlot(a, root, loose, path, xIsChild2, path[k]);
    }
    NewPathHead(a, b, root, path, iX);
  }

  /** A rotation keeps every proxy and every free slot. */
  lemma RotateProxies(a: seq<TreeNode>, root: int, loose: set<int>, path: seq<int>, xIsChild2: bool)
    requires RotationCase(a, root, loose, path, xIsChild2)
    ensures var b := Rotated(a, root, loose, path, xIsChild2);
            SameProxies(a, b) && FreeSlotsKept(a, b)
  {
    var b := Rotated(a, root, loose, path, xIsChild2);
    RotatedSlot(a, root, loose, path, xIsChild2, path[0]);
    forall i | 0 <= i < |a|
      ensures (a[i].height < 0 <==> b[i].height < 0) && (a[i].height < 0 ==> b[i] == a[i])
      ensures IsProxy(a, i) <==> IsProxy(b, i)
      ensures IsProxy(a, i) ==> b[i].aabb == a[i].aabb && b[i].userData == a[i].userData
    {
      RotatedSlot(a, root, loose, path, xIsChild2, i);
    }
  }

  /** The height difference `Balance` tests at an internal node (0 at a leaf). */
  function Imbalance(nodes: seq<TreeNode>, i: int): int {
    if 0 <= i < |nodes| && !nodes[i].IsLeaf()
       && 0 <= nodes[i].child1 < |nodes| && 0 <= nodes[i].child2 < |nodes|
    then nodes[nodes[i].child2].height - nodes[nodes[i].child1].height
    else 0
  }

  /**
   * The rotation `Balance` makes at `i`: 1 lifts child2, -1 lifts child1, 0
   * leaves the node alone (a leaf, a node of height below 2, or children
   * whose heights differ by at most one).
   */
  function RotationAt(nodes: seq<TreeNode>, i: int): int {
    if !(0 <= i < |nodes|) || nodes[i].IsLeaf() || nodes[i].height < 2 then 0
    else if Imbalance(nodes, i) > 1 then 1
    else if Imbalance(nodes, i) < -1 then -1
    else 0
  }

  /** Whenever `Balance` rotates at the head of a repair path, the rotation is well defined. */
  lemma RotationCaseAt(a: seq<TreeNode>, root: int, loose: set<int>, path: seq<int>)
    requires Shape(a, RootSet(root), loose, path) && PathOk(a, root, path) && RotationAt(a, path[0]) != 0
    ensures RotationCase(a, root, loose, path, RotationAt(a, path[0]) > 0)
  {
    var iA := path[0];
    NodeAt(a, RootSet(root), loose, path, iA);
    var up := RotationAt(a, iA) > 0;
    var iX := Promoted(a[iA], up);
    NodeAt(a, RootSet(root), loose, path, iX);
    if |path| > 1 {
      assert a[path[0]].parent == path[1];
    }
  }

  /** The pool after `Balance` at the head of the repair path. */
  ghost function Balanced(a: seq<TreeNode>, root: int, loose: set<int>, path: seq<int>): seq<TreeNode>
    requires Shape(a, RootSet(root), loose, path) && PathOk(a, root, path)
  {
    if RotationAt(a, path[0]) == 0 then a
    else
      RotationCaseAt(a, root, loose, path);
      Rotated(a, root, loose, path, RotationAt(a, path[0]) > 0)
  }

  /** The node `Balance` returns: the one now in the place of `path[0]`. */
  function BalancedHead(a: seq<TreeNode>, path: seq<int>): int
    requires |path| > 0
  {
    if RotationAt(a, path[0]) == 0 then path[0] else Promoted(a[path[0]], RotationAt(a, path[0]) > 0)
  }

  /** The root after `Balance`: the lifted child when `path[0]` was the root. */
  function BalancedRoot(a: seq<TreeNode>, root: int, path: seq<int>): int
    requires |path| > 0
  {
    if RotationAt(a, path[0]) != 0 && |path| == 1 then BalancedHead(a, path) else root
  }

  /**
   * `Balance` keeps the tree well formed with the returned node at the head
   * of the repair path, and keeps every proxy and every free slot.
   */
  lemma BalancePreserves(a: seq<TreeNode>, root: int, loose: set<int>, path: seq<int>)
    requires Shape(a, RootSet(root), loose, path) && PathOk(a, root, path)
    ensures var b := Balanced(a, root, loose, path);
            var r := BalancedRoot(a, root, path);
            var rest := [BalancedHead(a, path)] + path[1..];
            && Shape(b, RootSet(r), loose, rest) && PathOk(b, r, rest)
            && SameProxies(a, b) && FreeSlotsKept(a, b)
  {
    if RotationAt(a, path[0]) == 0 {
      assert [path[0]] + path[1..] == path;
    } else {
      var up := RotationAt(a, path[0]) > 0;
      RotationCaseAt(a, root, loose, path);
      RotateShape(a, root, loose, path, up);
      RotatePathOk(a, root, loose, path, up);
      RotateProxies(a, root, loose, path, up);
    }
  }

  /** A node below `S`, `K` or `M` is neither `A`, `X` nor `A`'s parent. */
  lemma BelowRotation(a: seq<TreeNode>, root: int, loose: set<int>, path: seq<int>, xIsChild2: bool, s: int, y: int)
    requires RotationCase(a, root, loose, path, xIsChild2)
    requires WellFormedBelow(a, s) && s !in path && s != Promoted(a[path[0]], xIsChild2)
    requires a[s].parent == path[0] || a[s].parent == Promoted(a[path[0]], xIsChild2)
    requires y in Subtree(a, s)
    ensures var iX := Promoted(a[path[0]], xIsChild2);
            && 0 <= y < |a| && y != path[0] && y != iX && y != a[path[0]].parent
            && (y == Moved(a, iX) ==> y == s)
  {
    var iA := path[0];
    var iX := Promoted(a[iA], xIsChild2);
    var p := a[iA].parent;
    SubtreeFacts(a, s, y);
    PathNotBelow(a, root, path, s, y);
    assert iA in path;
    if p != NullNode {
      assert a[iA].parent == path[1];
    }
    if y == iX || (y == Moved(a, iX) && y != s) {
      assert y != s;
      var q := a[y].parent;
      assert q == iA || q == iX;
      if q == iX {
        SubtreeFacts(a, s, iX);
      }
      PathNotBelow(a, root, path, s, iA);
      assert false;
    }
  }

  /**
   * The subtrees a rotation re-hangs without touching (`S`, `K` and `M`) keep
   * their nodes and leaves.
   */
  lemma RotationKeepsSubtree(a: seq<TreeNode>, root: int, loose: set<int>, path: seq<int>, xIsChild2: bool, s: int)
    requires RotationCase(a, root, loose, path, xIsChild2)
    requires var iX := Promoted(a[path[0]], xIsChild2);
             s == Stays(a[path[0]], xIsChild2) || s == Kept(a, iX) || s == Moved(a, iX)
    ensures WellFormedBelow(a, s)
    ensures var b := Rotated(a, root, loose, path, xIsChild2);
            WellFormedBelow(b, s) && Leaves(b, s) == Leaves(a, s)
  {
    RotationFacts(a, root, loose, path, xIsChild2);
    var b := Rotated(a, root, loose, path, xIsChild2);
    WellFormedOffPath(a, RootSet(root), loose, root, path, s);
    forall y | y in Subtree(a, s)
      ensures 0 <= y < |a| && SameTreeFields(a[y], b[y])
      ensures y != s ==> b[y].parent == a[y].parent
    {
      BelowRotation(a, root, loose, path, xIsChild2, s, y);
      RotatedSlot(a, root, loose, path, xIsChild2, y);
    }
    SubtreeFrame(a, b, s);
  }

  /**
   * After the rotation `X` holds `A` (now over `S` and `M`) and `K`: the
   * proxies below them are those below `S` and `X` before.
   */
  lemma RotatedLeaves(a: seq<TreeNode>, root: int, loose: set<int>, path: seq<int>, xIsChild2: bool)
    requires RotationCase(a, root, loose, path, xIsChild2)
    ensures var iA := path[0];
            var iX := Promoted(a[iA], xIsChild2);
            var iS := Stays(a[iA], xIsChild2);
            var b := Rotated(a, root, loose, path, xIsChild2);
            && WellFormedBelow(a, iS) && WellFormedBelow(a, iX)
            && |b| == |a| && b[iX].child1 == iA && b[iX].child2 == Kept(a, iX)
            && WellFormedBelow(b, iA) && WellFormedBelow(b, Kept(a, iX))
            && Leaves(b, iA) + Leaves(b, Kept(a, iX)) == Leaves(a, iS) + Leaves(a, iX)
  {
    RotationFacts(a, root, loose, path, xIsChild2);
    RotatedSlots(a, root, loose, path, xIsChild2);
    var iA := path[0];
    var iX := Promoted(a[iA], xIsChild2);
    var iS, iK, iM := Stays(a[iA], xIsChild2), Kept(a, iX), Moved(a, iX);
    var b := Rotated(a, root, loose, path, xIsChild2);
    var rest := [iX] + path[1..];
    var r := RotatedRoot(a, root, path, xIsChild2);
    RotateShape(a, root, loose, path, xIsChild2);
    RotatePathOk(a, root, loose, path, xIsChild2);
    assert iA !in rest by {
      HeadOffTail(path, iX);
    }
    WellFormedOffPath(b, RootSet(r), loose, r, rest, iA);
    WellFormedOffPath(a, RootSet(root), loose, root, path, iX);
    RotationKeepsSubtree(a, root, loose, path, xIsChild2, iS);
    RotationKeepsSubtree(a, root, loose, path, xIsChild2, iK);
    RotationKeepsSubtree(a, root, loose, path, xIsChild2, iM);
    assert Leaves(b, iA) == Leaves(b, iS) + Leaves(b, iM);
    assert Leaves(a, iX) == Leaves(a, iK) + Leaves(a, iM);
  }

  /**
   * `Balance` keeps the proxies below the head of the repair path: the node
   * it returns has the same leaves under its two children as the head had
   * under its own.
   */
  lemma BalanceKeepsLeaves(a: seq<TreeNode>, root: int, loose: set<int>, path: seq<int>)
    requires Shape(a, RootSet(root), loose, path) && PathOk(a, root, path)
    ensures var x := path[0];
            && WellFormedBelow(a, a[x].child1) && WellFormedBelow(a, a[x].child2)
    ensures var b := Balanced(a, root, loose, path);
            var h := BalancedHead(a, path);
            && 0 <= h < |b| && !b[h].IsLeaf()
            && WellFormedBelow(b, b[h].child1) && WellFormedBelow(b, b[h].child2)
    ensures var x := path[0];
            var b := Balanced(a, root, loose, path);
            var h := BalancedHead(a, path);
            Leaves(b, b[h].child1) + Leaves(b, b[h].child2) == Leaves(a, a[x].child1) + Leaves(a, a[x].child2)
  {
    var iA := path[0];
    NodeAt(a, RootSet(root), loose, path, iA);
    var c1, c2 := a[iA].child1, a[iA].child2;
    ChildOfHeadOffPath(a, root, path, c1);
    ChildOfHeadOffPath(a, root, path, c2);
    WellFormedOffPath(a, RootSet(root), loose, root, path, c1);
    WellFormedOffPath(a, RootSet(root), loose, root, path, c2);
    if RotationAt(a, iA) != 0 {
      var up := RotationAt(a, iA) > 0;
      RotationCaseAt(a, root, loose, path);
      RotatedLeaves(a, root, loose, path, up);
      assert Balanced(a, root, loose, path) == Rotated(a, root, loose, path, up);
    }
  }
}
