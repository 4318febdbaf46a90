/**
 * The two splices of the tree: `InsertLeaf` hangs a new parent over the
 * chosen sibling and the new leaf; `RemoveLeaf` replaces a leaf's parent by
 * the leaf's sibling. Both leave the tree shaped, with the ancestors of the
 * edit as the repair path that the upward walk then fixes.
 */
module Splices {
  import opened Geometry
  import opened TreeNodes
  import opened Subtrees
  import opened TreeEdits

  /** Node `n` with its child link to `c` redirected to `d`. */
  function Relinked(n: TreeNode, c: int, d: int): (r: TreeNode)
    ensures n.child1 == c ==> r.child1 == d && r.child2 == n.child2
    ensures n.child1 != c ==> r.child1 == n.child1 && r.child2 == d
  {
    if n.child1 == c then n.(child1 := d) else n.(child2 := d)
  }

  /** The child of `n` that is not `c`. */
  function OtherChild(n: TreeNode, c: int): int {
    if n.child1 == c then n.child2 else n.child1
  }

  // ---------------------------------------------------------------- insert

  /**
   * `b` is `a` after `InsertLeaf` has hung the freshly allocated `np` over
   * `sib` (its child1) and `leaf` (its child2), in `sib`'s old place.
   * `anc` lists the ancestors of `sib`'s old parent.
   */
  ghost predicate InsertCase(a: seq<TreeNode>, b: seq<TreeNode>, root: int, leaf: int, np: int, sib: int,
                             anc: seq<int>)
  {
    && Shape(a, RootSet(root), {leaf, np}, [])
    && IsProxy(a, leaf) && IsProxy(a, np) && leaf != np
    && Live(a, sib) && sib != leaf && sib != np
    && |b| == |a|
    && var op := a[sib].parent;
    && (op != NullNode ==>
          && PathOk(a, root, anc) && anc[0] == op
          && (forall k :: 0 < k < |anc| ==> a[anc[k]].height > a[op].height))
    && b[np] == TreeNode(Combine(a[leaf].aabb, a[sib].aabb), sib, leaf, a[sib].height + 1, NoUserData, op)
    && b[sib] == a[sib].(parent := np)
    && b[leaf] == a[leaf].(parent := np)
    && (op != NullNode ==> 0 <= op < |a| && b[op] == Relinked(a[op], sib, np))
    && (forall j :: 0 <= j < |a| && j != np && j != sib && j != leaf && j != op ==> b[j] == a[j])
  }

  /** The repair path after the insertion splice. */
  ghost function InsertPath(a: seq<TreeNode>, np: int, sib: int, anc: seq<int>): seq<int>
    requires 0 <= sib < |a|
  {
    if a[sib].parent == NullNode then [np] else [np] + anc
  }

  /** The root after the insertion splice. */
  ghost function InsertRoot(a: seq<TreeNode>, root: int, np: int, sib: int): int
    requires 0 <= sib < |a|
  {
    if a[sib].parent == NullNode then np else root
  }

  /** What the insertion splice can rely on about its slots. */
  lemma InsertFacts(a: seq<TreeNode>, b: seq<TreeNode>, root: int, leaf: int, np: int, sib: int, anc: seq<int>)
    requires InsertCase(a, b, root, leaf, np, sib, anc)
    ensures var op := a[sib].parent;
            && (op == NullNode ==> sib == root)
            && (op != NullNode ==>
                  && Live(a, op) && !a[op].IsLeaf() && (a[op].child1 == sib || a[op].child2 == sib)
                  && op != np && op != leaf && op != sib
                  && sib !in anc && np !in anc && leaf !in anc && root in anc
                  && a[op].height > a[sib].height)
            && (sib !in RootSet(root) ==> op != NullNode)
  {
    var op := a[sib].parent;
    NodeAt(a, RootSet(root), {leaf, np}, [], sib);
    if op != NullNode {
      NodeAt(a, RootSet(root), {leaf, np}, [], op);
      assert root == anc[|anc| - 1];
      assert sib !in anc;
    }
  }

  lemma InsertAtNew(a: seq<TreeNode>, b: seq<TreeNode>, root: int, leaf: int, np: int, sib: int, anc: seq<int>)
    requires InsertCase(a, b, root, leaf, np, sib, anc)
    ensures NodeOk(b, RootSet(InsertRoot(a, root, np, sib)), {}, InsertPath(a, np, sib, anc), np)
  {
    InsertFacts(a, b, root, leaf, np, sib, anc);
    var op := a[sib].parent;
    if op != NullNode {
      assert np != root;
    }
  }

  lemma InsertAtOldParent(a: seq<TreeNode>, b: seq<TreeNode>, root: int, leaf: int, np: int, sib: int,
                          anc: seq<int>)
    requires InsertCase(a, b, root, leaf, np, sib, anc) && a[sib].parent != NullNode
    ensures NodeOk(b, RootSet(root), {}, InsertPath(a, np, sib, anc), a[sib].parent)
  {
    InsertFacts(a, b, root, leaf, np, sib, anc);
    var op := a[sib].parent;
    NodeAt(a, RootSet(root), {leaf, np}, [], op);
    var q := OtherChild(a[op], sib);
    assert a[q].parent == op;
    assert q != np && q != leaf && q != sib;
    assert q != op;
    assert op in InsertPath(a, np, sib, anc) by {
      assert InsertPath(a, np, sib, anc)[1] == op;
    }
    if op != root {
      var p2 := a[op].parent;
      assert p2 == anc[1];
      assert a[anc[1]].height > a[op].height;
      NodeAt(a, RootSet(root), {leaf, np}, [], p2);
      assert p2 != sib && p2 != np && p2 != leaf;
      assert b[p2] == a[p2];
    }
  }

  lemma InsertAtSibling(a: seq<TreeNode>, b: seq<TreeNode>, root: int, leaf: int, np: int, sib: int,
                        anc: seq<int>)
    requires InsertCase(a, b, root, leaf, np, sib, anc)
    ensures NodeOk(b, RootSet(InsertRoot(a, root, np, sib)), {}, InsertPath(a, np, sib, anc), sib)
  {
    InsertFacts(a, b, root, leaf, np, sib, anc);
    var op := a[sib].parent;
    NodeAt(a, RootSet(root), {leaf, np}, [], sib);
    assert sib !in InsertPath(a, np, sib, anc);
    if !a[sib].IsLeaf() {
      var c1, c2 := a[sib].child1, a[sib].child2;
      NodeAt(a, RootSet(root), {leaf, np}, [], c1);
      NodeAt(a, RootSet(root), {leaf, np}, [], c2);
      assert c1 != op && c2 != op;
      assert b[c1] == a[c1] && b[c2] == a[c2];
    }
  }

  lemma InsertAtLeaf(a: seq<TreeNode>, b: seq<TreeNode>, root: int, leaf: int, np: int, sib: int,
                     anc: seq<int>)
    requires InsertCase(a, b, root, leaf, np, sib, anc)
    ensures NodeOk(b, RootSet(InsertRoot(a, root, np, sib)), {}, InsertPath(a, np, sib, anc), leaf)
  {
    InsertFacts(a, b, root, leaf, np, sib, anc);
    NodeAt(a, RootSet(root), {leaf, np}, [], leaf);
  }

  lemma InsertAtOther(a: seq<TreeNode>, b: seq<TreeNode>, root: int, leaf: int, np: int, sib: int,
                      anc: seq<int>, i: int)
    requires InsertCase(a, b, root, leaf, np, sib, anc)
    requires Live(a, i) && i != np && i != leaf && i != sib && i != a[sib].parent
    ensures NodeOk(b, RootSet(InsertRoot(a, root, np, sib)), {}, InsertPath(a, np, sib, anc), i)
  {
    InsertFacts(a, b, root, leaf, np, sib, anc);
    var op := a[sib].parent;
    NodeAt(a, RootSet(root), {leaf, np}, [], i);
    var pb := InsertPath(a, np, sib, anc);
    var rb := RootSet(InsertRoot(a, root, np, sib));
    if !a[i].IsLeaf() {
      var c1, c2 := a[i].child1, a[i].child2;
      assert c1 != sib && c2 != sib;
      assert ChildLinkKept(a, b, c1, {}) && ChildLinkKept(a, b, c2, {});
      assert ChildMetricsKept(a, b, c1) && ChildMetricsKept(a, b, c2);
    }
    if i !in RootSet(root) {
      var p := a[i].parent;
      assert ParentOk(a, i);
      NodeAt(a, RootSet(root), {leaf, np}, [], p);
      assert ParentOk(b, i);
    }
    NodeOkKept(a, RootSet(root), {leaf, np}, [], b, rb, {}, pb, i);
  }

  /** After the insertion splice the pool is shaped with the new parent's ancestry as repair path. */
  lemma InsertShape(a: seq<TreeNode>, b: seq<TreeNode>, root: int, leaf: int, np: int, sib: int, anc: seq<int>)
    requires InsertCase(a, b, root, leaf, np, sib, anc)
    ensures Shape(b, RootSet(InsertRoot(a, root, np, sib)), {}, InsertPath(a, np, sib, anc))
  {
    var op := a[sib].parent;
    forall i | Live(b, i)
      ensures NodeOk(b, RootSet(InsertRoot(a, root, np, sib)), {}, InsertPath(a, np, sib, anc), i)
    {
      if i == np {
        InsertAtNew(a, b, root, leaf, np, sib, anc);
      } else if i == leaf {
        InsertAtLeaf(a, b, root, leaf, np, sib, anc);
      } else if i == sib {
        InsertAtSibling(a, b, root, leaf, np, sib, anc);
      } else if i == op {
        InsertAtOldParent(a, b, root, leaf, np, sib, anc);
      } else {
        InsertAtOther(a, b, root, leaf, np, sib, anc, i);
      }
    }
    InsertFacts(a, b, root, leaf, np, sib, anc);
  }

  /** The repair path of the insertion splice is a path of the new pool. */
  lemma InsertPathOk(a: seq<TreeNode>, b: seq<TreeNode>, root: int, leaf: int, np: int, sib: int, anc: seq<int>)
    requires InsertCase(a, b, root, leaf, np, sib, anc)
    ensures PathOk(b, InsertRoot(a, root, np, sib), InsertPath(a, np, sib, anc))
  {
    InsertFacts(a, b, root, leaf, np, sib, anc);
    var op := a[sib].parent;
    if op != NullNode {
      var path := [np] + anc;
      forall k | 0 <= k < |anc|
        ensures b[anc[k]] == (if anc[k] == op then Relinked(a[op], sib, np) else a[anc[k]])
      {
      }
      forall k | 0 <= k < |path|
        ensures Live(b, path[k]) && !b[path[k]].IsLeaf()
      {
        if k > 0 {
          assert path[k] == anc[k - 1];
        }
      }
      forall k, l | 0 <= k < l < |path|
        ensures path[k] != path[l]
      {
        assert path[l] == anc[l - 1];
        if k > 0 {
          assert path[k] == anc[k - 1];
        }
      }
      forall k | 0 <= k < |path| - 1
        ensures b[path[k]].parent == path[k + 1]
      {
        if k > 0 {
          assert path[k] == anc[k - 1] && path[k + 1] == anc[k];
        }
      }
      assert path[|path| - 1] == anc[|anc| - 1];
    }
  }

  /** The splice turns the new parent from a proxy into an internal node and keeps every other proxy. */
  lemma InsertProxies(a: seq<TreeNode>, b: seq<TreeNode>, root: int, leaf: int, np: int, sib: int, anc: seq<int>)
    requires InsertCase(a, b, root, leaf, np, sib, anc)
    ensures ProxyMap(b) == ProxyMap(a) - {np}
    ensures FreeSlotsKept(a, b)
  {
    InsertFacts(a, b, root, leaf, np, sib, anc);
    assert ProxyMap(b).Keys == ProxyMap(a).Keys - {np};
  }

  // ---------------------------------------------------------------- remove

  /**
   * `b` is `a` after `RemoveLeaf` has cut `leaf` out: its parent `p` is
   * freed and the sibling takes `p`'s place under the grandparent (or
   * becomes the root). `anc` lists the ancestors of the grandparent.
   */
  ghost predicate RemoveCase(a: seq<TreeNode>, b: seq<TreeNode>, root: int, leaf: int, anc: seq<int>)
  {
    && Shape(a, RootSet(root), {}, [])
    && IsProxy(a, leaf) && leaf != root
    && |b| == |a|
    && var p := a[leaf].parent;
    && 0 <= p < |a| && !a[p].IsLeaf()
    && var gp := a[p].parent;
    && var sib := OtherChild(a[p], leaf);
    && 0 <= sib < |a|
    && b[p].height < 0
    && (gp != NullNode ==>
          && 0 <= gp < |a|
          && PathOk(a, root, anc) && anc[0] == gp
          && (forall k :: 0 < k < |anc| ==> a[anc[k]].height > a[gp].height)
          && b[gp] == Relinked(a[gp], p, sib)
          && b[sib] == a[sib].(parent := gp))
    && (gp == NullNode ==> b[sib] == a[sib].(parent := NullNode))
    && (forall j :: 0 <= j < |a| && j != p && j != gp && j != sib ==> b[j] == a[j])
  }

  ghost function RemovePath(a: seq<TreeNode>, leaf: int, anc: seq<int>): seq<int>
    requires 0 <= leaf < |a| && 0 <= a[leaf].parent < |a|
  {
    if a[a[leaf].parent].parent == NullNode then [] else anc
  }

  ghost function RemoveRoot(a: seq<TreeNode>, root: int, leaf: int): int
    requires 0 <= leaf < |a| && 0 <= a[leaf].parent < |a|
  {
    var p := a[leaf].parent;
    if a[p].parent == NullNode then OtherChild(a[p], leaf) else root
  }

  /** What the removal splice can rely on about its slots. */
  lemma RemoveFacts(a: seq<TreeNode>, b: seq<TreeNode>, root: int, leaf: int, anc: seq<int>)
    requires RemoveCase(a, b, root, leaf, anc)
    ensures var p := a[leaf].parent;
            var gp := a[p].parent;
            var sib := OtherChild(a[p], leaf);
            && Live(a, p) && Live(a, sib) && a[sib].parent == p && sib != leaf && p != leaf && p != sib
            && (a[p].child1 == leaf || a[p].child2 == leaf)
            && a[p].height > a[sib].height
            && (gp == NullNode ==> p == root)
            && (gp != NullNode ==>
                  && Live(a, gp) && !a[gp].IsLeaf() && (a[gp].child1 == p || a[gp].child2 == p)
                  && gp != leaf && gp != sib && gp != p && a[gp].height > a[p].height
                  && p !in anc && sib !in anc && leaf !in anc && root in anc)
  {
    var p := a[leaf].parent;
    NodeAt(a, RootSet(root), {}, [], leaf);
    NodeAt(a, RootSet(root), {}, [], p);
    var gp := a[p].parent;
    if gp != NullNode {
      NodeAt(a, RootSet(root), {}, [], gp);
      assert root == anc[|anc| - 1];
      forall k | 0 < k < |anc|
        ensures anc[k] != p && anc[k] != OtherChild(a[p], leaf) && anc[k] != leaf
      {
        assert a[anc[k]].height > a[gp].height;
      }
    }
  }

  lemma RemoveAtSibling(a: seq<TreeNode>, b: seq<TreeNode>, root: int, leaf: int, anc: seq<int>)
    requires RemoveCase(a, b, root, leaf, anc)
    ensures var sib := OtherChild(a[a[leaf].parent], leaf);
            NodeOk(b, RootSet(RemoveRoot(a, root, leaf)), {leaf}, RemovePath(a, leaf, anc), sib)
  {
    RemoveFacts(a, b, root, leaf, anc);
    var p := a[leaf].parent;
    var gp := a[p].parent;
    var sib := OtherChild(a[p], leaf);
    NodeAt(a, RootSet(root), {}, [], sib);
    assert sib !in RemovePath(a, leaf, anc);
    if !a[sib].IsLeaf() {
      var c1, c2 := a[sib].child1, a[sib].child2;
      NodeAt(a, RootSet(root), {}, [], c1);
      NodeAt(a, RootSet(root), {}, [], c2);
      assert c1 != p && c2 != p && c1 != gp && c2 != gp && c1 != leaf && c2 != leaf;
      assert b[c1] == a[c1] && b[c2] == a[c2];
    }
    if gp != NullNode {
      assert sib != RemoveRoot(a, root, leaf);
    }
  }

  lemma RemoveAtGrandParent(a: seq<TreeNode>, b: seq<TreeNode>, root: int, leaf: int, anc: seq<int>)
    requires RemoveCase(a, b, root, leaf, anc) && a[a[leaf].parent].parent != NullNode
    ensures NodeOk(b, RootSet(root), {leaf}, anc, a[a[leaf].parent].parent)
  {
    RemoveFacts(a, b, root, leaf, anc);
    var p := a[leaf].parent;
    var gp := a[p].parent;
    var sib := OtherChild(a[p], leaf);
    NodeAt(a, RootSet(root), {}, [], gp);
    var q := OtherChild(a[gp], p);
    assert a[q].parent == gp;
    assert q != p && q != sib && q != leaf;
    assert q != gp;
    assert gp in anc by {
      assert anc[0] == gp;
    }
    if gp != root {
      var g2 := a[gp].parent;
      assert g2 == anc[1];
      assert a[anc[1]].height > a[gp].height;
      NodeAt(a, RootSet(root), {}, [], g2);
      assert b[g2] == a[g2];
    }
  }

  /** A child of an untouched internal node keeps what that node reads of it. */
  lemma RemoveOtherChild(a: seq<TreeNode>, b: seq<TreeNode>, root: int, leaf: int, anc: seq<int>, i: int, c: int)
    requires RemoveCase(a, b, root, leaf, anc)
    requires Live(a, i) && i != leaf && i != a[leaf].parent && i != a[a[leaf].parent].parent
    requires i != OtherChild(a[a[leaf].parent], leaf)
    requires !a[i].IsLeaf() && (c == a[i].child1 || c == a[i].child2)
    ensures ChildLinkKept(a, b, c, {leaf}) && ChildMetricsKept(a, b, c)
  {
    RemoveFacts(a, b, root, leaf, anc);
    var p := a[leaf].parent;
    var sib := OtherChild(a[p], leaf);
    NodeAt(a, RootSet(root), {}, [], i);
    assert c != p && c != sib && c != leaf;
  }

  /** An untouched non-root node is still claimed by its parent. */
  lemma RemoveOtherParent(a: seq<TreeNode>, b: seq<TreeNode>, root: int, leaf: int, anc: seq<int>, i: int)
    requires RemoveCase(a, b, root, leaf, anc)
    requires Live(a, i) && i != leaf && i != a[leaf].parent && i != a[a[leaf].parent].parent
    requires i != OtherChild(a[a[leaf].parent], leaf) && i != root
    ensures ParentOk(b, i)
  {
    RemoveFacts(a, b, root, leaf, anc);
    var p := a[leaf].parent;
    NodeAt(a, RootSet(root), {}, [], i);
    var pi := a[i].parent;
    assert ParentOk(a, i);
    NodeAt(a, RootSet(root), {}, [], pi);
    assert pi != p;
  }

  lemma RemoveAtOther(a: seq<TreeNode>, b: seq<TreeNode>, root: int, leaf: int, anc: seq<int>, i: int)
    requires RemoveCase(a, b, root, leaf, anc)
    requires Live(a, i) && i != leaf && i != a[leaf].parent && i != a[a[leaf].parent].parent
    requires i != OtherChild(a[a[leaf].parent], leaf)
    ensures NodeOk(b, RootSet(RemoveRoot(a, root, leaf)), {leaf}, RemovePath(a, leaf, anc), i)
  {
    RemoveFacts(a, b, root, leaf, anc);
    NodeAt(a, RootSet(root), {}, [], i);
    if !a[i].IsLeaf() {
      RemoveOtherChild(a, b, root, leaf, anc, i, a[i].child1);
      RemoveOtherChild(a, b, root, leaf, anc, i, a[i].child2);
    }
    if i != root {
      RemoveOtherParent(a, b, root, leaf, anc, i);
    }
    NodeOkKept(a, RootSet(root), {}, [], b, RootSet(RemoveRoot(a, root, leaf)), {leaf}, RemovePath(a, leaf, anc), i);
  }

  /** After the removal splice the pool is shaped, with the removed leaf loose. */
  lemma RemoveShape(a: seq<TreeNode>, b: seq<TreeNode>, root: int, leaf: int, anc: seq<int>)
    requires RemoveCase(a, b, root, leaf, anc)
    ensures Shape(b, RootSet(RemoveRoot(a, root, leaf)), {leaf}, RemovePath(a, leaf, anc))
  {
    RemoveFacts(a, b, root, leaf, anc);
    var p := a[leaf].parent;
    var gp := a[p].parent;
    var sib := OtherChild(a[p], leaf);
    forall i | Live(b, i)
      ensures NodeOk(b, RootSet(RemoveRoot(a, root, leaf)), {leaf}, RemovePath(a, leaf, anc), i)
    {
      if i == leaf {
        NodeAt(a, RootSet(root), {}, [], leaf);
      } else if i == sib {
        RemoveAtSibling(a, b, root, leaf, anc);
      } else if i == gp {
        RemoveAtGrandParent(a, b, root, leaf, anc);
      } else {
        RemoveAtOther(a, b, root, leaf, anc, i);
      }
    }
  }

  /** The grandparent's ancestry is a repair path of the new pool. */
  lemma RemovePathOk(a: seq<TreeNode>, b: seq<TreeNode>, root: int, leaf: int, anc: seq<int>)
    requires RemoveCase(a, b, root, leaf, anc) && a[a[leaf].parent].parent != NullNode
    ensures PathOk(b, root, anc)
  {
    RemoveFacts(a, b, root, leaf, anc);
    var p := a[leaf].parent;
    var gp := a[p].parent;
    forall k | 0 <= k < |anc|
      ensures b[anc[k]] == (if anc[k] == gp then Relinked(a[gp], p, OtherChild(a[p], leaf)) else a[anc[k]])
    {
    }
  }

  /** The removal splice frees one internal node and keeps every proxy. */
  lemma RemoveProxies(a: seq<TreeNode>, b: seq<TreeNode>, root: int, leaf: int, anc: seq<int>)
    requires RemoveCase(a, b, root, leaf, anc)
    ensures ProxyMap(b) == ProxyMap(a)
  {
    RemoveFacts(a, b, root, leaf, anc);
    assert ProxyMap(b).Keys == ProxyMap(a).Keys;
  }
}
