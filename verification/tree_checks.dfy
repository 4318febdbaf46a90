/**
 * The tree's self-checks: `ComputeHeight`, which recomputes a subtree's
 * height from its leaves, and the validators `ValidateStructure` and
 * `ValidateMetrics`, read as predicates that hold when none of their
 * assertions fails. The validators recurse without a bound in the source;
 * here they carry a depth budget `fuel`.
 */
module TreeChecks {
  import opened Geometry
  import opened TreeNodes
  import opened Subtrees

  datatype Option<T> = None | Some(value: T)

  /**
   * `ComputeHeight(nodeId)`: the height of the subtree at `x`, recomputed
   * from the leaves. `None` when the walk reaches an index outside the pool
   * (the source's assertion fails there) or when the budget `fuel` runs out
   * (the source, which has no bound, would not return on a cyclic pool).
   */
  function ComputeHeight(nodes: seq<TreeNode>, x: int, fuel: nat): (r: Option<int>)
    ensures r.Some? ==> 0 <= r.value < fuel && 0 <= x < |nodes|
    ensures r.Some? && nodes[x].IsLeaf() ==> r.value == 0
    decreases fuel
  {
    if fuel == 0 || !(0 <= x < |nodes|) then None
    else if nodes[x].IsLeaf() then Some(0)
    else
      match (ComputeHeight(nodes, nodes[x].child1, fuel - 1), ComputeHeight(nodes, nodes[x].child2, fuel - 1))
      case (Some(height1), Some(height2)) => Some(1 + MaxInt(height1, height2))
      case _ => None
  }

  /** On a well-formed subtree, given a budget above its height, the recomputed height is the stored one. */
  lemma {:induction false} ComputeHeightWellFormed(nodes: seq<TreeNode>, x: int, fuel: nat)
    requires WellFormedBelow(nodes, x) && nodes[x].height < fuel
    ensures ComputeHeight(nodes, x, fuel) == Some(nodes[x].height)
    decreases fuel
  {
    if !nodes[x].IsLeaf() {
      ComputeHeightWellFormed(nodes, nodes[x].child1, fuel - 1);
      ComputeHeightWellFormed(nodes, nodes[x].child2, fuel - 1);
    }
  }

  /**
   * Wherever `ValidateMetrics` passes, `ComputeHeight` succeeds with the
   * same budget and agrees with the stored height.
   */
  lemma {:induction false} ComputeHeightMetrics(nodes: seq<TreeNode>, x: int, fuel: nat)
    requires x != NullNode && MetricsValid(nodes, x, fuel)
    ensures ComputeHeight(nodes, x, fuel) == Some(nodes[x].height)
    decreases fuel
  {
    if !nodes[x].IsLeaf() {
      ComputeHeightMetrics(nodes, nodes[x].child1, fuel - 1);
      ComputeHeightMetrics(nodes, nodes[x].child2, fuel - 1);
    }
  }

  /**
   * `ValidateStructure(index)`: the root has no parent, a leaf has no second
   * child and height 0, and an internal node's children are slots of the
   * pool that name it as their parent, all the way down. An index outside
   * the pool, or a budget used up, fails.
   */
  predicate StructureValid(nodes: seq<TreeNode>, root: int, index: int, fuel: nat)
    decreases fuel
  {
    if index == NullNode then true
    else if fuel == 0 || !(0 <= index < |nodes|) then false
    else
      var node := nodes[index];
      && (index == root ==> node.parent == NullNode)
      && if node.IsLeaf() then node.child2 == NullNode && node.height == 0
         else
           && 0 <= node.child1 < |nodes| && 0 <= node.child2 < |nodes|
           && nodes[node.child1].parent == index && nodes[node.child2].parent == index
           && StructureValid(nodes, root, node.child1, fuel - 1)
           && StructureValid(nodes, root, node.child2, fuel - 1)
  }

  /**
   * `ValidateMetrics(index)`: a leaf has no second child and height 0, and
   * an internal node is one taller than its taller child and holds the union
   * of its children's boxes, all the way down.
   */
  predicate MetricsValid(nodes: seq<TreeNode>, index: int, fuel: nat)
    decreases fuel
  {
    if index == NullNode then true
    else if fuel == 0 || !(0 <= index < |nodes|) then false
    else
      var node := nodes[index];
      if node.IsLeaf() then node.child2 == NullNode && node.height == 0
      else
        && 0 <= node.child1 < |nodes| && 0 <= node.child2 < |nodes|
        && node.height == 1 + MaxInt(nodes[node.child1].height, nodes[node.child2].height)
        && node.aabb == Combine(nodes[node.child1].aabb, nodes[node.child2].aabb)
        && MetricsValid(nodes, node.child1, fuel - 1)
        && MetricsValid(nodes, node.child2, fuel - 1)
  }

  /** No internal slot of the pool names the same child twice. */
  ghost predicate DistinctChildren(nodes: seq<TreeNode>) {
    forall i :: 0 <= i < |nodes| && !nodes[i].IsLeaf() ==> nodes[i].child1 != nodes[i].child2
  }

  /** The validators accept every well-formed subtree, given a budget above its height. */
  lemma {:induction false} ValidatorsAccept(nodes: seq<TreeNode>, root: int, x: int, fuel: nat)
    requires WellFormedBelow(nodes, x) && nodes[x].height < fuel
    requires 0 <= root < |nodes| ==> nodes[root].parent == NullNode
    ensures StructureValid(nodes, root, x, fuel) && MetricsValid(nodes, x, fuel)
    decreases fuel
  {
    if !nodes[x].IsLeaf() {
      ValidatorsAccept(nodes, root, nodes[x].child1, fuel - 1);
      ValidatorsAccept(nodes, root, nodes[x].child2, fuel - 1);
    }
  }

  /**
   * Conversely, a subtree both validators accept is well formed, provided no
   * node names the same child twice (the one link fact they do not check).
   */
  lemma {:induction false} ValidatorsSound(nodes: seq<TreeNode>, root: int, x: int, fuel: nat)
    requires x != NullNode && StructureValid(nodes, root, x, fuel) && MetricsValid(nodes, x, fuel)
    requires DistinctChildren(nodes)
    ensures WellFormedBelow(nodes, x) && nodes[x].height < fuel
    decreases fuel
  {
    if !nodes[x].IsLeaf() {
      ValidatorsSound(nodes, root, nodes[x].child1, fuel - 1);
      ValidatorsSound(nodes, root, nodes[x].child2, fuel - 1);
    }
  }

  /** A set of pool slots is no larger than the pool. */
  lemma {:induction false} SlotsBound(s: set<int>, n: nat)
    requires forall y :: y in s ==> 0 <= y < n
    ensures |s| <= n
    decreases n
  {
    if n > 0 {
      SlotsBound(s - {n - 1}, n - 1);
    } else {
      assert forall y :: y !in s;
      assert s == {};
    }
  }

  /** A subtree has more nodes than its height. */
  lemma {:induction false} HeightBelowSize(nodes: seq<TreeNode>, x: int)
    requires WellFormedBelow(nodes, x)
    ensures nodes[x].height < |Subtree(nodes, x)| <= |nodes|
    decreases nodes[x].height
  {
    if !nodes[x].IsLeaf() {
      var c1, c2 := nodes[x].child1, nodes[x].child2;
      HeightBelowSize(nodes, c1);
      HeightBelowSize(nodes, c2);
      ChildrenDisjoint(nodes, x);
      assert Subtree(nodes, x) == {x} + Subtree(nodes, c1) + Subtree(nodes, c2);
      assert |{x} + Subtree(nodes, c1)| == 1 + |Subtree(nodes, c1)|;
    }
    forall y | y in Subtree(nodes, x)
      ensures 0 <= y < |nodes|
    {
      SubtreeFacts(nodes, x, y);
    }
    SlotsBound(Subtree(nodes, x), |nodes|);
  }

  /**
   * A pool holding one well-formed tree passes both validators from its root,
   * with the pool size as budget.
   */
  lemma ShapedTreeValidates(nodes: seq<TreeNode>, root: int)
    requires Shape(nodes, RootSet(root), {}, [])
    ensures StructureValid(nodes, root, root, |nodes|) && MetricsValid(nodes, root, |nodes|)
  {
    if root != NullNode {
      assert NodeOk(nodes, RootSet(root), {}, [], root);
      WellFormedOffPath(nodes, RootSet(root), {}, NullNode, [], root);
      HeightBelowSize(nodes, root);
      ValidatorsAccept(nodes, root, root, |nodes|);
    }
  }

  /** Every slot taller than one names two children inside the pool. */
  ghost predicate ChildrenInRange(nodes: seq<TreeNode>) {
    forall i :: 0 <= i < |nodes| && nodes[i].height > 1 ==>
      0 <= nodes[i].child1 < |nodes| && 0 <= nodes[i].child2 < |nodes|
  }

  lemma ShapedChildrenInRange(nodes: seq<TreeNode>, roots: set<int>, loose: set<int>)
    requires Shape(nodes, roots, loose, [])
    ensures ChildrenInRange(nodes)
  {
    forall i | 0 <= i < |nodes| && nodes[i].height > 1
      ensures 0 <= nodes[i].child1 < |nodes| && 0 <= nodes[i].child2 < |nodes|
    {
      assert NodeOk(nodes, roots, loose, [], i);
    }
  }

  function AbsInt(a: int): int { if a < 0 then -a else a }

  /** The balance `GetMaxBalance` reads at slot `i`: 0 up to height 1, else the children's height gap. */
  function BalanceAt(nodes: seq<TreeNode>, i: int): int
    requires 0 <= i < |nodes| && ChildrenInRange(nodes)
  {
    if nodes[i].height <= 1 then 0
    else AbsInt(nodes[nodes[i].child2].height - nodes[nodes[i].child1].height)
  }
}
