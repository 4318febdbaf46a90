/**
 * The explicit-stack traversals of `Query` and `RayCast`: the stack holds
 * roots of disjoint subtrees still to visit (or null), and a node whose box
 * fails the test is pruned together with everything below it.
 *
 * The stack's top is its last element.
 */
module Traversals {
  import opened Geometry
  import opened TreeNodes
  import opened Subtrees

  /** Every stack entry is null or the root of a well-formed subtree. */
  ghost predicate StackOk(nodes: seq<TreeNode>, stack: seq<int>) {
    forall k :: 0 <= k < |stack| ==> stack[k] == NullNode || WellFormedBelow(nodes, stack[k])
  }

  /** The nodes still to visit: the union of the subtrees on the stack. */
  ghost function StackNodes(nodes: seq<TreeNode>, stack: seq<int>): set<int>
    requires StackOk(nodes, stack)
    decreases |stack|
  {
    if stack == [] then {}
    else
      var x := stack[|stack| - 1];
      StackNodes(nodes, stack[..|stack| - 1]) + (if x == NullNode then {} else Subtree(nodes, x))
  }

  /** The subtrees on the stack do not share nodes. */
  ghost predicate StackDisjoint(nodes: seq<TreeNode>, stack: seq<int>)
    requires StackOk(nodes, stack)
  {
    forall k, l :: 0 <= k < l < |stack| && stack[k] != NullNode && stack[l] != NullNode ==>
      Subtree(nodes, stack[k]) !! Subtree(nodes, stack[l])
  }

  /**
   * The traversal's bookkeeping: the stack is well formed, and the leaves
   * already reported (`calls`, without repeats) are not on it.
   */
  ghost predicate Walked(nodes: seq<TreeNode>, stack: seq<int>, calls: seq<int>) {
    && StackOk(nodes, stack) && StackDisjoint(nodes, stack)
    && (forall k :: 0 <= k < |calls| ==> calls[k] !in StackNodes(nodes, stack))
    && (forall k, l :: 0 <= k < l < |calls| ==> calls[k] != calls[l])
  }

  /** The leaves among `s` whose box passes `keep`. */
  ghost function Found(nodes: seq<TreeNode>, s: set<int>, keep: AABB -> bool): set<int> {
    set y | y in s && 0 <= y < |nodes| && nodes[y].IsLeaf() && keep(nodes[y].aabb)
  }

  /** A box test that every enclosing box passes as well, so a failing box prunes its subtree. */
  ghost predicate Upward(keep: AABB -> bool) {
    forall big: AABB, small: AABB {:trigger Contains(big, small)} ::
      Contains(big, small) && keep(small) ==> keep(big)
  }

  /**
   * The traversal misses nothing: the leaves reported plus those passing
   * `keep` still on the stack are exactly `target`.
   */
  ghost predicate Covers(nodes: seq<TreeNode>, keep: AABB -> bool, target: set<int>, stack: seq<int>, calls: seq<int>)
    requires StackOk(nodes, stack)
  {
    (set y | y in calls) + Found(nodes, StackNodes(nodes, stack), keep) == target
  }

  /** The proxies of a pool whose fat box passes `keep`. */
  ghost function ProxiesPassing(nodes: seq<TreeNode>, keep: AABB -> bool): set<int> {
    set i | i in ProxyMap(nodes) && keep(ProxyMap(nodes)[i].fatAABB)
  }

  /** Popping the top `x` of the stack: its subtree is disjoint from the rest. */
  lemma {:induction false} PopFacts(nodes: seq<TreeNode>, stack: seq<int>)
    requires |stack| > 0 && StackOk(nodes, stack) && StackDisjoint(nodes, stack)
    ensures var rest := stack[..|stack| - 1];
            var x := stack[|stack| - 1];
            && StackOk(nodes, rest) && StackDisjoint(nodes, rest)
            && (x != NullNode ==> Subtree(nodes, x) !! StackNodes(nodes, rest))
  {
    var rest := stack[..|stack| - 1];
    var x := stack[|stack| - 1];
    assert forall k :: 0 <= k < |rest| ==> rest[k] == stack[k];
    if x != NullNode {
      forall k | 0 <= k < |rest| && rest[k] != NullNode
        ensures Subtree(nodes, x) !! Subtree(nodes, rest[k])
      {
        assert stack[k] == rest[k];
      }
      BelowSome(nodes, rest, Subtree(nodes, x));
    }
  }

  /** A set disjoint from every subtree on the stack is disjoint from their union. */
  lemma {:induction false} BelowSome(nodes: seq<TreeNode>, stack: seq<int>, s: set<int>)
    requires StackOk(nodes, stack)
    requires forall k :: 0 <= k < |stack| && stack[k] != NullNode ==> s !! Subtree(nodes, stack[k])
    ensures s !! StackNodes(nodes, stack)
    decreases |stack|
  {
    if stack != [] {
      var rest := stack[..|stack| - 1];
      assert forall k :: 0 <= k < |rest| ==> rest[k] == stack[k];
      BelowSome(nodes, rest, s);
    }
  }

  /** Pushing the two children of `x` in its place keeps the stack disjoint. */
  lemma PushChildren(nodes: seq<TreeNode>, rest: seq<int>, x: int)
    requires StackOk(nodes, rest) && StackDisjoint(nodes, rest)
    requires WellFormedBelow(nodes, x) && !nodes[x].IsLeaf() && Subtree(nodes, x) !! StackNodes(nodes, rest)
    ensures var next := rest + [nodes[x].child1, nodes[x].child2];
            && StackOk(nodes, next) && StackDisjoint(nodes, next)
            && StackNodes(nodes, next) == StackNodes(nodes, rest) + (Subtree(nodes, x) - {x})
  {
    var c1, c2 := nodes[x].child1, nodes[x].child2;
    var mid := rest + [c1];
    var next := rest + [c1, c2];
    ChildrenDisjoint(nodes, x);
    assert mid == next[..|next| - 1] && rest == mid[..|mid| - 1];
    assert StackOk(nodes, mid) && StackOk(nodes, next);
    forall k | 0 <= k < |rest| && rest[k] != NullNode
      ensures Subtree(nodes, rest[k]) !! Subtree(nodes, c1) && Subtree(nodes, rest[k]) !! Subtree(nodes, c2)
    {
      StackMember(nodes, rest, k);
    }
    assert StackDisjoint(nodes, next) by {
      forall k, l | 0 <= k < l < |next| && next[k] != NullNode && next[l] != NullNode
        ensures Subtree(nodes, next[k]) !! Subtree(nodes, next[l])
      {
        if l < |rest| {
          assert next[k] == rest[k] && next[l] == rest[l];
        } else if k < |rest| {
          assert next[k] == rest[k];
        }
      }
    }
  }

  /** Each subtree on the stack is part of the stack's nodes. */
  lemma {:induction false} StackMember(nodes: seq<TreeNode>, stack: seq<int>, k: int)
    requires StackOk(nodes, stack) && 0 <= k < |stack| && stack[k] != NullNode
    ensures Subtree(nodes, stack[k]) <= StackNodes(nodes, stack)
    decreases |stack|
  {
    if k < |stack| - 1 {
      var rest := stack[..|stack| - 1];
      assert rest[k] == stack[k];
      StackMember(nodes, rest, k);
    }
  }

  /** Below a box that fails an upward-closed test, no leaf passes it. */
  lemma PruneBelow(nodes: seq<TreeNode>, x: int, keep: AABB -> bool)
    requires Upward(keep) && WellFormedBelow(nodes, x) && !keep(nodes[x].aabb)
    ensures Found(nodes, Subtree(nodes, x), keep) == {}
  {
    forall y | y in Subtree(nodes, x) && 0 <= y < |nodes|
      ensures !keep(nodes[y].aabb)
    {
      SubtreeFacts(nodes, x, y);
    }
  }

  /** The start of a traversal from the root of a tree holding every live node. */
  lemma StartWalk(nodes: seq<TreeNode>, root: int, keep: AABB -> bool)
    requires Shape(nodes, RootSet(root), {}, [])
    ensures Walked(nodes, [root], []) && Covers(nodes, keep, ProxiesPassing(nodes, keep), [root], [])
  {
    var stack := [root];
    assert stack[..0] == [];
    if root != NullNode {
      WellFormedOffPath(nodes, RootSet(root), {}, NullNode, [], root);
    }
    assert StackOk(nodes, stack);
    assert StackNodes(nodes, stack) == if root == NullNode then {} else Subtree(nodes, root);
    var found := Found(nodes, StackNodes(nodes, stack), keep);
    forall i | i in ProxiesPassing(nodes, keep)
      ensures i in found
    {
      ReachSingleRoot(nodes, root, {}, i);
    }
    forall i | i in found
      ensures i in ProxiesPassing(nodes, keep)
    {
      SubtreeFacts(nodes, root, i);
    }
    assert (set y: int | y in []) == {};
  }

  /** A null entry is dropped. */
  lemma StepNull(nodes: seq<TreeNode>, keep: AABB -> bool, target: set<int>, stack: seq<int>, calls: seq<int>)
    requires Walked(nodes, stack, calls) && |stack| > 0 && stack[|stack| - 1] == NullNode
    ensures var rest := stack[..|stack| - 1];
            && Walked(nodes, rest, calls) && StackNodes(nodes, rest) == StackNodes(nodes, stack)
            && (Covers(nodes, keep, target, stack, calls) ==> Covers(nodes, keep, target, rest, calls))
  {
    PopFacts(nodes, stack);
  }

  /** A popped node whose box fails the test is dropped with its subtree. */
  lemma StepPrune(nodes: seq<TreeNode>, keep: AABB -> bool, target: set<int>, stack: seq<int>, calls: seq<int>)
    requires Walked(nodes, stack, calls) && |stack| > 0 && stack[|stack| - 1] != NullNode
    ensures var rest := stack[..|stack| - 1];
            && Walked(nodes, rest, calls) && |StackNodes(nodes, rest)| < |StackNodes(nodes, stack)|
            && (Upward(keep) && !keep(nodes[stack[|stack| - 1]].aabb) && Covers(nodes, keep, target, stack, calls)
                ==> Covers(nodes, keep, target, rest, calls))
  {
    var rest := stack[..|stack| - 1];
    var x := stack[|stack| - 1];
    PopFacts(nodes, stack);
    SubtreeFacts(nodes, x, x);
    assert StackNodes(nodes, stack) == StackNodes(nodes, rest) + Subtree(nodes, x);
    assert StackNodes(nodes, rest) < StackNodes(nodes, stack);
    if Upward(keep) && !keep(nodes[x].aabb) {
      PruneBelow(nodes, x, keep);
    }
  }

  /** A popped leaf is reported. */
  lemma StepLeaf(nodes: seq<TreeNode>, keep: AABB -> bool, target: set<int>, stack: seq<int>, calls: seq<int>)
    requires Walked(nodes, stack, calls) && |stack| > 0
    requires var x := stack[|stack| - 1]; x != NullNode && nodes[x].IsLeaf()
    ensures var rest := stack[..|stack| - 1];
            var x := stack[|stack| - 1];
            && IsProxy(nodes, x) && x !in calls
            && Walked(nodes, rest, calls + [x]) && |StackNodes(nodes, rest)| < |StackNodes(nodes, stack)|
            && (keep(nodes[x].aabb) && Covers(nodes, keep, target, stack, calls)
                ==> Covers(nodes, keep, target, rest, calls + [x]))
  {
    var rest := stack[..|stack| - 1];
    var x := stack[|stack| - 1];
    PopFacts(nodes, stack);
    assert Subtree(nodes, x) == {x};
    assert StackNodes(nodes, stack) == StackNodes(nodes, rest) + {x};
    assert x in StackNodes(nodes, stack);
    var calls' := calls + [x];
    assert (set y | y in calls') == (set y | y in calls) + {x};
  }

  /** A popped internal node whose box passes is replaced by its two children. */
  lemma StepInternal(nodes: seq<TreeNode>, keep: AABB -> bool, target: set<int>, stack: seq<int>, calls: seq<int>)
    requires Walked(nodes, stack, calls) && |stack| > 0
    requires var x := stack[|stack| - 1]; x != NullNode && !nodes[x].IsLeaf()
    ensures var rest := stack[..|stack| - 1];
            var x := stack[|stack| - 1];
            var next := rest + [nodes[x].child1, nodes[x].child2];
            && Walked(nodes, next, calls) && |StackNodes(nodes, next)| < |StackNodes(nodes, stack)|
            && (Covers(nodes, keep, target, stack, calls) ==> Covers(nodes, keep, target, next, calls))
  {
    var rest := stack[..|stack| - 1];
    var x := stack[|stack| - 1];
    PopFacts(nodes, stack);
    PushChildren(nodes, rest, x);
    var next := rest + [nodes[x].child1, nodes[x].child2];
    SubtreeFacts(nodes, x, x);
    assert StackNodes(nodes, stack) == StackNodes(nodes, rest) + Subtree(nodes, x);
    assert StackNodes(nodes, next) == StackNodes(nodes, stack) - {x};
  }
}
