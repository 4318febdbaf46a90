/**
 * `CollisionUtils`: the box overlap test used by the broad phase and the
 * classification of contact points between two successive manifolds.
 */
module CollisionUtils {
  import opened Geometry

  /** `Settings.MaxManifoldPoints`. */
  const MaxManifoldPoints: nat := 2

  /**
   * `CollisionUtils.TestOverlap(in AABB a, AABB b)`: false as soon as, on the
   * x or the y axis, one box starts strictly after the other ends.
   */
  predicate TestOverlap(a: AABB, b: AABB) {
    if b.lowerBound.x - a.upperBound.x > 0.0 || b.lowerBound.y - a.upperBound.y > 0.0 then false
    else if a.lowerBound.x - b.upperBound.x > 0.0 || a.lowerBound.y - b.upperBound.y > 0.0 then false
    else true
  }

  /** Moving both boxes by the same offset does not change whether they overlap. */
  lemma TestOverlapShift(a: AABB, b: AABB, origin: Vec2)
    ensures TestOverlap(Shift(a, origin), Shift(b, origin)) == TestOverlap(a, b)
  {
  }

  /** The overlap test treats its two boxes alike. */
  lemma TestOverlapSymmetric(a: AABB, b: AABB)
    ensures TestOverlap(a, b) == TestOverlap(b, a)
  {
  }

  /**
   * For well-formed boxes the test is exact: it succeeds iff the two closed
   * boxes share a point, so boxes that only touch overlap.
   */
  lemma TestOverlapIffCommonPoint(a: AABB, b: AABB)
    requires IsValid(a) && IsValid(b)
    ensures TestOverlap(a, b) <==> exists p :: InBox(p, a) && InBox(p, b)
  {
    if TestOverlap(a, b) {
      var p := Vec2(MaxR(a.lowerBound.x, b.lowerBound.x), MaxR(a.lowerBound.y, b.lowerBound.y));
      assert InBox(p, a) && InBox(p, b);
    }
  }

  /** Growing a box never turns an overlap into a miss. */
  lemma TestOverlapGrows(small: AABB, big: AABB, q: AABB)
    requires Contains(big, small) && TestOverlap(small, q)
    ensures TestOverlap(big, q)
  {
  }

  datatype PointState = NullState | AddState | PersistState | RemoveState

  /** `ContactID`: only its 32-bit `Key` is consulted. */
  datatype ContactId = ContactId(key: nat)

  datatype ManifoldPoint = ManifoldPoint(id: ContactId)

  /** The manifold's fixed buffer of points and how many of them are in use. */
  datatype Manifold = Manifold(points: seq<ManifoldPoint>, pointCount: int)

  predicate WellFormedManifold(m: Manifold) {
    |m.points| == MaxManifoldPoints && 0 <= m.pointCount <= MaxManifoldPoints
  }

  /** Some point in use in `m` carries the contact key `key`. */
  predicate HasKey(m: Manifold, key: nat)
    requires WellFormedManifold(m)
  {
    exists j :: 0 <= j < m.pointCount && m.points[j].id.key == key
  }

  /** The state the transition from `m1` to `m2` gives to slot `i` of `m1`. */
  function OldPointState(m1: Manifold, m2: Manifold, i: nat): PointState
    requires WellFormedManifold(m1) && WellFormedManifold(m2)
  {
    if i >= m1.pointCount then NullState
    else if HasKey(m2, m1.points[i].id.key) then PersistState
    else RemoveState
  }

  /** The state the transition from `m1` to `m2` gives to slot `i` of `m2`. */
  function NewPointState(m1: Manifold, m2: Manifold, i: nat): PointState
    requires WellFormedManifold(m1) && WellFormedManifold(m2)
  {
    if i >= m2.pointCount then NullState
    else if HasKey(m1, m2.points[i].id.key) then PersistState
    else AddState
  }

  /**
   * A point persists on one side exactly when a point with the same key
   * persists on the other side.
   */
  lemma PersistIsMutual(m1: Manifold, m2: Manifold, i: nat)
    requires WellFormedManifold(m1) && WellFormedManifold(m2)
    ensures OldPointState(m1, m2, i) == PersistState <==>
            i < m1.pointCount &&
            exists j :: 0 <= j < m2.pointCount && m2.points[j].id.key == m1.points[i].id.key &&
                        NewPointState(m1, m2, j) == PersistState
  {
    if OldPointState(m1, m2, i) == PersistState {
      var j :| 0 <= j < m2.pointCount && m2.points[j].id.key == m1.points[i].id.key;
      assert HasKey(m1, m2.points[j].id.key) by {
        assert m1.points[i].id.key == m2.points[j].id.key;
      }
      assert NewPointState(m1, m2, j) == PersistState;
    }
  }

  /** The inner search of `GetPointStates`: whether a point in use in `m` carries `key`. */
  method KeyInUse(m: Manifold, key: nat) returns (found: bool)
    requires WellFormedManifold(m)
    ensures found == HasKey(m, key)
  {
    var j := 0;
    while j < m.pointCount
      invariant 0 <= j <= m.pointCount
      invariant forall l :: 0 <= l < j ==> m.points[l].id.key != key
    {
      if m.points[j].id.key == key {
        return true;
      }
      j := j + 1;
    }
    return false;
  }

  /**
   * `GetPointStates`: every slot of both state arrays starts as `NullState`;
   * the slots in use in `manifold1` become persist or remove, those in use in
   * `manifold2` become persist or add.
   */
  method GetPointStates(state1: array<PointState>, state2: array<PointState>,
                        manifold1: Manifold, manifold2: Manifold)
    requires WellFormedManifold(manifold1) && WellFormedManifold(manifold2)
    requires state1.Length >= MaxManifoldPoints && state2.Length >= MaxManifoldPoints
    requires state1 != state2
    modifies state1, state2
    ensures forall i :: 0 <= i < MaxManifoldPoints ==> state1[i] == OldPointState(manifold1, manifold2, i)
    ensures forall i :: 0 <= i < MaxManifoldPoints ==> state2[i] == NewPointState(manifold1, manifold2, i)
    ensures state1[MaxManifoldPoints..] == old(state1[MaxManifoldPoints..])
    ensures state2[MaxManifoldPoints..] == old(state2[MaxManifoldPoints..])
  {
    for i := 0 to MaxManifoldPoints
      invariant forall k :: 0 <= k < i ==> state1[k] == NullState && state2[k] == NullState
      invariant state1[MaxManifoldPoints..] == old(state1[MaxManifoldPoints..])
      invariant state2[MaxManifoldPoints..] == old(state2[MaxManifoldPoints..])
    {
      state1[i] := NullState;
      state2[i] := NullState;
    }

    // Each point of the first manifold: kept when its key reappears, otherwise gone.
    for i := 0 to manifold1.pointCount
      invariant forall k :: 0 <= k < i ==> state1[k] == OldPointState(manifold1, manifold2, k)
      invariant forall k :: i <= k < MaxManifoldPoints ==> state1[k] == NullState
      invariant forall k :: 0 <= k < MaxManifoldPoints ==> state2[k] == NullState
      invariant state1[MaxManifoldPoints..] == old(state1[MaxManifoldPoints..])
      invariant state2[MaxManifoldPoints..] == old(state2[MaxManifoldPoints..])
    {
      var id := manifold1.points[i].id;
      state1[i] := RemoveState;
      var found := KeyInUse(manifold2, id.key);
      if found {
        state1[i] := PersistState;
      }
    }

    // Each point of the second manifold: kept when its key was present, otherwise new.
    for i := 0 to manifold2.pointCount
      invariant forall k :: 0 <= k < i ==> state2[k] == NewPointState(manifold1, manifold2, k)
      invariant forall k :: i <= k < MaxManifoldPoints ==> state2[k] == NullState
      invariant forall k :: 0 <= k < MaxManifoldPoints ==> state1[k] == OldPointState(manifold1, manifold2, k)
      invariant state1[MaxManifoldPoints..] == old(state1[MaxManifoldPoints..])
      invariant state2[MaxManifoldPoints..] == old(state2[MaxManifoldPoints..])
    {
      var id := manifold2.points[i].id;
      state2[i] := AddState;
      var found := KeyInUse(manifold1, id.key);
      if found {
        state2[i] := PersistState;
      }
    }
  }
}
