/**
 * Axis-aligned boxes in the plane. The Box2D `AABB` type and its helpers
 * (`Combine`, `Contains`, `GetPerimeter`, `GetCenter`, `GetExtents`) are not
 * part of the repository text; they are defined here as Box2D defines them,
 * over exact reals instead of 32-bit floats.
 */
module Geometry {

  datatype Vec2 = Vec2(x: real, y: real)
  {
    function Plus(o: Vec2): Vec2 { Vec2(x + o.x, y + o.y) }
    function Minus(o: Vec2): Vec2 { Vec2(x - o.x, y - o.y) }
    function Scale(s: real): Vec2 { Vec2(s * x, s * y) }
  }

  /** `lowerBound` is the bottom-left corner, `upperBound` the top-right one. */
  datatype AABB = AABB(lowerBound: Vec2, upperBound: Vec2)

  function MinR(a: real, b: real): real { if a < b then a else b }
  function MaxR(a: real, b: real): real { if a > b then a else b }

  /** Component-wise minimum and maximum (`Vector2.Min`, `Vector2.Max`). */
  function MinV(a: Vec2, b: Vec2): Vec2 { Vec2(MinR(a.x, b.x), MinR(a.y, b.y)) }
  function MaxV(a: Vec2, b: Vec2): Vec2 { Vec2(MaxR(a.x, b.x), MaxR(a.y, b.y)) }

  /** A box whose lower corner is below and left of its upper corner. */
  predicate IsValid(a: AABB) {
    a.lowerBound.x <= a.upperBound.x && a.lowerBound.y <= a.upperBound.y
  }

  /** The point `p` lies in the closed box `a`. */
  predicate InBox(p: Vec2, a: AABB) {
    a.lowerBound.x <= p.x <= a.upperBound.x && a.lowerBound.y <= p.y <= a.upperBound.y
  }

  /** `AABB.Contains`: box `a` encloses box `b` (boundaries may touch). */
  predicate Contains(a: AABB, b: AABB) {
    && a.lowerBound.x <= b.lowerBound.x && a.lowerBound.y <= b.lowerBound.y
    && b.upperBound.x <= a.upperBound.x && b.upperBound.y <= a.upperBound.y
  }

  /** `AABB.Combine(a, b)`: the smallest box enclosing both boxes. */
  function Combine(a: AABB, b: AABB): (r: AABB)
    ensures Contains(r, a) && Contains(r, b)
    ensures forall c :: Contains(c, a) && Contains(c, b) ==> Contains(c, r)
  {
    AABB(MinV(a.lowerBound, b.lowerBound), MaxV(a.upperBound, b.upperBound))
  }

  /** `AABB.GetPerimeter`: the tree's cost metric. */
  function Perimeter(a: AABB): real {
    2.0 * ((a.upperBound.x - a.lowerBound.x) + (a.upperBound.y - a.lowerBound.y))
  }

  /** `AABB.GetCenter`. */
  function Center(a: AABB): Vec2 {
    Vec2(0.5 * (a.lowerBound.x + a.upperBound.x), 0.5 * (a.lowerBound.y + a.upperBound.y))
  }

  /** `AABB.GetExtents`: the half-width and half-height. */
  function Extents(a: AABB): Vec2 {
    Vec2(0.5 * (a.upperBound.x - a.lowerBound.x), 0.5 * (a.upperBound.y - a.lowerBound.y))
  }

  /** Both corners moved by `-origin` (the world-origin shift). */
  function Shift(a: AABB, origin: Vec2): AABB {
    AABB(a.lowerBound.Minus(origin), a.upperBound.Minus(origin))
  }

  lemma ContainsReflexive(a: AABB)
    ensures Contains(a, a)
  {
  }

  lemma ContainsTransitive(a: AABB, b: AABB, c: AABB)
    requires Contains(a, b) && Contains(b, c)
    ensures Contains(a, c)
  {
  }

  /** The union does not depend on the order of its arguments. */
  lemma CombineCommutes(a: AABB, b: AABB)
    ensures Combine(a, b) == Combine(b, a)
  {
  }

  /** Shifting both boxes and then combining them is shifting their union. */
  lemma ShiftCombine(a: AABB, b: AABB, origin: Vec2)
    ensures Combine(Shift(a, origin), Shift(b, origin)) == Shift(Combine(a, b), origin)
  {
  }
}
