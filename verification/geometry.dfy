/** Plane vectors and the one piece of JavaScript integer arithmetic the trail relies on. */
module Geometry {

  /** A point or offset in the plane; the trail stores these as two adjacent numbers. */
  datatype Vec2 = Vec2(x: real, y: real)

  function Add(a: Vec2, b: Vec2): Vec2 {
    Vec2(a.x + b.x, a.y + b.y)
  }

  function Sub(a: Vec2, b: Vec2): Vec2 {
    Vec2(a.x - b.x, a.y - b.y)
  }

  /** The point halfway between `a` and `b`. */
  function Mid(a: Vec2, b: Vec2): (m: Vec2)
    ensures Sub(a, m) == Sub(m, b)
  {
    Vec2((a.x + b.x) / 2.0, (a.y + b.y) / 2.0)
  }

  function Min(a: int, b: int): int {
    if a <= b then a else b
  }

  /**
   * JavaScript's `a % n` on integers: the remainder truncates toward zero, so a
   * negative dividend gives a non-positive remainder. Only a non-negative
   * dividend yields an index in `[0, n)`.
   */
  function Rem(a: int, n: int): (r: int)
    requires 0 < n
    ensures 0 <= a ==> 0 <= r < n && r == a % n
    ensures a < 0 ==> -n < r <= 0
  {
    if 0 <= a then a % n else -((-a) % n)
  }
}
