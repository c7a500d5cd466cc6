/**
 * Plane geometry shared by the graph builder and the simulator.
 *
 * The source measures lengths with `math.hypot` (and pygame's `Vector2.length`,
 * which is the same quantity). Dafny has no square root, so every operation that
 * needs a length takes the length function as a parameter `hypot`: the model then
 * makes exactly the comparisons the source makes, on whatever values `hypot`
 * returns, and every property proved here holds for any such function.
 */
module Geometry {
  import opened Wrappers

  /** A point or a vector of the plane. */
  datatype Point = Point(x: real, y: real)

  /** An axis-aligned rectangle with its top-left corner at (x, y). */
  datatype Rect = Rect(x: real, y: real, w: real, h: real)

  function Sub(p: Point, q: Point): Point { Point(p.x - q.x, p.y - q.y) }
  function Add(p: Point, q: Point): Point { Point(p.x + q.x, p.y + q.y) }
  function Scale(p: Point, k: real): Point { Point(p.x * k, p.y * k) }
  function Dot(p: Point, q: Point): real { p.x * q.x + p.y * q.y }

  /** `Vector2.length()`: the length of a vector as the oracle measures it. */
  function Length(hypot: (real, real) -> real, v: Point): real { hypot(v.x, v.y) }

  /**
   * The length does not depend on the sign of the vector, as `math.hypot` and
   * `Vector2.length` do not: `hypot(-x, -y) == hypot(x, y)`.
   */
  ghost predicate EvenLength(hypot: (real, real) -> real)
  {
    forall x: real, y: real :: hypot(-x, -y) == hypot(x, y)
  }

  /** With an even length, the distance from `p` to `q` is the distance from `q` to `p`. */
  lemma LengthSubSymmetric(hypot: (real, real) -> real, p: Point, q: Point)
    requires EvenLength(hypot)
    ensures Length(hypot, Sub(p, q)) == Length(hypot, Sub(q, p))
  {
    var v := Sub(q, p);
    assert Sub(p, q) == Point(-v.x, -v.y);
  }

  /** `_dist(a, b)` of map_utils.py: `hypot(a.x - b.x, a.y - b.y)`. */
  function Dist(hypot: (real, real) -> real, a: Point, b: Point): real
  {
    hypot(a.x - b.x, a.y - b.y)
  }

  function Max(a: real, b: real): real { if a >= b then a else b }
  function Min(a: real, b: real): real { if a <= b then a else b }

  /** A point of the closed rectangle `r`. */
  predicate InRect(p: Point, r: Rect)
  {
    r.x <= p.x <= r.x + r.w && r.y <= p.y <= r.y + r.h
  }

  /**
   * `_rect_overlap(a, b)`: the intersection of two rectangles when it has positive
   * area, otherwise None.
   */
  function RectOverlap(a: Rect, b: Rect): (r: Option<Rect>)
    // positive-area overlap: both rectangles are proper and their extents interleave strictly
    ensures r.Some? <==>
      (a.w > 0.0 && b.w > 0.0 && a.x < b.x + b.w && b.x < a.x + a.w &&
       a.h > 0.0 && b.h > 0.0 && a.y < b.y + b.h && b.y < a.y + a.h)
    ensures r.Some? ==> r.value.w > 0.0 && r.value.h > 0.0
    // the result lies inside both arguments ...
    ensures r.Some? ==> forall p :: InRect(p, r.value) ==> InRect(p, a) && InRect(p, b)
    // ... and holds every point they have in common
    ensures r.Some? ==> forall p :: InRect(p, a) && InRect(p, b) ==> InRect(p, r.value)
  {
    var x1 := Max(a.x, b.x);
    var y1 := Max(a.y, b.y);
    var x2 := Min(a.x + a.w, b.x + b.w);
    var y2 := Min(a.y + a.h, b.y + b.h);
    if x2 > x1 && y2 > y1 then Some(Rect(x1, y1, x2 - x1, y2 - y1)) else None
  }

  /** The overlap does not depend on the order of its arguments. */
  lemma RectOverlapSymmetric(a: Rect, b: Rect)
    ensures RectOverlap(a, b) == RectOverlap(b, a)
  {
  }

  /** The centre of a rectangle, where the builder puts an intersection node. */
  function Centre(r: Rect): (c: Point)
    ensures r.w >= 0.0 && r.h >= 0.0 ==> InRect(c, r)
  {
    Point(r.x + r.w / 2.0, r.y + r.h / 2.0)
  }
}
