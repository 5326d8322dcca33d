/** Integer points and rectangles with the semantics of Go's `image` package,
    which every widget uses for its layout and hit-testing. */
module Geometry {

  datatype Point = Point(x: int, y: int)

  /** A rectangle holds the points with min.x <= x < max.x and min.y <= y < max.y. */
  datatype Rect = Rect(min: Point, max: Point)

  const Origin := Point(0, 0)
  const ZeroRect := Rect(Origin, Origin)

  /** `image.Rect(x0, y0, x1, y1)`: the corners are swapped where needed so that
      the result is well formed. */
  function MakeRect(x0: int, y0: int, x1: int, y1: int): (r: Rect)
    ensures WellFormed(r)
    ensures r.min.x == (if x0 <= x1 then x0 else x1) && r.max.x == (if x0 <= x1 then x1 else x0)
    ensures r.min.y == (if y0 <= y1 then y0 else y1) && r.max.y == (if y0 <= y1 then y1 else y0)
  {
    var (lx, hx) := if x0 > x1 then (x1, x0) else (x0, x1);
    var (ly, hy) := if y0 > y1 then (y1, y0) else (y0, y1);
    Rect(Point(lx, ly), Point(hx, hy))
  }

  predicate WellFormed(r: Rect) {
    r.min.x <= r.max.x && r.min.y <= r.max.y
  }

  /** `image.Point.In`: the maximum edges are exclusive. */
  predicate In(p: Point, r: Rect) {
    r.min.x <= p.x < r.max.x && r.min.y <= p.y < r.max.y
  }

  /** `Rectangle.Dx` and `Rectangle.Dy`. */
  function Dx(r: Rect): int { r.max.x - r.min.x }
  function Dy(r: Rect): int { r.max.y - r.min.y }

  function AddPoints(p: Point, q: Point): Point { Point(p.x + q.x, p.y + q.y) }

  /** `Rectangle.Add`: a translation, without normalisation. */
  function Translate(r: Rect, p: Point): (t: Rect)
    ensures Dx(t) == Dx(r) && Dy(t) == Dy(r)
    ensures forall q :: In(q, r) <==> In(AddPoints(q, p), t)
  {
    Rect(AddPoints(r.min, p), AddPoints(r.max, p))
  }
}
