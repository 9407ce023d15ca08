/** Points, axis-aligned rectangles and the two geometric tests the game uses. */
module Geometry {
  /** A position in canvas (client) pixels. */
  datatype Point = Point(x: real, y: real)

  /** An axis-aligned rectangle given by its four edges, as `getRect` and
      `getBoundingClientRect` report them (y grows downwards). */
  datatype Rect = Rect(left: real, right: real, top: real, bottom: real)

  /** The point lies strictly inside the rectangle. */
  predicate InOpen(p: Point, r: Rect) {
    r.left < p.x < r.right && r.top < p.y < r.bottom
  }

  /** The point lies inside the rectangle or on its border. */
  predicate InClosed(p: Point, r: Rect) {
    r.left <= p.x <= r.right && r.top <= p.y <= r.bottom
  }

  /** Edges in order; a side may have length zero. */
  predicate IsProper(r: Rect) {
    r.left <= r.right && r.top <= r.bottom
  }

  /** A coordinate inside (lo1, hi1) and inside [lo2, hi2], when those meet. */
  function Meet(lo1: real, hi1: real, lo2: real, hi2: real): real {
    if lo2 > lo1 then lo2 else (lo1 + (if hi1 < hi2 then hi1 else hi2)) / 2.0
  }

  /** Strict overlap on both axes: rectangles that only touch do not overlap.
      For a box `h` of positive size it says that some point strictly inside
      `h` lies on `b` (border included). */
  predicate Overlaps(h: Rect, b: Rect): (o: bool)
    ensures h.left < h.right && h.top < h.bottom && IsProper(b) ==>
      (o <==> exists p :: InOpen(p, h) && InClosed(p, b))
  {
    var w := Point(Meet(h.left, h.right, b.left, b.right), Meet(h.top, h.bottom, b.top, b.bottom));
    var o := h.left < b.right && h.right > b.left && h.top < b.bottom && h.bottom > b.top;
    assert h.left < h.right && h.top < h.bottom && IsProper(b) && o ==> InOpen(w, h) && InClosed(w, b);
    o
  }

  /** Squared Euclidean distance; comparing squares avoids `Math.sqrt`. */
  function SqDist(p: Point, q: Point): real {
    (p.x - q.x) * (p.x - q.x) + (p.y - q.y) * (p.y - q.y)
  }
}
