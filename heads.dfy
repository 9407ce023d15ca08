/** The faces ("heads") that cover the page: position, hit test, bounding box
    and the per-frame jitter while the scare timer runs. */
module Heads {
  import opened Geometry

  /** Side of a head sprite in pixels. */
  const HEAD_SIZE: real := 48.0
  /** Extra radius around a head within which a click still hits it. */
  const HIT_MARGIN: real := 5.0
  /** Half the width of the random offset a scared head is drawn at. */
  const JITTER: real := 3.0

  /** A head: its current position (top-left corner), its home position and its size. */
  datatype Head = Head(x: real, y: real, baseX: real, baseY: real, size: real)

  /** The head the grid places at (x, y): at home, with the standard size. */
  function NewHead(x: real, y: real): (h: Head)
    ensures h.x == h.baseX == x && h.y == h.baseY == y && h.size == HEAD_SIZE
    ensures Centre(h) == Point(x + HEAD_SIZE / 2.0, y + HEAD_SIZE / 2.0)
  {
    Head(x, y, x, y, HEAD_SIZE)
  }

  function Centre(h: Head): Point {
    Point(h.x + h.size / 2.0, h.y + h.size / 2.0)
  }

  /** Distance from the centre below which a click hits the head. */
  function HitRadius(h: Head): real {
    h.size / 2.0 + HIT_MARGIN
  }

  /** `Head.isHit`: the pointer lies closer to the centre than the hit radius,
      stated on squared distances (`IsHitMatchesDistance` ties it to the
      distance itself). Every hit lies inside the head's box grown by
      HIT_MARGIN on each side. */
  predicate IsHit(h: Head, px: real, py: real): (hit: bool)
    ensures hit ==> HeadRect(h).left - HIT_MARGIN < px < HeadRect(h).right + HIT_MARGIN
    ensures hit ==> HeadRect(h).top - HIT_MARGIN < py < HeadRect(h).bottom + HIT_MARGIN
  {
    var r := HitRadius(h);
    0.0 < r && SqDist(Point(px, py), Centre(h)) < r * r
  }

  /** `Head.getRect`: the sprite's bounding box, a square of side `size`
      whose midpoint is the head's centre. */
  function HeadRect(h: Head): (r: Rect)
    ensures r.right - r.left == h.size && r.bottom - r.top == h.size
    ensures (r.left + r.right) / 2.0 == Centre(h).x
    ensures (r.top + r.bottom) / 2.0 == Centre(h).y
  {
    Rect(h.x, h.x + h.size, h.y, h.y + h.size)
  }

  /** The two `Math.random()` values a scared head consumes in one frame. */
  datatype JitterDraws = JitterDraws(rx: real, ry: real)

  predicate IsJitterDraws(d: JitterDraws) {
    0.0 <= d.rx < 1.0 && 0.0 <= d.ry < 1.0
  }

  /** `Head.update`: while scared the head sits within JITTER of home,
      otherwise exactly at home; home and size never change. */
  function UpdateHead(h: Head, scared: bool, d: JitterDraws): (r: Head)
    requires IsJitterDraws(d)
    ensures r.baseX == h.baseX && r.baseY == h.baseY && r.size == h.size
    ensures scared ==> h.baseX - JITTER <= r.x < h.baseX + JITTER
    ensures scared ==> h.baseY - JITTER <= r.y < h.baseY + JITTER
    ensures !scared ==> r.x == h.baseX && r.y == h.baseY
  {
    if scared then
      h.(x := h.baseX + (d.rx * 2.0 * JITTER - JITTER), y := h.baseY + (d.ry * 2.0 * JITTER - JITTER))
    else
      h.(x := h.baseX, y := h.baseY)
  }

  /** A click at the exact centre of a standard head hits it. */
  lemma HitAtCentre(h: Head)
    requires h.size == HEAD_SIZE
    ensures IsHit(h, Centre(h).x, Centre(h).y)
  {
  }

  /** For a standard head the hit test is "squared distance below 29 * 29";
      in particular a point at distance 29 or more is never a hit. */
  lemma HitRadiusOfStandardHead(h: Head, px: real, py: real)
    requires h.size == HEAD_SIZE
    ensures IsHit(h, px, py) <==> SqDist(Point(px, py), Centre(h)) < 29.0 * 29.0
  {
  }

  lemma MulMono(a: real, b: real, c: real)
    requires 0.0 <= c && a <= b
    ensures a * c <= b * c
  {
  }

  lemma MulStrict(a: real, b: real, c: real)
    requires 0.0 < c && a < b
    ensures a * c < b * c
  {
  }

  /** `IsHit` agrees with the source's test `dist < size / 2 + 5`, where
      `dist` is the (non-negative) square root of the squared distance. */
  lemma IsHitMatchesDistance(h: Head, px: real, py: real, dist: real)
    requires 0.0 <= dist && dist * dist == SqDist(Point(px, py), Centre(h))
    ensures IsHit(h, px, py) <==> dist < HitRadius(h)
  {
    var r := HitRadius(h);
    if 0.0 < r {
      if dist < r {
        calc {
          dist * dist;
        <= { MulMono(dist, r, dist); }
          r * dist;
        == dist * r;
        < { MulStrict(dist, r, r); }
          r * r;
        }
      } else {
        MulMono(r, dist, r);
        MulMono(r, dist, dist);
      }
    }
  }
}
