/** Integer points and pygame-style rectangles shared by the demos.
    A rectangle is its top-left corner and its size, as pygame's Rect stores it;
    its right edge is x + w and its bottom edge y + h. */
module Rects {

  datatype Point = Point(x: int, y: int)

  datatype Rect = Rect(x: int, y: int, w: int, h: int)
  {
    function Right(): int { x + w }
    function Bottom(): int { y + h }
    function TopLeft(): Point { Point(x, y) }
    function TopRight(): Point { Point(x + w, y) }
    function BottomRight(): Point { Point(x + w, y + h) }
    function BottomLeft(): Point { Point(x, y + h) }
  }

  /** Rect.collidepoint: half-open on the right and bottom edges. */
  predicate CollidePoint(r: Rect, p: Point)
  {
    r.x <= p.x < r.x + r.w && r.y <= p.y < r.y + r.h
  }

  /** Rect.colliderect: the two rectangles share an area of positive size. */
  predicate CollideRect(a: Rect, b: Rect)
  {
    a.w > 0 && a.h > 0 && b.w > 0 && b.h > 0 &&
    a.x < b.x + b.w && b.x < a.x + a.w &&
    a.y < b.y + b.h && b.y < a.y + a.h
  }

  /** Python's int() of n / 2 for an integer n: the quotient truncated toward zero. */
  function TruncHalf(n: int): (r: int)
    ensures 2 * r <= n + 1 && n - 1 <= 2 * r
    ensures n >= 0 ==> 0 <= r <= n && (n > 0 ==> r < n)
    ensures n >= 0 ==> r == n / 2
  {
    if n >= 0 then n / 2 else -((-n) / 2)
  }

  /** A rectangle positioned by its centre, as `rect.center = c` does:
      the top-left corner is c - (w // 2, h // 2). */
  function CenteredAt(c: Point, w: nat, h: nat): (r: Rect)
    ensures r.w == w && r.h == h
    ensures r.x + r.w / 2 == c.x && r.y + r.h / 2 == c.y
  {
    Rect(c.x - w / 2, c.y - h / 2, w, h)
  }

  /** A point inside a rectangle that no other rectangle overlaps lies outside that
      other rectangle: what lets a range query skip a region it does not touch. */
  lemma DisjointRectsSeparatePoints(r: Rect, b: Rect, p: Point)
    requires !CollideRect(r, b) && CollidePoint(b, p)
    ensures !CollidePoint(r, p)
  {
  }

  /** Overlap is symmetric. */
  lemma CollideRectSymmetric(a: Rect, b: Rect)
    ensures CollideRect(a, b) == CollideRect(b, a)
  {
  }
}
