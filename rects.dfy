/** Axis-aligned integer rectangles (SDL_Rect), their equality and their intersection. */
module Rects {

  /** An SDL_Rect: top-left corner (x, y), width w and height h. */
  datatype Rect = Rect(x: int, y: int, w: int, h: int)

  /** The value getIntersectionRect returns when the rectangles do not overlap. */
  const Empty := Rect(0, 0, 0, 0)

  /** Does the pixel (px, py) lie inside r?  A rectangle with w <= 0 or h <= 0 holds no pixel. */
  predicate Contains(r: Rect, px: int, py: int)
  {
    r.x <= px < r.x + r.w && r.y <= py < r.y + r.h
  }

  /** Pixel count of a rectangle. */
  function Area(r: Rect): int
  {
    r.w * r.h
  }

  /** Every pixel column and row of inner lies within outer. */
  predicate Inside(inner: Rect, outer: Rect)
  {
    outer.x <= inner.x && inner.x + inner.w <= outer.x + outer.w &&
    outer.y <= inner.y && inner.y + inner.h <= outer.y + outer.h
  }

  /** operator== on SDL_Rect: field-by-field comparison, which is value equality. */
  function SameRect(a: Rect, b: Rect): (eq: bool)
    ensures eq <==> a == b
  {
    a.x == b.x && a.y == b.y && a.h == b.h && a.w == b.w
  }

  /** std::max on ints (returns the second argument only when the first is smaller). */
  function Max(a: int, b: int): int
  {
    if a < b then b else a
  }

  /** std::min on ints (returns the second argument only when it is smaller). */
  function Min(a: int, b: int): int
  {
    if b < a then b else a
  }

  /** getIntersectionRect: the overlap of a and b, or Empty when the overlap has no area. */
  function IntersectionRect(a: Rect, b: Rect): (r: Rect)
    ensures r == Empty || (r.w > 0 && r.h > 0 && Inside(r, a) && Inside(r, b))
  {
    var x1 := Max(a.x, b.x);
    var y1 := Max(a.y, b.y);
    var x2 := Min(a.x + a.w, b.x + b.w);
    var y2 := Min(a.y + a.h, b.y + b.h);
    var width := x2 - x1;
    var height := y2 - y1;
    if width > 0 && height > 0 then Rect(x1, y1, width, height) else Empty
  }

  /** The order of the arguments does not matter. */
  lemma IntersectionSymmetric(a: Rect, b: Rect)
    ensures IntersectionRect(a, b) == IntersectionRect(b, a)
  {
  }

  /** A pixel is in the intersection exactly when it is in both rectangles. */
  lemma IntersectionContains(a: Rect, b: Rect, px: int, py: int)
    ensures Contains(IntersectionRect(a, b), px, py) <==> Contains(a, px, py) && Contains(b, px, py)
  {
  }

  /** The zero-width result (what hasCollision tests for) means the rectangles share no pixel. */
  lemma {:induction false} EmptyIffDisjoint(a: Rect, b: Rect)
    ensures IntersectionRect(a, b).w == 0 <==> forall px, py :: !(Contains(a, px, py) && Contains(b, px, py))
  {
    var r := IntersectionRect(a, b);
    if r.w != 0 {
      IntersectionContains(a, b, r.x, r.y);
    } else {
      forall px, py ensures !(Contains(a, px, py) && Contains(b, px, py)) {
        IntersectionContains(a, b, px, py);
      }
    }
  }

  /** A rectangle with positive area intersected with itself is itself. */
  lemma IntersectionIdempotent(a: Rect)
    requires a.w > 0 && a.h > 0
    ensures IntersectionRect(a, a) == a
  {
  }
}
