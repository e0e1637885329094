/** Angles, C rounding, and the bounding box of a rectangle rotated about its centre
    (getRotatedBoundingBox). */
module Geometry {
  import opened Rects

  /** An angle, given by its exact sine and cosine (the header computes both in doubles
      from degrees; here they are parameters). */
  datatype Turn = Turn(sin: real, cos: real)

  /** The angle 0 degrees. */
  const Zero := Turn(0.0, 1.0)

  /** The angle 90 degrees. */
  const Quarter := Turn(1.0, 0.0)

  /** The negated angle: sin(-a) = -sin(a), cos(-a) = cos(a). */
  function Negate(t: Turn): Turn
  {
    Turn(-t.sin, t.cos)
  }

  lemma NegateZero()
    ensures Negate(Zero) == Zero
  {
  }

  /** C's ceil: the least integer not below r. */
  function Ceil(r: real): (n: int)
    ensures r <= n as real < r + 1.0
  {
    -((-r).Floor)
  }

  /** C's round: the nearest integer, halves rounded away from zero. */
  function Round(r: real): (n: int)
    ensures r >= 0.0 ==> n as real - 0.5 <= r < n as real + 0.5
    ensures r < 0.0 ==> n as real - 0.5 < r <= n as real + 0.5
  {
    if r >= 0.0 then (r + 0.5).Floor else -((-r + 0.5).Floor)
  }

  /** C's integer n / 2, which truncates toward zero. */
  function Half(n: int): (q: int)
    ensures n >= 0 ==> 0 <= n - 2 * q <= 1
    ensures n < 0 ==> -1 <= n - 2 * q <= 0
  {
    if n >= 0 then n / 2 else -((-n) / 2)
  }

  lemma CeilOfInt(n: int)
    ensures Ceil(n as real) == n
  {
  }

  lemma RoundOfInt(n: int)
    ensures Round(n as real) == n
  {
  }

  /** Column of the corner (x, y), given relative to the centre, after rotation, rounded up. */
  function RotatedX(x: int, y: int, t: Turn): int
  {
    Ceil(y as real * t.sin + x as real * t.cos)
  }

  /** Row of the corner (x, y), given relative to the centre, after rotation, rounded up. */
  function RotatedY(x: int, y: int, t: Turn): int
  {
    Ceil(y as real * t.cos - x as real * t.sin)
  }

  function Min4(a: int, b: int, c: int, d: int): int
  {
    Min(a, Min(b, Min(c, d)))
  }

  function Max4(a: int, b: int, c: int, d: int): int
  {
    Max(a, Max(b, Max(c, d)))
  }

  /** Min4 and Max4 bound all four values and are each one of them. */
  lemma MinMax4(a: int, b: int, c: int, d: int)
    ensures Min4(a, b, c, d) <= a && Min4(a, b, c, d) <= b && Min4(a, b, c, d) <= c && Min4(a, b, c, d) <= d
    ensures Max4(a, b, c, d) >= a && Max4(a, b, c, d) >= b && Max4(a, b, c, d) >= c && Max4(a, b, c, d) >= d
    ensures Min4(a, b, c, d) in {a, b, c, d} && Max4(a, b, c, d) in {a, b, c, d}
  {
  }

  /** Column of the integer centre the header rotates about: x + w/2 in C arithmetic. */
  function CentreX(rect: Rect): int
  {
    rect.x + Half(rect.w)
  }

  /** Row of the integer centre the header rotates about: y + h/2 in C arithmetic. */
  function CentreY(rect: Rect): int
  {
    rect.y + Half(rect.h)
  }

  /** The min/max/+1 assembly: the box around four corner offsets (x1, y1) .. (x4, y4), taken
      relative to the centre (cx, cy), one pixel wider and taller than the span. */
  function BoxAround(cx: int, cy: int, x1: int, y1: int, x2: int, y2: int, x3: int, y3: int, x4: int, y4: int): Rect
  {
    var xMin, xMax := Min4(x1, x2, x3, x4), Max4(x1, x2, x3, x4);
    var yMin, yMax := Min4(y1, y2, y3, y4), Max4(y1, y2, y3, y4);
    Rect(xMin + cx, yMin + cy, xMax - xMin + 1, yMax - yMin + 1)
  }

  /** getRotatedBoundingBox: rotate the four corners about the integer centre, round each
      rotated coordinate up, and take the box around them.  Whatever the sine and cosine,
      the box is at least one pixel wide and tall. */
  function RotatedBoundingBox(rect: Rect, t: Turn): (box: Rect)
    ensures box.w >= 1 && box.h >= 1
  {
    var cx, cy := CentreX(rect), CentreY(rect);
    var left, top := rect.x - cx, rect.y - cy;
    var right, bottom := left + rect.w, top + rect.h;
    BoxAround(cx, cy,
      RotatedX(left, top, t), RotatedY(left, top, t),
      RotatedX(right, top, t), RotatedY(right, top, t),
      RotatedX(right, bottom, t), RotatedY(right, bottom, t),
      RotatedX(left, bottom, t), RotatedY(left, bottom, t))
  }

  /** The box holds all four corners (translated back by the centre) and is tight: its first
      and last column and its first and last row each hold a corner, so the +1 turns the
      inclusive span into a pixel count. */
  lemma BoxAroundEncloses(cx: int, cy: int, x1: int, y1: int, x2: int, y2: int, x3: int, y3: int, x4: int, y4: int)
    ensures var box := BoxAround(cx, cy, x1, y1, x2, y2, x3, y3, x4, y4);
      && Contains(box, x1 + cx, y1 + cy) && Contains(box, x2 + cx, y2 + cy)
      && Contains(box, x3 + cx, y3 + cy) && Contains(box, x4 + cx, y4 + cy)
      && box.x in {x1 + cx, x2 + cx, x3 + cx, x4 + cx}
      && box.x + box.w - 1 in {x1 + cx, x2 + cx, x3 + cx, x4 + cx}
      && box.y in {y1 + cy, y2 + cy, y3 + cy, y4 + cy}
      && box.y + box.h - 1 in {y1 + cy, y2 + cy, y3 + cy, y4 + cy}
  {
    MinMax4(x1, x2, x3, x4);
    MinMax4(y1, y2, y3, y4);
  }

  /** At angle 0 the box is the rectangle grown by one pixel to the right and below
      (not the rectangle itself). */
  lemma BoundingBoxAtZero(rect: Rect)
    requires rect.w >= 0 && rect.h >= 0
    ensures RotatedBoundingBox(rect, Zero) == Rect(rect.x, rect.y, rect.w + 1, rect.h + 1)
  {
    var cx, cy := CentreX(rect), CentreY(rect);
    var left, top := rect.x - cx, rect.y - cy;
    CeilOfInt(left);
    CeilOfInt(top);
    CeilOfInt(left + rect.w);
    CeilOfInt(top + rect.h);
  }

  /** A quarter turn swaps the extents (each plus one) and keeps the box on the same centre. */
  lemma BoundingBoxQuarterTurn(rect: Rect)
    requires rect.w >= 0 && rect.h >= 0
    ensures var box := RotatedBoundingBox(rect, Quarter);
      && box.w == rect.h + 1 && box.h == rect.w + 1
      && box.x == CentreX(rect) - Half(rect.h) && box.y == CentreY(rect) - (rect.w - Half(rect.w))
  {
    var cx, cy := CentreX(rect), CentreY(rect);
    var left, top := rect.x - cx, rect.y - cy;
    CeilOfInt(top);
    CeilOfInt(top + rect.h);
    CeilOfInt(-left);
    CeilOfInt(-(left + rect.w));
  }
}
