/** hasCollision: pixel-perfect collision of two textured sprites, each drawn into a rectangle
    and rotated about its centre. */
module Collision {
  import opened Grid
  import opened Rects
  import opened Geometry
  import opened Bilinear
  import opened Rotation

  /** What collision detection uses of a loaded texture: its size and its row-major opacity
      map (one value per pixel; only the low byte is read). */
  datatype Texture = Texture(width: int, height: int, alphaMap: seq<int>)

  /** The layout hasCollision rotates a sprite's resized map with. */
  function SpriteLayout(rect: Rect, t: Turn): (lay: Layout)
    ensures lay.width == rect.w && lay.height == rect.h && lay.box.w >= 1 && lay.box.h >= 1
  {
    LayoutFor(rect.w, rect.h, t)
  }

  /** What the slow path of hasCollision needs of one sprite: a texture of at least 2 by 2
      pixels, a rectangle with positive size (the resampling divides by it), every opaque cell
      rotated into the buffer, and the sprite's bounding box no larger than that buffer (the
      scan indexes the buffer with the box's own width). */
  predicate SpriteReady(tex: Texture, rect: Rect, t: Turn)
  {
    && ValidSource(tex.alphaMap, tex.width, tex.height)
    && rect.w > 0 && rect.h > 0
    && ScatterInBounds(Resized(tex.alphaMap, tex.width, tex.height, rect.w, rect.h), SpriteLayout(rect, t))
    && Area(RotatedBoundingBox(rect, t)) <= Size(SpriteLayout(rect, t))
  }

  /** The sprite's opacity map as hasCollision builds it: the texture's map resampled to the
      rectangle's size, then rotated by the sprite's angle. */
  function SpriteMap(tex: Texture, rect: Rect, t: Turn): (m: seq<int>)
    requires SpriteReady(tex, rect, t)
    ensures |m| == Size(SpriteLayout(rect, t)) >= Area(RotatedBoundingBox(rect, t))
  {
    Rotated(Resized(tex.alphaMap, tex.width, tex.height, rect.w, rect.h), SpriteLayout(rect, t))
  }

  /** Is screen pixel (px, py) opaque in the map m laid over box, read as hasCollision reads
      it: row py - box.y, column px - box.x, rows box.w cells wide? */
  predicate Opaque(m: seq<int>, box: Rect, px: int, py: int)
    requires Contains(box, px, py) && Area(box) <= |m|
  {
    RowMajor(py - box.y, px - box.x, box.w, box.h);
    m[(py - box.y) * box.w + px - box.x] != 0
  }

  /** The two maps both have an opaque pixel somewhere in inter. */
  ghost predicate OverlapIn(m1: seq<int>, box1: Rect, m2: seq<int>, box2: Rect, inter: Rect)
    requires Inside(inter, box1) && Inside(inter, box2) && Area(box1) <= |m1| && Area(box2) <= |m2|
  {
    exists px, py :: Contains(inter, px, py) && Opaque(m1, box1, px, py) && Opaque(m2, box2, px, py)
  }

  /** The query is defined when the boxes do not overlap (the early return) or both sprites
      are ready for the slow path. */
  predicate QueryDefined(tex1: Texture, rect1: Rect, t1: Turn, tex2: Texture, rect2: Rect, t2: Turn)
  {
    IntersectionRect(RotatedBoundingBox(rect1, t1), RotatedBoundingBox(rect2, t2)).w != 0 ==>
      SpriteReady(tex1, rect1, t1) && SpriteReady(tex2, rect2, t2)
  }

  /** The answer hasCollision computes: the rotated bounding boxes overlap and some pixel of
      their overlap is opaque in both rotated maps. */
  ghost predicate Collides(tex1: Texture, rect1: Rect, t1: Turn, tex2: Texture, rect2: Rect, t2: Turn)
    requires QueryDefined(tex1, rect1, t1, tex2, rect2, t2)
  {
    var box1, box2 := RotatedBoundingBox(rect1, t1), RotatedBoundingBox(rect2, t2);
    var inter := IntersectionRect(box1, box2);
    inter.w != 0 &&
    OverlapIn(SpriteMap(tex1, rect1, t1), box1, SpriteMap(tex2, rect2, t2), box2, inter)
  }

  /** hasCollision: reject at once when the rotated bounding boxes do not overlap; otherwise
      resample and rotate both opacity maps and scan the overlap for a pixel opaque in both.
      The ghost result tells whether the maps were built at all. */
  method HasCollision(tex1: Texture, rect1: Rect, t1: Turn, tex2: Texture, rect2: Rect, t2: Turn)
    returns (hit: bool, ghost resampled: bool)
    requires QueryDefined(tex1, rect1, t1, tex2, rect2, t2)
    ensures resampled <==> IntersectionRect(RotatedBoundingBox(rect1, t1), RotatedBoundingBox(rect2, t2)).w != 0
    ensures hit == Collides(tex1, rect1, t1, tex2, rect2, t2)
  {
    var box1 := RotatedBoundingBox(rect1, t1);
    var box2 := RotatedBoundingBox(rect2, t2);
    var inter := IntersectionRect(box1, box2);
    if inter.w == 0 {
      return false, false;
    }
    resampled := true;
    var resized1 := ResizeBilinear(tex1.alphaMap, tex1.width, tex1.height, rect1.w, rect1.h);
    var resized2 := ResizeBilinear(tex2.alphaMap, tex2.width, tex2.height, rect2.w, rect2.h);
    var map1 := RotatedAlphaMap(resized1[..], rect1.w, rect1.h, t1);
    var map2 := RotatedAlphaMap(resized2[..], rect2.w, rect2.h, t2);
    hit := FindOverlap(map1, box1, map2, box2, inter);
  }

  /** The scan of hasCollision: rows of the overlap top to bottom, each left to right, stopping
      at the first pixel opaque in both maps. */
  method FindOverlap(map1: array<int>, box1: Rect, map2: array<int>, box2: Rect, inter: Rect)
    returns (hit: bool)
    requires inter.w >= 0 && inter.h >= 0 && Inside(inter, box1) && Inside(inter, box2)
    requires Area(box1) <= map1.Length && Area(box2) <= map2.Length
    ensures hit == OverlapIn(map1[..], box1, map2[..], box2, inter)
  {
    for i := inter.y to inter.y + inter.h
      invariant forall px, py :: Contains(inter, px, py) && py < i ==>
        !(Opaque(map1[..], box1, px, py) && Opaque(map2[..], box2, px, py))
    {
      for j := inter.x to inter.x + inter.w
        invariant forall px, py :: Contains(inter, px, py) && (py < i || (py == i && px < j)) ==>
          !(Opaque(map1[..], box1, px, py) && Opaque(map2[..], box2, px, py))
      {
        RowMajor(i - box1.y, j - box1.x, box1.w, box1.h);
        RowMajor(i - box2.y, j - box2.x, box2.w, box2.h);
        if map1[(i - box1.y) * box1.w + j - box1.x] != 0 && map2[(i - box2.y) * box2.w + j - box2.x] != 0 {
          assert Opaque(map1[..], box1, j, i) && Opaque(map2[..], box2, j, i);
          return true;
        }
      }
    }
    return false;
  }

  /** Overlap does not depend on which map is named first. */
  lemma OverlapSymmetric(m1: seq<int>, box1: Rect, m2: seq<int>, box2: Rect, inter: Rect)
    requires Inside(inter, box1) && Inside(inter, box2) && Area(box1) <= |m1| && Area(box2) <= |m2|
    ensures OverlapIn(m1, box1, m2, box2, inter) == OverlapIn(m2, box2, m1, box1, inter)
  {
    if OverlapIn(m1, box1, m2, box2, inter) {
      var px, py :| Contains(inter, px, py) && Opaque(m1, box1, px, py) && Opaque(m2, box2, px, py);
      assert Opaque(m2, box2, px, py) && Opaque(m1, box1, px, py);
    }
  }

  /** hasCollision is symmetric: swapping the two sprites gives the same answer. */
  lemma CollidesSymmetric(tex1: Texture, rect1: Rect, t1: Turn, tex2: Texture, rect2: Rect, t2: Turn)
    requires QueryDefined(tex1, rect1, t1, tex2, rect2, t2)
    ensures QueryDefined(tex2, rect2, t2, tex1, rect1, t1)
    ensures Collides(tex1, rect1, t1, tex2, rect2, t2) == Collides(tex2, rect2, t2, tex1, rect1, t1)
  {
    var box1, box2 := RotatedBoundingBox(rect1, t1), RotatedBoundingBox(rect2, t2);
    IntersectionSymmetric(box1, box2);
    var inter := IntersectionRect(box1, box2);
    if inter.w != 0 {
      OverlapSymmetric(SpriteMap(tex1, rect1, t1), box1, SpriteMap(tex2, rect2, t2), box2, inter);
    }
  }

  /** Pixel (px, py) of rect is opaque in the texture's map resampled to the rectangle's size
      (row py - rect.y, column px - rect.x). */
  predicate ResizedOpaque(tex: Texture, rect: Rect, px: int, py: int)
    requires ValidSource(tex.alphaMap, tex.width, tex.height) && Contains(rect, px, py)
  {
    Opaque(Resized(tex.alphaMap, tex.width, tex.height, rect.w, rect.h), rect, px, py)
  }

  /** At angle 0 a sprite is always ready, its box is its rectangle grown by one pixel to the
      right and below, and its map is the resized map rotated by the angle-0 layout. */
  lemma SpriteAtZero(tex: Texture, rect: Rect)
    requires ValidSource(tex.alphaMap, tex.width, tex.height) && rect.w > 0 && rect.h > 0
    ensures RotatedBoundingBox(rect, Zero) == Rect(rect.x, rect.y, rect.w + 1, rect.h + 1)
    ensures SpriteReady(tex, rect, Zero)
    ensures SpriteMap(tex, rect, Zero) ==
      Rotated(Resized(tex.alphaMap, tex.width, tex.height, rect.w, rect.h), ZeroLayout(rect.w, rect.h))
  {
    BoundingBoxAtZero(rect);
    LayoutAtZero(rect.w, rect.h);
    ScatterInBoundsAtZero(Resized(tex.alphaMap, tex.width, tex.height, rect.w, rect.h), rect.w, rect.h);
  }

  /** At angle 0 a pixel of the sprite's box is opaque in its rotated map exactly when it lies
      in the rectangle and is opaque in the resized map: the extra column and row are empty. */
  lemma OpaqueAtZero(tex: Texture, rect: Rect, px: int, py: int)
    requires ValidSource(tex.alphaMap, tex.width, tex.height) && rect.w > 0 && rect.h > 0
    requires Contains(Rect(rect.x, rect.y, rect.w + 1, rect.h + 1), px, py)
    ensures SpriteReady(tex, rect, Zero) && Contains(RotatedBoundingBox(rect, Zero), px, py)
    ensures Opaque(SpriteMap(tex, rect, Zero), RotatedBoundingBox(rect, Zero), px, py) <==>
      Contains(rect, px, py) && ResizedOpaque(tex, rect, px, py)
  {
    SpriteAtZero(tex, rect);
    GrownOpaque(Resized(tex.alphaMap, tex.width, tex.height, rect.w, rect.h), rect, px, py);
  }

  /** The angle-0 rotation of src, placed in rect grown by one pixel right and below, is opaque
      at a pixel exactly when the pixel lies in rect and src is opaque there. */
  lemma GrownOpaque(src: seq<int>, rect: Rect, px: int, py: int)
    requires rect.w > 0 && rect.h > 0 && |src| == rect.w * rect.h
    requires Contains(Rect(rect.x, rect.y, rect.w + 1, rect.h + 1), px, py)
    ensures |Rotated(src, ZeroLayout(rect.w, rect.h))| == (rect.w + 1) * (rect.h + 1)
    ensures Opaque(Rotated(src, ZeroLayout(rect.w, rect.h)), Rect(rect.x, rect.y, rect.w + 1, rect.h + 1), px, py) <==>
      Contains(rect, px, py) && Opaque(src, rect, px, py)
  {
    RotatedAtZero(src, rect.w, rect.h);
    var m := Rotated(src, ZeroLayout(rect.w, rect.h));
    var row, col := py - rect.y, px - rect.x;
    UnrotatedAt(src, rect.w, rect.h, row, col);
    var k := row * (rect.w + 1) + col;
    assert m[k] == Unrotated(src, rect.w, rect.h, k);
  }

  /** With both angles 0, a pixel inside both rectangles and opaque in both resized maps is
      a collision. */
  lemma CollisionAtZero(tex1: Texture, rect1: Rect, tex2: Texture, rect2: Rect, px: int, py: int)
    requires ValidSource(tex1.alphaMap, tex1.width, tex1.height) && rect1.w > 0 && rect1.h > 0
    requires ValidSource(tex2.alphaMap, tex2.width, tex2.height) && rect2.w > 0 && rect2.h > 0
    requires Contains(rect1, px, py) && Contains(rect2, px, py)
    requires ResizedOpaque(tex1, rect1, px, py) && ResizedOpaque(tex2, rect2, px, py)
    ensures QueryDefined(tex1, rect1, Zero, tex2, rect2, Zero)
    ensures Collides(tex1, rect1, Zero, tex2, rect2, Zero)
  {
    SpriteAtZero(tex1, rect1);
    SpriteAtZero(tex2, rect2);
    var box1, box2 := RotatedBoundingBox(rect1, Zero), RotatedBoundingBox(rect2, Zero);
    IntersectionContains(box1, box2, px, py);
    OpaqueAtZero(tex1, rect1, px, py);
    OpaqueAtZero(tex2, rect2, px, py);
    assert Contains(IntersectionRect(box1, box2), px, py);
    assert Opaque(SpriteMap(tex1, rect1, Zero), box1, px, py);
    assert Opaque(SpriteMap(tex2, rect2, Zero), box2, px, py);
  }

  /** With both angles 0, every collision is at a pixel inside both rectangles and opaque in
      both resized maps. */
  lemma CollisionAtZeroWitness(tex1: Texture, rect1: Rect, tex2: Texture, rect2: Rect)
    requires ValidSource(tex1.alphaMap, tex1.width, tex1.height) && rect1.w > 0 && rect1.h > 0
    requires ValidSource(tex2.alphaMap, tex2.width, tex2.height) && rect2.w > 0 && rect2.h > 0
    ensures QueryDefined(tex1, rect1, Zero, tex2, rect2, Zero)
    ensures Collides(tex1, rect1, Zero, tex2, rect2, Zero) ==>
      exists px, py :: Contains(rect1, px, py) && Contains(rect2, px, py) &&
        ResizedOpaque(tex1, rect1, px, py) && ResizedOpaque(tex2, rect2, px, py)
  {
    SpriteAtZero(tex1, rect1);
    SpriteAtZero(tex2, rect2);
    var box1, box2 := RotatedBoundingBox(rect1, Zero), RotatedBoundingBox(rect2, Zero);
    var inter := IntersectionRect(box1, box2);
    var m1, m2 := SpriteMap(tex1, rect1, Zero), SpriteMap(tex2, rect2, Zero);
    if Collides(tex1, rect1, Zero, tex2, rect2, Zero) {
      var px, py :| Contains(inter, px, py) && Opaque(m1, box1, px, py) && Opaque(m2, box2, px, py);
      IntersectionContains(box1, box2, px, py);
      OpaqueAtZero(tex1, rect1, px, py);
      OpaqueAtZero(tex2, rect2, px, py);
    }
  }

  /** With both angles 0, the sprites collide exactly when some pixel lies in both rectangles
      and is opaque in both resized maps: the extra column and row of each rotated map never
      take part. */
  lemma CollidesAtZero(tex1: Texture, rect1: Rect, tex2: Texture, rect2: Rect)
    requires ValidSource(tex1.alphaMap, tex1.width, tex1.height) && rect1.w > 0 && rect1.h > 0
    requires ValidSource(tex2.alphaMap, tex2.width, tex2.height) && rect2.w > 0 && rect2.h > 0
    ensures QueryDefined(tex1, rect1, Zero, tex2, rect2, Zero)
    ensures Collides(tex1, rect1, Zero, tex2, rect2, Zero) <==>
      exists px, py :: Contains(rect1, px, py) && Contains(rect2, px, py) &&
        ResizedOpaque(tex1, rect1, px, py) && ResizedOpaque(tex2, rect2, px, py)
  {
    CollisionAtZeroWitness(tex1, rect1, tex2, rect2);
    if exists px, py :: Contains(rect1, px, py) && Contains(rect2, px, py) &&
        ResizedOpaque(tex1, rect1, px, py) && ResizedOpaque(tex2, rect2, px, py) {
      var px, py :| Contains(rect1, px, py) && Contains(rect2, px, py) &&
        ResizedOpaque(tex1, rect1, px, py) && ResizedOpaque(tex2, rect2, px, py);
      CollisionAtZero(tex1, rect1, tex2, rect2, px, py);
    }
  }

  /** A 10 by 10 texture that is fully opaque. */
  const Solid := Texture(10, 10, seq(100, _ => 255))

  /** Every pixel of any rectangle is opaque in the resampled solid texture. */
  lemma SolidIsOpaque(rect: Rect, px: int, py: int)
    requires Contains(rect, px, py)
    ensures ValidSource(Solid.alphaMap, Solid.width, Solid.height) && ResizedOpaque(Solid, rect, px, py)
  {
    ResizedConstant(Solid.alphaMap, 10, 10, rect.w, rect.h, 255);
    RowMajor(py - rect.y, px - rect.x, rect.w, rect.h);
  }

  /** Two solid 10 by 10 sprites drawn at the same place, unrotated, collide. */
  lemma OverlappingSquaresCollide()
    ensures QueryDefined(Solid, Rect(0, 0, 10, 10), Zero, Solid, Rect(0, 0, 10, 10), Zero)
    ensures Collides(Solid, Rect(0, 0, 10, 10), Zero, Solid, Rect(0, 0, 10, 10), Zero)
  {
    var rect := Rect(0, 0, 10, 10);
    SolidIsOpaque(rect, 0, 0);
    CollisionAtZero(Solid, rect, Solid, rect, 0, 0);
  }

  /** With both angles 0, a sprite wholly to the left of another never collides with it, even
      when their bounding boxes overlap. */
  lemma SideBySideAtZero(tex1: Texture, rect1: Rect, tex2: Texture, rect2: Rect)
    requires ValidSource(tex1.alphaMap, tex1.width, tex1.height) && rect1.w > 0 && rect1.h > 0
    requires ValidSource(tex2.alphaMap, tex2.width, tex2.height) && rect2.w > 0 && rect2.h > 0
    requires rect1.x + rect1.w <= rect2.x
    ensures QueryDefined(tex1, rect1, Zero, tex2, rect2, Zero)
    ensures !Collides(tex1, rect1, Zero, tex2, rect2, Zero)
  {
    CollisionAtZeroWitness(tex1, rect1, tex2, rect2);
  }

  /** Two solid 10 by 10 sprites side by side, unrotated, do not collide, although their
      bounding boxes (each one pixel wider than the sprite) overlap in a one-pixel column, so
      the maps are built and scanned. */
  lemma AdjacentSquaresDoNotCollide()
    ensures IntersectionRect(RotatedBoundingBox(Rect(0, 0, 10, 10), Zero),
                             RotatedBoundingBox(Rect(10, 0, 10, 10), Zero)) == Rect(10, 0, 1, 11)
    ensures QueryDefined(Solid, Rect(0, 0, 10, 10), Zero, Solid, Rect(10, 0, 10, 10), Zero)
    ensures !Collides(Solid, Rect(0, 0, 10, 10), Zero, Solid, Rect(10, 0, 10, 10), Zero)
  {
    BoundingBoxAtZero(Rect(0, 0, 10, 10));
    BoundingBoxAtZero(Rect(10, 0, 10, 10));
    SolidIsOpaque(Rect(0, 0, 10, 10), 0, 0);
    SideBySideAtZero(Solid, Rect(0, 0, 10, 10), Solid, Rect(10, 0, 10, 10));
  }

  /** Solid sprites with a 10-pixel gap between them are rejected by the bounding boxes alone. */
  lemma DistantSquaresRejectedEarly()
    ensures IntersectionRect(RotatedBoundingBox(Rect(0, 0, 10, 10), Zero),
                             RotatedBoundingBox(Rect(20, 0, 10, 10), Zero)).w == 0
    ensures QueryDefined(Solid, Rect(0, 0, 10, 10), Zero, Solid, Rect(20, 0, 10, 10), Zero)
    ensures !Collides(Solid, Rect(0, 0, 10, 10), Zero, Solid, Rect(20, 0, 10, 10), Zero)
  {
    BoundingBoxAtZero(Rect(0, 0, 10, 10));
    BoundingBoxAtZero(Rect(20, 0, 10, 10));
  }
}
