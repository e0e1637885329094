# SBDL pixel-exact collision core, modelled in Dafny

SBDL is a small single-header C++ game library over SDL2 (`SBDL.h`). This project models its
pixel-exact sprite collision pipeline and the keyboard edge detection that the same header
keeps in its core state.

- `grid.dfy`, module `Grid`: arithmetic facts about row-major indexing (`row * width + col`)
  that the other modules share.
- `rects.dfy`, module `Rects`: `SDL_Rect`, `operator==` on it, and `getIntersectionRect`,
  which returns `{0,0,0,0}` when the two rectangles do not overlap.
- `geometry.dfy`, module `Geometry`: `getRotatedBoundingBox`. The four corners are rotated
  about the integer centre `x + w/2`, `y + h/2`. Each rotated coordinate is rounded up, and
  the box is min/max plus one. An angle is its exact sine and cosine (`Turn`). C's `ceil`,
  `round` and truncating `/ 2` are written out.
- `resize.dfy`, module `Bilinear`: `resizeBilinear`. It resamples a `w×h` opacity map to
  `w2×h2` with 16.16 fixed-point bilinear weights, in a nested loop over a fresh buffer.
- `rotate.dfy`, module `Rotation`: `getRotatedAlphaMap`.
  - It negates the angle and sizes a zero-filled buffer by the bounding box of `{0,0,w,h}`.
  - It then scatters every opaque source cell to its rounded rotated position.
  - The nested scan (`ScanUpTo`) is proved equal to a flat row-major scatter (`Scatter`). That
    gives "last write wins" and, at angle 0, the exact layout.
- `collision.dfy`, module `Collision`: `hasCollision`.
  - It makes the bounding boxes, intersects them, and rejects early on width 0.
  - Otherwise it resamples and rotates both maps and scans the intersection for a pixel
    opaque in both.
  - At angle 0 the answer is characterised on the resampled maps, and the 10×10 cases are
    worked out.
- `keyboard.dfy`, module `Keyboard`: the engine's keyboard state as a class.
  - It holds the size, SDL's shared key-state array and the engine's copy of the previous
    frame.
  - It provides the `keyPressed`, `keyReleased` and `keyHeld` queries, and the keyboard half
    of `updateEvents`.

Input opacity maps are sequences, since the pipeline only reads them. Buffers that the code
allocates and fills (`new int[...]`) are arrays returned fresh by methods. Each of those
methods is proved equal to a specification function, and the properties are lemmas about
that function.

## Model

| member | source | states |
|---|---|---|
| Rects.SameRect | SBDL.h:190-192 | field-by-field comparison holds exactly when the two rectangles are equal |
| Rects.IntersectionRect | SBDL.h:816-830 | the result is either `{0,0,0,0}`, or has positive width and height and lies inside both arguments |
| Rects.IntersectionSymmetric | SBDL.h:816-830 | swapping the arguments gives the same rectangle |
| Rects.IntersectionContains | SBDL.h:816-830 | a pixel is in the intersection exactly when it is in both rectangles |
| Rects.EmptyIffDisjoint | SBDL.h:816-830 | the result has width 0 exactly when the rectangles share no pixel (the test hasCollision makes at line 847) |
| Rects.IntersectionIdempotent | SBDL.h:816-830 | a rectangle with positive width and height intersected with itself is itself |
| Geometry.Ceil | SBDL.h:761-768 | the result is the least integer not below its argument |
| Geometry.Round | SBDL.h:801-802 | the result is the nearest integer, with halves rounded away from zero |
| Geometry.Half | SBDL.h:749-750 | `n / 2` truncates toward zero: the remainder is 0 or 1 for n ≥ 0 and 0 or -1 below |
| Geometry.MinMax4 | SBDL.h:769-772 | the nested std::min / std::max bound all four rotated coordinates and each picks one of them |
| Geometry.RotatedBoundingBox | SBDL.h:748-779 | for every sine and cosine, the box is at least one pixel wide and tall |
| Geometry.BoxAroundEncloses | SBDL.h:769-777 | the box holds all four rotated corners, and its first and last column and row each hold a corner |
| Geometry.BoundingBoxAtZero | SBDL.h:748-779 | at angle 0 the box is `{x, y, w+1, h+1}` |
| Geometry.BoundingBoxQuarterTurn | SBDL.h:748-779 | at an exact quarter turn the box is `h+1` wide and `w+1` tall, placed about the same integer centre |
| Geometry.NegateZero | SBDL.h:790 | negating angle 0 gives angle 0 |
| Bilinear.LowByte | SBDL.h:720-723 | `& 0xff` yields a value in 0..255 congruent to its input modulo 256 |
| Bilinear.SampleStaysInside | SBDL.h:704-705 | the `(n-1) << 16` ratio keeps the integer part of every sample coordinate between 0 and n-2 |
| Bilinear.NeighboursInBounds | SBDL.h:711-723 | with w, h ≥ 2 the reads `index`, `index+1`, `index+w` and `index+w+1` are all inside `[0, w*h)` |
| Bilinear.WeightsSum | SBDL.h:725-731 | the four fixed-point weights are non-negative and sum to 2^32 |
| Bilinear.BlendIsByte | SBDL.h:725-731 | the blend of four bytes, shifted down by 32, is a byte, and four equal bytes blend to that byte |
| Bilinear.BilinearAt | SBDL.h:707-733 | every output opacity is in 0..255 |
| Bilinear.Resized | SBDL.h:700-740 | the resample has exactly `w2*h2` cells, each in 0..255 |
| Bilinear.ResizeBilinear | SBDL.h:700-740 | the loop, with its running `x`, `y` and `offset`, fills a fresh buffer equal to `Resized` |
| Bilinear.ResizedConstant | SBDL.h:707-733 | a constant map with value c in 0..255 resamples to c in every cell |
| Bilinear.FirstCellIsCopied | SBDL.h:707-733 | the first output cell is `pixels[0] & 0xff` |
| Bilinear.OriginIsCopied | SBDL.h:708-731 | at output cell (0, 0) both fractions are 0, so the blend returns the top-left neighbour |
| Rotation.LayoutFor | SBDL.h:790-794 | the buffer box is the bounding box of `{0,0,w,h}` at the negated angle, at least one cell each way |
| Rotation.TurnedAtZero | SBDL.h:801-802 | at angle 0 the rounded rotated offset is the offset itself |
| Rotation.Scatter | SBDL.h:797-806 | the scatter of the first n cells keeps the buffer's size `box.w*box.h` |
| Rotation.Writer | SBDL.h:800-803 | picks the last opaque source cell among the first n that lands on a buffer cell, or -1 when none does |
| Rotation.ScatterIsLastWrite | SBDL.h:797-806 | after the scatter each cell holds the value of its last opaque writer, unmodified, or 0 when none writes it |
| Rotation.Put | SBDL.h:800-804 | visiting one source cell keeps the buffer's size |
| Rotation.ScanUpTo | SBDL.h:797-806 | the buffer after the nested scan up to (i, j) has `box.w*box.h` cells |
| Rotation.Rotated | SBDL.h:797-806 | the rotated map has `box.w*box.h` cells |
| Rotation.ScanIsScatter | SBDL.h:798-806 | the nested row/column scan up to (i, j) equals the flat scatter of the first `i*width+j` cells |
| Rotation.RowStart | SBDL.h:798-799 | row i of the scan starts where row i-1 ended, at cell `i*width` |
| Rotation.PutIsScatterStep | SBDL.h:800-803 | visiting cell (i, j) is the scatter step for row-major cell `i*width+j` |
| Rotation.RotatedIsLastWrite | SBDL.h:797-806 | each cell of the rotated map holds the last opaque source value written to it, unmodified, or 0 |
| Rotation.InBoundsAt | SBDL.h:800-803 | source cell (i, j) is inside the map, and an opaque one is written inside the buffer |
| Rotation.RotatedAlphaMap | SBDL.h:789-808 | returns a fresh buffer equal to `Rotated` for the layout at the negated angle |
| Rotation.ScanInto | SBDL.h:795-806 | the zero-filled buffer and the nested loop produce exactly `Rotated` |
| Rotation.LayoutAtZero | SBDL.h:790-794 | at angle 0 the buffer box is `{0, 0, w+1, h+1}` |
| Rotation.DestinationAtZero | SBDL.h:801-803 | at angle 0 source cell (i, j) lands at `i*(w+1) + j` |
| Rotation.ScatterInBoundsAtZero | SBDL.h:803 | at angle 0 every write is inside the buffer |
| Rotation.UnrotatedAt | SBDL.h:797-806 | the angle-0 reference layout holds source cell (row, col) at `row*(w+1)+col` and 0 in the extra column and row |
| Rotation.RotatedAtZero | SBDL.h:797-806 | at angle 0 the rotated map is the source with a zero column on the right and a zero row below |
| Collision.SpriteLayout | SBDL.h:851-852 | a sprite's map is rotated with the rectangle's own width and height |
| Collision.SpriteMap | SBDL.h:849-852 | a sprite's resampled and rotated map has at least as many cells as its bounding box |
| Collision.HasCollision | SBDL.h:842-867 | maps are built only when the boxes' intersection has nonzero width, and the answer is `Collides` |
| Collision.FindOverlap | SBDL.h:855-866 | the scan returns true exactly when some pixel of the intersection is nonzero in both maps |
| Collision.OverlapSymmetric | SBDL.h:857 | the overlap test does not depend on which map comes first |
| Collision.CollidesSymmetric | SBDL.h:842-867 | swapping the two sprites gives the same answer |
| Collision.SpriteAtZero | SBDL.h:844-852 | at angle 0 a sprite's box is `{x, y, w+1, h+1}` and its map is the angle-0 rotation of the resample |
| Collision.GrownOpaque | SBDL.h:857 | at angle 0 a pixel of the grown box is opaque exactly when it is in the rectangle and opaque in the resample |
| Collision.OpaqueAtZero | SBDL.h:849-857 | the same for a sprite: the extra column and row never count |
| Collision.CollisionAtZero | SBDL.h:842-867 | at angle 0, a pixel in both rectangles that is opaque in both resamples makes the sprites collide |
| Collision.CollisionAtZeroWitness | SBDL.h:842-867 | at angle 0, every collision has such a pixel |
| Collision.CollidesAtZero | SBDL.h:842-867 | at angle 0 the sprites collide exactly when some pixel is in both rectangles and opaque in both resamples |
| Collision.SolidIsOpaque | SBDL.h:849-850 | a fully opaque 10×10 texture resamples to an opaque map of any size |
| Collision.OverlappingSquaresCollide | SBDL.h:842-867 | two solid 10×10 sprites at `{0,0,10,10}`, angle 0, collide |
| Collision.SideBySideAtZero | SBDL.h:842-867 | at angle 0 a sprite wholly left of another never collides with it |
| Collision.AdjacentSquaresDoNotCollide | SBDL.h:842-867 | solid squares at `{0,0,10,10}` and `{10,0,10,10}` do not collide, though their boxes meet in column 10 |
| Collision.DistantSquaresRejectedEarly | SBDL.h:844-848 | solid squares with a 10-pixel gap between them (`{0,0,10,10}` and `{20,0,10,10}`) have a zero-width intersection, so the early return answers false |
| Keyboard.Keyboard.constructor | SBDL.h:118-128 | the state starts with size -1 and no arrays |
| Keyboard.Keyboard.UpdateEvents | SBDL.h:344-355 | the first call allocates a zeroed copy. Later calls leave in the copy exactly the states before the call. Afterwards the queries compare that copy with the pumped states |
| Keyboard.KeyStatesExclusive | SBDL.h:278-298 | at most one of pressed, released and held holds for a key. The key is down exactly when it was pressed or is held, and was down exactly when it was released or is held |

## Left out

- SDL itself is not part of this model.
  - Window, renderer, drawing, timing, and loading of textures, fonts, sounds and music
    (SBDL.h:155-184, 310-337, 411-676) are thin wrappers over SDL libraries.
  - The event-poll loop and mouse handling in `updateEvents` (SBDL.h:356-405) are event I/O.
  - `hasIntersectionRect`, `pointInRect` and `mouseInRect` are one-line calls into SDL.
- `getAlpha` and the alpha-map fill at texture load (SBDL.h:78-103, 174-178) are left out:
  the values come from a foreign pixel-format call. A `Texture` takes its opacity map as given.
- Trigonometry and rounding:
  - Sine and cosine are exact real parameters (`Turn`) rather than IEEE doubles of
    `angle * M_PI / 180`.
  - `ceil` and `round` are exact on reals, so one-pixel shifts caused by double rounding are
    not modelled.
  - No claim is made about 360° periodicity, since angles in degrees are not modelled.
- Machine integers are unbounded. The model assumes 64-bit `long` for the weight products
  (SBDL.h:703, 727-730) and no `int` overflow in indices and sizes.
- Memory management is not modelled: `delete[]` of the scratch maps and `freeTexture` not
  freeing the opacity map have no behaviour to verify.
- Bilinear.ResizeBilinear: requires `w ≥ 2` and `h ≥ 2`. Otherwise the `index+w+1` read can
  go past the map, which is undefined behaviour in the source, not a handled case.
  - It always does when h = 1.
  - When w = 1 it does once a sample row reaches h-2.
  - So the requires also excludes some 1-wide inputs that the source reads in bounds, for
    example a 1×5 map resampled to one row, which reads only cells 0..2.
  - It also requires `w2, h2 > 0`, because the ratios divide by them.
- Rotation.RotatedAlphaMap: requires every opaque cell's rounded destination to fall inside
  the buffer (`ScatterInBounds`).
  - The code does not check this. A write outside would be undefined behaviour.
  - The requirement is proved to hold at angle 0 (`ScatterInBoundsAtZero`); other angles are
    not analysed.
- Rotation.Put: skips a write whose destination lies outside the buffer. This branch is never
  taken under `ScatterInBounds`; it only keeps the specification function total.
- Collision.HasCollision: on the slow path, requires both sprites to be `SpriteReady`.
  - Each texture is at least 2×2, and each rectangle has positive size.
  - Every scatter stays in bounds.
  - Each bounding box, computed at the positive angle (line 844), has no more cells than the
    rotated map's buffer, computed at the negated angle (line 794). The code indexes one with
    the other's width.
  - At angle 0 all of this is proved (`SpriteAtZero`); at general angles it is assumed by the
    precondition.
- Keyboard.Keyboard.UpdateEvents: SDL's keyboard-state array and the effect of the event pump
  are parameters.
  - `sdl` is the array that SDL hands out, and the same array is assumed on every call.
  - `pumped` is what the pump leaves in it.
  - The key queries require the first update to have run and the scan code to be in range.
    Otherwise the source dereferences a null pointer or reads out of bounds.
- The key queries `KeyPressed`, `KeyReleased` and `KeyHeld` (SBDL.h:278-298) have no
  contracts of their own. Their meaning is stated by `KeyStatesExclusive` and by the
  postcondition of `UpdateEvents`.
- At angle 0 the bounding box is `{x, y, w+1, h+1}`, not the rectangle itself, because of
  the `+1` at SBDL.h:776-777 (`Geometry.BoundingBoxAtZero`). So the rotated map at angle 0 is
  one column and one row larger than the source.
