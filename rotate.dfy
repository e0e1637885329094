/** getRotatedAlphaMap: rotating an opacity map by forward scatter into a zero-filled buffer
    sized to the rotated bounding box. */
module Rotation {
  import opened Grid
  import opened Rects
  import opened Geometry

  /** What getRotatedAlphaMap settles before its loop: the source size, the angle after it is
      negated, and the bounding box of the zero-origin source rectangle at that angle. */
  datatype Layout = Layout(width: int, height: int, u: Turn, box: Rect)

  /** The layout getRotatedAlphaMap uses to rotate a width by height map by angle t. */
  function LayoutFor(width: int, height: int, t: Turn): (lay: Layout)
    ensures lay.box.w >= 1 && lay.box.h >= 1
  {
    var u := Negate(t);
    Layout(width, height, u, RotatedBoundingBox(Rect(0, 0, width, height), u))
  }

  /** A row-major source map of lay.width by lay.height cells and a non-empty buffer box. */
  predicate Fits(src: seq<int>, lay: Layout)
  {
    lay.width >= 0 && lay.height >= 0 && |src| == lay.width * lay.height &&
    lay.box.w >= 1 && lay.box.h >= 1
  }

  /** Number of cells of the rotated map. */
  function Size(lay: Layout): int
  {
    Area(lay.box)
  }

  /** Column offset from the centre of the point (dx, dy) rotated by u, rounded. */
  function TurnedX(dx: int, dy: int, u: Turn): int
  {
    Round(dy as real * u.sin + dx as real * u.cos)
  }

  /** Row offset from the centre of the point (dx, dy) rotated by u, rounded. */
  function TurnedY(dx: int, dy: int, u: Turn): int
  {
    Round(dy as real * u.cos - dx as real * u.sin)
  }

  lemma TurnedAtZero(dx: int, dy: int)
    ensures TurnedX(dx, dy, Zero) == dx && TurnedY(dx, dy, Zero) == dy
  {
    RoundOfInt(dx);
    RoundOfInt(dy);
  }

  /** The buffer index of the rotated offset (x, y): the offset is placed relative to the
      source centre, shifted by half the growth of the box in each direction. */
  function BufferIndex(lay: Layout, x: int, y: int): int
  {
    (y + Half(lay.height) + Half(lay.box.h - lay.height)) * lay.box.w
      + x + Half(lay.width) + Half(lay.box.w - lay.width)
  }

  /** The buffer index source cell (i, j) is written to: its offset from the centre, rotated by
      the (negated) angle and rounded, then placed in the box. */
  function Destination(lay: Layout, i: int, j: int): int
  {
    var cx, cy := Half(lay.width), Half(lay.height);
    BufferIndex(lay, TurnedX(j - cx, i - cy, lay.u), TurnedY(j - cx, i - cy, lay.u))
  }

  /** Destination of the source cell with row-major index n. */
  function DestinationOf(lay: Layout, n: int): int
    requires lay.width > 0
  {
    Destination(lay, n / lay.width, n % lay.width)
  }

  /** Every opaque source cell is written inside the buffer.  The code does not check this;
      an index outside the buffer would be a write out of bounds. */
  predicate ScatterInBounds(src: seq<int>, lay: Layout)
  {
    lay.width > 0 ==>
      forall n :: 0 <= n < |src| && src[n] != 0 ==> 0 <= DestinationOf(lay, n) < Size(lay)
  }

  /** The buffer after the scatter loop has visited the first n source cells in row-major
      order: it starts all zero; each opaque cell overwrites its destination, a transparent
      one is skipped. */
  function Scatter(src: seq<int>, lay: Layout, n: int): (r: seq<int>)
    requires Fits(src, lay) && ScatterInBounds(src, lay) && 0 <= n <= |src|
    ensures |r| == Size(lay)
    decreases n
  {
    if n == 0 then
      MulLe(0, lay.box.w, lay.box.h);
      seq(Size(lay), _ => 0)
    else
      var prev := Scatter(src, lay, n - 1);
      if src[n - 1] != 0 then prev[DestinationOf(lay, n - 1) := src[n - 1]] else prev
  }

  /** The last of the first n source cells that is opaque and lands on buffer cell k, or -1
      when there is none. */
  function Writer(src: seq<int>, lay: Layout, n: int, k: int): (m: int)
    requires Fits(src, lay) && 0 <= n <= |src|
    ensures -1 <= m < n
    ensures m >= 0 ==> src[m] != 0 && DestinationOf(lay, m) == k
    ensures forall m' :: m < m' < n ==> !(src[m'] != 0 && DestinationOf(lay, m') == k)
    decreases n
  {
    if n == 0 then -1
    else if src[n - 1] != 0 && DestinationOf(lay, n - 1) == k then n - 1
    else Writer(src, lay, n - 1, k)
  }

  /** Last write wins: each buffer cell holds the value of the last opaque source cell that
      lands on it, unmodified, and 0 when none does. */
  lemma {:induction false} ScatterIsLastWrite(src: seq<int>, lay: Layout, n: int, k: int)
    requires Fits(src, lay) && ScatterInBounds(src, lay) && 0 <= n <= |src| && 0 <= k < Size(lay)
    ensures var m := Writer(src, lay, n, k);
      Scatter(src, lay, n)[k] == if m < 0 then 0 else src[m]
    decreases n
  {
    if n > 0 {
      ScatterIsLastWrite(src, lay, n - 1, k);
    }
  }

  /** Visiting source cell (i, j) (row-major cell i * width + j): an opaque cell overwrites
      its destination; a transparent one, or one whose destination falls outside the buffer,
      leaves the buffer as it was. */
  function Put(buf: seq<int>, src: seq<int>, lay: Layout, i: int, j: int): (r: seq<int>)
    requires Fits(src, lay) && 0 <= i < lay.height && 0 <= j < lay.width
    ensures |r| == |buf|
  {
    RowMajor(i, j, lay.width, lay.height);
    var v := src[i * lay.width + j];
    var d := Destination(lay, i, j);
    if v != 0 && 0 <= d < |buf| then buf[d := v] else buf
  }

  /** The buffer once the nested scan has visited every cell of rows 0 .. i - 1 and cells
      0 .. j - 1 of row i, starting from an all-zero buffer. */
  function ScanUpTo(src: seq<int>, lay: Layout, i: int, j: int): (r: seq<int>)
    requires Fits(src, lay) && 0 <= i <= lay.height && 0 <= j <= lay.width && (i < lay.height || j == 0)
    ensures |r| == Size(lay)
    decreases i, j
  {
    if j == 0 then
      if i == 0 then
        MulLe(0, lay.box.w, lay.box.h);
        seq(Size(lay), _ => 0)
      else ScanUpTo(src, lay, i - 1, lay.width)
    else Put(ScanUpTo(src, lay, i, j - 1), src, lay, i, j - 1)
  }

  /** The rotated map: the buffer after the whole scan. */
  function Rotated(src: seq<int>, lay: Layout): (r: seq<int>)
    requires Fits(src, lay)
    ensures |r| == Size(lay)
  {
    ScanUpTo(src, lay, lay.height, 0)
  }

  /** The nested scan up to (i, j) is the row-major scatter of the first n = i * width + j
      cells. */
  lemma {:induction false} ScanIsScatter(src: seq<int>, lay: Layout, i: int, j: int, n: int)
    requires Fits(src, lay) && ScatterInBounds(src, lay)
    requires 0 <= i <= lay.height && 0 <= j <= lay.width && (i < lay.height || j == 0)
    requires n == i * lay.width + j
    ensures 0 <= n <= |src|
    ensures ScanUpTo(src, lay, i, j) == Scatter(src, lay, n)
    decreases i, j
  {
    if j == 0 {
      if i == 0 {
        assert ScanUpTo(src, lay, 0, 0) == Scatter(src, lay, 0);
      } else {
        RowStart(src, lay, i);
        ScanIsScatter(src, lay, i - 1, lay.width, n);
      }
    } else {
      PutIsScatterStep(src, lay, i, j - 1);
      ScanIsScatter(src, lay, i, j - 1, n - 1);
    }
  }

  /** Row i of the nested scan starts where row i - 1 ended, at row-major cell i * width. */
  lemma RowStart(src: seq<int>, lay: Layout, i: int)
    requires Fits(src, lay) && 0 < i <= lay.height
    ensures ScanUpTo(src, lay, i, 0) == ScanUpTo(src, lay, i - 1, lay.width)
    ensures (i - 1) * lay.width + lay.width == i * lay.width <= |src|
  {
    MulLe(i, lay.height, lay.width);
    MulSucc(i - 1, lay.width);
  }

  /** Visiting cell (i, j) of the nested scan is the scatter step for row-major cell
      i * width + j. */
  lemma PutIsScatterStep(src: seq<int>, lay: Layout, i: int, j: int)
    requires Fits(src, lay) && ScatterInBounds(src, lay) && 0 <= i < lay.height && 0 <= j < lay.width
    ensures 0 <= i * lay.width + j < |src|
    ensures Put(Scatter(src, lay, i * lay.width + j), src, lay, i, j) == Scatter(src, lay, i * lay.width + j + 1)
  {
    var n := i * lay.width + j;
    RowMajor(i, j, lay.width, lay.height);
    assert DestinationOf(lay, n) == Destination(lay, i, j);
  }

  /** Last write wins for the whole scan: each cell of the rotated map holds the value of the
      last opaque source cell, in row-major order, that lands on it, unmodified, and 0 when
      none does. */
  lemma RotatedIsLastWrite(src: seq<int>, lay: Layout, k: int)
    requires Fits(src, lay) && ScatterInBounds(src, lay) && 0 <= k < Size(lay)
    ensures var m := Writer(src, lay, |src|, k);
      Rotated(src, lay)[k] == if m < 0 then 0 else src[m]
  {
    ScanIsScatter(src, lay, lay.height, 0, |src|);
    ScatterIsLastWrite(src, lay, |src|, k);
  }

  /** getRotatedAlphaMap: negate the angle, take the bounding box of the map at that angle,
      allocate the zero-filled buffer of that size and, row by row, write every opaque source
      cell to its rounded rotated position. */
  method RotatedAlphaMap(alphaMap: seq<int>, width: int, height: int, t: Turn) returns (result: array<int>)
    requires width >= 0 && height >= 0 && |alphaMap| == width * height
    requires ScatterInBounds(alphaMap, LayoutFor(width, height, t))
    ensures fresh(result) && result[..] == Rotated(alphaMap, LayoutFor(width, height, t))
  {
    var lay := LayoutFor(width, height, t);
    result := ScanInto(alphaMap, lay);
  }

  /** The allocation and the nested loop of getRotatedAlphaMap, for a given layout. */
  method ScanInto(alphaMap: seq<int>, lay: Layout) returns (result: array<int>)
    requires Fits(alphaMap, lay) && ScatterInBounds(alphaMap, lay)
    ensures fresh(result) && result[..] == Rotated(alphaMap, lay)
  {
    var width, height, u, box := lay.width, lay.height, lay.u, lay.box;
    var cx := Half(width);
    var cy := Half(height);
    MulLe(0, box.w, box.h);
    result := new int[box.w * box.h](_ => 0);
    for i := 0 to height
      invariant result[..] == ScanUpTo(alphaMap, lay, i, 0)
    {
      for j := 0 to width
        invariant result[..] == ScanUpTo(alphaMap, lay, i, j)
      {
        ghost var before := result[..];
        InBoundsAt(alphaMap, lay, i, j);
        if alphaMap[i * width + j] != 0 {
          var x := TurnedX(j - cx, i - cy, u);
          var y := TurnedY(j - cx, i - cy, u);
          var index := BufferIndex(lay, x, y);
          result[index] := alphaMap[i * width + j];
        }
        assert result[..] == Put(before, alphaMap, lay, i, j);
      }
    }
  }

  /** Source cell (i, j) is the row-major cell i * width + j, and when it is opaque its
      destination is inside the buffer. */
  lemma InBoundsAt(src: seq<int>, lay: Layout, i: int, j: int)
    requires Fits(src, lay) && ScatterInBounds(src, lay) && 0 <= i < lay.height && 0 <= j < lay.width
    ensures 0 <= i * lay.width + j < |src|
    ensures src[i * lay.width + j] != 0 ==> 0 <= Destination(lay, i, j) < Size(lay)
  {
    RowMajor(i, j, lay.width, lay.height);
  }

  /** The layout at angle 0, written out: the buffer is the source grown by one column and
      one row. */
  function ZeroLayout(width: int, height: int): Layout
  {
    Layout(width, height, Zero, Rect(0, 0, width + 1, height + 1))
  }

  lemma LayoutAtZero(width: int, height: int)
    requires width >= 0 && height >= 0
    ensures LayoutFor(width, height, Zero) == ZeroLayout(width, height)
  {
    NegateZero();
    BoundingBoxAtZero(Rect(0, 0, width, height));
  }

  /** At angle 0 source cell (i, j) lands at i * (width + 1) + j. */
  lemma DestinationAtZero(width: int, height: int, i: int, j: int)
    requires width >= 0 && height >= 0
    ensures Destination(ZeroLayout(width, height), i, j) == i * (width + 1) + j
  {
    TurnedAtZero(j - Half(width), i - Half(height));
  }

  /** At angle 0 every source cell is written inside the buffer, whatever the map holds. */
  lemma ScatterInBoundsAtZero(src: seq<int>, width: int, height: int)
    requires width >= 0 && height >= 0 && |src| == width * height
    ensures ScatterInBounds(src, ZeroLayout(width, height))
  {
    var lay := ZeroLayout(width, height);
    if width > 0 {
      forall n | 0 <= n < |src| && src[n] != 0
        ensures 0 <= DestinationOf(lay, n) < Size(lay)
      {
        Split(n, width, height);
        DestinationAtZero(width, height, n / width, n % width);
        RowMajor(n / width, n % width, width + 1, height + 1);
      }
    }
  }

  /** Cell k of a (width + 1)-wide buffer holding the source unrotated: source cell (i, j) at
      row i, column j, and 0 in the extra last column and last row. */
  function Unrotated(src: seq<int>, width: int, height: int, k: int): int
    requires width >= 0 && height >= 0 && |src| == width * height && 0 <= k
  {
    var row, col := k / (width + 1), k % (width + 1);
    if row < height && col < width then
      RowMajor(row, col, width, height);
      src[row * width + col]
    else 0
  }

  /** Cell (row, col) of the (width + 1) by (height + 1) unrotated buffer. */
  lemma UnrotatedAt(src: seq<int>, width: int, height: int, row: int, col: int)
    requires width >= 0 && height >= 0 && |src| == width * height
    requires 0 <= row <= height && 0 <= col <= width
    ensures 0 <= row * (width + 1) + col < (width + 1) * (height + 1)
    ensures row < height && col < width ==> 0 <= row * width + col < |src|
    ensures Unrotated(src, width, height, row * (width + 1) + col) ==
      if row < height && col < width then src[row * width + col] else 0
  {
    RowMajor(row, col, width + 1, height + 1);
    if row < height && col < width {
      RowMajor(row, col, width, height);
    }
  }

  /** At angle 0 the rotated map is the source with a zero column appended on the right and a
      zero row below. */
  lemma {:induction false} RotatedAtZero(src: seq<int>, width: int, height: int)
    requires width >= 0 && height >= 0 && |src| == width * height
    ensures ScatterInBounds(src, ZeroLayout(width, height))
    ensures var r := Rotated(src, ZeroLayout(width, height));
      && |r| == (width + 1) * (height + 1)
      && forall k :: 0 <= k < |r| ==> r[k] == Unrotated(src, width, height, k)
  {
    var lay := ZeroLayout(width, height);
    ScatterInBoundsAtZero(src, width, height);
    var r := Rotated(src, lay);
    forall k | 0 <= k < |r|
      ensures r[k] == Unrotated(src, width, height, k)
    {
      RotatedIsLastWrite(src, lay, k);
      var m := Writer(src, lay, |src|, k);
      var row, col := k / (width + 1), k % (width + 1);
      if m >= 0 {
        DestinationAtZero(width, height, m / width, m % width);
        Split(m, width, height);
        DivUnique(k, width + 1, m / width, m % width);
        assert m == row * width + col;
      } else if row < height && col < width {
        Split(k, width + 1, height + 1);
        RowMajor(row, col, width, height);
        var m0 := row * width + col;
        DestinationAtZero(width, height, row, col);
        assert DestinationOf(lay, m0) == k;
      }
    }
  }
}
