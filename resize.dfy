/** resizeBilinear: rescaling a row-major opacity map with 16.16 fixed-point bilinear weights. */
module Bilinear {
  import opened Grid

  /** 1.0 in 16.16 fixed point (1 << 16). */
  const One := 65536

  /** The divisor of the final `>> 32`: the product of two 16.16 weights carries 32 fraction bits. */
  const One2 := 4294967296

  /** `v & 0xff` on a two's-complement int: its low byte, which Euclidean `%` yields for
      negative values too. */
  function LowByte(v: int): (b: int)
    ensures 0 <= b < 256 && (v - b) % 256 == 0
  {
    v % 256
  }

  /** What the code needs of its source: a w by h map with at least two columns and two rows
      (so that the right and lower neighbours exist). */
  predicate ValidSource(pixels: seq<int>, w: int, h: int)
  {
    w >= 2 && h >= 2 && |pixels| == w * h
  }

  /** The fixed-point step through the source per target cell: ((n - 1) << 16) / n2. */
  function Ratio(n: int, n2: int): int
    requires n >= 1 && n2 > 0
  {
    (n - 1) * One / n2
  }

  /** The (dim - 1) ratio keeps the integer part of every sample coordinate at most n - 2,
      so that the +1 neighbour is still inside the source. */
  lemma {:induction false} SampleStaysInside(n: int, n2: int, k: int)
    requires n >= 2 && n2 > 0 && 0 <= k < n2
    ensures 0 <= k * Ratio(n, n2) && (k * Ratio(n, n2)) / One <= n - 2
  {
    var r := Ratio(n, n2);
    assert 0 <= r;
    MulLe(0, k, r);
    MulLe(k, n2 - 1, r);
    assert r * n2 <= (n - 1) * One by {
      assert (n - 1) * One == r * n2 + ((n - 1) * One) % n2;
    }
    assert k * r <= (n - 1) * One - 1;
  }

  /** The four reads index, index + 1, index + w and index + w + 1 of target cell (i, j)
      all fall inside the w * h source. */
  lemma {:induction false} NeighboursInBounds(w: int, h: int, w2: int, h2: int, i: int, j: int)
    requires w >= 2 && h >= 2 && w2 > 0 && h2 > 0 && 0 <= i < h2 && 0 <= j < w2
    ensures var index := (i * Ratio(h, h2)) / One * w + (j * Ratio(w, w2)) / One;
      0 <= index && index + w + 1 < w * h
  {
    SampleStaysInside(w, w2, j);
    SampleStaysInside(h, h2, i);
    var yr, xr := (i * Ratio(h, h2)) / One, (j * Ratio(w, w2)) / One;
    MulLe(0, yr, w);
    MulLe(yr, h - 2, w);
  }

  /** The bilinear blend of the four neighbours a (top-left), b (top-right), c (bottom-left)
      and d (bottom-right) at fractional offset (dx, dy), in fixed point, shifted down. */
  function Blend(a: int, b: int, c: int, d: int, dx: int, dy: int): int
  {
    (a * (One - dx) * (One - dy) + b * dx * (One - dy) + c * dy * (One - dx) + d * dx * dy) / One2
  }

  lemma ByteTimesWeight(v: int, weight: int)
    requires 0 <= v <= 255 && 0 <= weight
    ensures 0 <= v * weight <= 255 * weight
  {
    MulLe(v, 255, weight);
    MulLe(0, v, weight);
  }

  /** The four bilinear weights are non-negative and sum to 1.0 * 1.0 = 2^32. */
  lemma WeightsSum(dx: int, dy: int)
    requires 0 <= dx < One && 0 <= dy < One
    ensures 0 <= (One - dx) * (One - dy) && 0 <= dx * (One - dy) && 0 <= dy * (One - dx) && 0 <= dx * dy
    ensures (One - dx) * (One - dy) + dx * (One - dy) + dy * (One - dx) + dx * dy == One2
  {
    MulLe(0, One - dx, One - dy);
    MulLe(0, dx, One - dy);
    MulLe(0, dy, One - dx);
    MulLe(0, dx, dy);
    assert (One - dx) * (One - dy) + dx * (One - dy) == One * (One - dy);
    assert dy * (One - dx) + dx * dy == dy * One;
  }

  lemma Distrib4(a: int, p: int, q: int, r: int, s: int)
    ensures a * p + a * q + a * r + a * s == a * (p + q + r + s)
  {
  }

  lemma Assoc(a: int, p: int, q: int)
    ensures a * p * q == a * (p * q)
  {
  }

  /** The blend of bytes is a byte, and the blend of four equal bytes is that byte. */
  lemma {:induction false} BlendIsByte(a: int, b: int, c: int, d: int, dx: int, dy: int)
    requires 0 <= a < 256 && 0 <= b < 256 && 0 <= c < 256 && 0 <= d < 256
    requires 0 <= dx < One && 0 <= dy < One
    ensures 0 <= Blend(a, b, c, d, dx, dy) <= 255
    ensures a == b == c == d ==> Blend(a, b, c, d, dx, dy) == a
  {
    var w1, w2, w3, w4 := (One - dx) * (One - dy), dx * (One - dy), dy * (One - dx), dx * dy;
    WeightsSum(dx, dy);
    Assoc(a, One - dx, One - dy);
    Assoc(b, dx, One - dy);
    Assoc(c, dy, One - dx);
    Assoc(d, dx, dy);
    var sum := a * w1 + b * w2 + c * w3 + d * w4;
    assert Blend(a, b, c, d, dx, dy) == sum / One2;
    ByteTimesWeight(a, w1);
    ByteTimesWeight(b, w2);
    ByteTimesWeight(c, w3);
    ByteTimesWeight(d, w4);
    assert 0 <= sum <= 255 * One2;
    if a == b == c == d {
      Distrib4(a, w1, w2, w3, w4);
      DivUnique(sum, One2, a, 0);
    }
  }

  /** Target cell (i, j) of the w2 by h2 resample: the sample point is (j * x_ratio, i * y_ratio)
      in 16.16 fixed point; its integer part picks the top-left neighbour and its fraction the
      weights. */
  function BilinearAt(pixels: seq<int>, w: int, h: int, w2: int, h2: int, i: int, j: int): (alpha: int)
    requires ValidSource(pixels, w, h) && w2 > 0 && h2 > 0 && 0 <= i < h2 && 0 <= j < w2
    ensures 0 <= alpha <= 255
  {
    var x, y := j * Ratio(w, w2), i * Ratio(h, h2);
    var xr, yr := x / One, y / One;
    var xDiff, yDiff := x - xr * One, y - yr * One;
    var index := yr * w + xr;
    NeighboursInBounds(w, h, w2, h2, i, j);
    var a := LowByte(pixels[index]);
    var b := LowByte(pixels[index + 1]);
    var c := LowByte(pixels[index + w]);
    var d := LowByte(pixels[index + w + 1]);
    BlendIsByte(a, b, c, d, xDiff, yDiff);
    Blend(a, b, c, d, xDiff, yDiff)
  }

  /** The resampled map: w2 * h2 cells in row-major order, every one an opacity in 0..255. */
  function Resized(pixels: seq<int>, w: int, h: int, w2: int, h2: int): (r: seq<int>)
    requires ValidSource(pixels, w, h) && w2 > 0 && h2 > 0
    ensures |r| == w2 * h2
    ensures forall k :: 0 <= k < |r| ==> 0 <= r[k] <= 255
  {
    seq(w2 * h2, k requires 0 <= k < w2 * h2 =>
      Split(k, w2, h2);
      BilinearAt(pixels, w, h, w2, h2, k / w2, k % w2))
  }

  /** resizeBilinear: fills a fresh w2 * h2 buffer row by row, stepping the fixed-point sample
      coordinates x and y by the ratios and the output offset by one. */
  method ResizeBilinear(pixels: seq<int>, w: int, h: int, w2: int, h2: int) returns (temp: array<int>)
    requires ValidSource(pixels, w, h) && w2 > 0 && h2 > 0
    ensures fresh(temp) && temp[..] == Resized(pixels, w, h, w2, h2)
  {
    temp := new int[w2 * h2];
    var xRatio := Ratio(w, w2);
    var yRatio := Ratio(h, h2);
    var y := 0;
    var offset := 0;
    for i := 0 to h2
      invariant y == i * yRatio && offset == i * w2 && offset <= w2 * h2
      invariant forall k :: 0 <= k < offset ==> temp[k] == Resized(pixels, w, h, w2, h2)[k]
    {
      var yr := y / One;
      var yDiff := y - yr * One;
      var oneMinYDiff := One - yDiff;
      var yIndex := yr * w;
      var x := 0;
      MulLe(i + 1, h2, w2);
      for j := 0 to w2
        invariant x == j * xRatio && offset == i * w2 + j && offset <= (i + 1) * w2 <= w2 * h2
        invariant forall k :: 0 <= k < offset ==> temp[k] == Resized(pixels, w, h, w2, h2)[k]
      {
        var xr := x / One;
        var xDiff := x - xr * One;
        var oneMinXDiff := One - xDiff;
        var index := yIndex + xr;
        NeighboursInBounds(w, h, w2, h2, i, j);
        var a := LowByte(pixels[index]);
        var b := LowByte(pixels[index + 1]);
        var c := LowByte(pixels[index + w]);
        var d := LowByte(pixels[index + w + 1]);
        var alpha := (a * oneMinXDiff * oneMinYDiff + b * xDiff * oneMinYDiff +
                      c * yDiff * oneMinXDiff + d * xDiff * yDiff) / One2;
        assert alpha == BilinearAt(pixels, w, h, w2, h2, i, j);
        RowMajor(i, j, w2, h2);
        assert Resized(pixels, w, h, w2, h2)[offset] == alpha;
        temp[offset] := alpha;
        offset := offset + 1;
        MulSucc(j, xRatio);
        x := x + xRatio;
      }
      MulSucc(i, yRatio);
      MulSucc(i, w2);
      y := y + yRatio;
    }
  }

  /** A map of one constant opacity c resamples to that same constant everywhere. */
  lemma {:induction false} ResizedConstant(pixels: seq<int>, w: int, h: int, w2: int, h2: int, c: int)
    requires ValidSource(pixels, w, h) && w2 > 0 && h2 > 0 && 0 <= c <= 255
    requires forall k :: 0 <= k < |pixels| ==> pixels[k] == c
    ensures forall k :: 0 <= k < w2 * h2 ==> Resized(pixels, w, h, w2, h2)[k] == c
  {
    forall k | 0 <= k < w2 * h2
      ensures Resized(pixels, w, h, w2, h2)[k] == c
    {
      Split(k, w2, h2);
      var i, j := k / w2, k % w2;
      var x, y := j * Ratio(w, w2), i * Ratio(h, h2);
      var xr, yr := x / One, y / One;
      NeighboursInBounds(w, h, w2, h2, i, j);
      BlendIsByte(c, c, c, c, x - xr * One, y - yr * One);
    }
  }

  /** The first target cell samples the source exactly at its first cell: the fractions are 0. */
  lemma FirstCellIsCopied(pixels: seq<int>, w: int, h: int, w2: int, h2: int)
    requires ValidSource(pixels, w, h) && w2 > 0 && h2 > 0
    ensures Resized(pixels, w, h, w2, h2)[0] == LowByte(pixels[0])
  {
    DivUnique(0, w2, 0, 0);
    assert Resized(pixels, w, h, w2, h2)[0] == BilinearAt(pixels, w, h, w2, h2, 0, 0);
    OriginIsCopied(pixels, w, h, w2, h2);
  }

  /** Sampling at target cell (0, 0) reads source cell 0 with weight 1. */
  lemma OriginIsCopied(pixels: seq<int>, w: int, h: int, w2: int, h2: int)
    requires ValidSource(pixels, w, h) && w2 > 0 && h2 > 0
    ensures BilinearAt(pixels, w, h, w2, h2, 0, 0) == LowByte(pixels[0])
  {
    var a := LowByte(pixels[0]);
    assert 0 * Ratio(w, w2) == 0 && 0 * Ratio(h, h2) == 0;
    assert 0 / One == 0 && 0 - 0 * One == 0 && 0 * w + 0 == 0;
    assert Blend(a, LowByte(pixels[1]), LowByte(pixels[w]), LowByte(pixels[w + 1]), 0, 0) == a by {
      DivUnique(a * One * One, One2, a, 0);
    }
  }
}
