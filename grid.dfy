/** Row-major grid arithmetic shared by the opacity-map operations. */
module Grid {

  /** Multiplying both sides of an inequality by a non-negative factor. */
  lemma MulLe(a: int, b: int, c: int)
    requires a <= b && 0 <= c
    ensures a * c <= b * c
  {
  }

  lemma MulSucc(k: int, r: int)
    ensures (k + 1) * r == k * r + r
  {
  }

  /** Cell (row, col) of a grid `width` cells wide and `height` rows tall sits at
      row * width + col, inside the grid, and division recovers its coordinates. */
  lemma RowMajor(row: int, col: int, width: int, height: int)
    requires 0 <= row < height && 0 <= col < width
    ensures 0 <= row * width + col < width * height
    ensures (row * width + col) / width == row && (row * width + col) % width == col
  {
    MulLe(row + 1, height, width);
    MulLe(0, row, width);
    DivUnique(row * width + col, width, row, col);
  }

  /** Division by a positive width has a unique quotient and remainder. */
  lemma DivUnique(n: int, width: int, q: int, r: int)
    requires 0 <= r < width && n == q * width + r
    ensures n / width == q && n % width == r
  {
    var q', r' := n / width, n % width;
    if q' > q {
      MulLe(q + 1, q', width);
    } else if q' < q {
      MulLe(q' + 1, q, width);
    }
  }

  /** A flat index below width * height splits into a row below height and a column below width. */
  lemma Split(k: int, width: int, height: int)
    requires 0 <= k < width * height && 0 < width
    ensures 0 <= k / width < height && 0 <= k % width < width
    ensures k == (k / width) * width + k % width
  {
    if k / width >= height {
      MulLe(height, k / width, width);
    }
  }
}
