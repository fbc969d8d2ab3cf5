/** Non-linear arithmetic facts about row-major layouts, proved once and used by the rest of the model. */
module Arith {

  /** Multiplication by a non-negative factor is monotone. */
  lemma MulMonotone(a: int, b: int, c: int)
    requires a <= b && 0 <= c
    ensures a * c <= b * c
  {
  }

  /** The quotient and remainder of `q * d + r` by `d` are `q` and `r` when `0 <= r < d`. */
  lemma DivModOf(q: int, d: int, r: int)
    requires 0 < d && 0 <= r < d
    ensures (q * d + r) / d == q && (q * d + r) % d == r
  {
    var n := q * d + r;
    var q', r' := n / d, n % d;
    assert n == q' * d + r';
    if q' > q {
      MulMonotone(q + 1, q', d);
    } else if q' < q {
      MulMonotone(q', q - 1, d);
    }
  }

  /** An index lies in row `n` of width `d`, at a column below `len <= d`, exactly when it lies in `[n*d, n*d + len)`. */
  lemma InRowIff(idx: int, n: int, d: int, len: int)
    requires 0 < d && 0 <= len <= d && 0 <= idx
    ensures (idx / d == n && idx % d < len) <==> (n * d <= idx < n * d + len)
  {
    if n * d <= idx < n * d + len {
      DivModOf(n, d, idx - n * d);
    }
    if idx / d == n {
      assert idx == n * d + idx % d;
    }
  }

  /** Cell `(i, j)` of a `rows` x `cols` grid stored row by row lies inside the grid's `cols * rows` cells. */
  lemma CellInGrid(i: int, j: int, rows: int, cols: int)
    requires 0 <= i < rows && 0 <= j < cols
    ensures 0 <= i * cols && i * cols + j < cols * rows
  {
    MulMonotone(0, i, cols);
    MulMonotone(i + 1, rows, cols);
  }

  /** Skipping `k` rows of width `d` moves an offset by `k * d`. */
  lemma ShiftRows(i: int, k: int, d: int)
    ensures i * d == k * d + (i - k) * d
  {
  }

  /** Pixel `i * w + j` starts at byte `i * (4 * w) + 4 * j` in rows of `4 * w` bytes. */
  lemma PixelBytes(i: int, j: int, w: int)
    ensures 4 * (i * w + j) == i * (4 * w) + 4 * j
  {
  }

  /** `rows` rows of `4 * cols` bytes are `cols * rows * 4` bytes. */
  lemma FourBytesPerPixel(rows: int, cols: int)
    ensures rows * (4 * cols) == cols * rows * 4
  {
  }

  /**
    `y * width`, the offset of row `y` in rows of `width` bytes, by repeated addition. Stated
    this way the offsets of neighbouring rows differ by `width` without any multiplication.
  */
  function RowStart(y: nat, width: int): int {
    if y == 0 then 0 else RowStart(y - 1, width) + width
  }

  lemma {:induction false} RowStartIsProduct(y: nat, width: int)
    ensures RowStart(y, width) == y * width
  {
    if y > 0 {
      RowStartIsProduct(y - 1, width);
    }
  }

  /** A row before row `n` starts at a non-negative offset and ends by the time row `n` starts. */
  lemma RowStartBefore(y: nat, n: nat, width: int)
    requires y < n && 0 <= width
    ensures 0 <= RowStart(y, width) && RowStart(y, width) + width <= RowStart(n, width)
  {
    RowStartIsProduct(y, width);
    RowStartIsProduct(n, width);
    MulMonotone(0, y, width);
    MulMonotone(y + 1, n, width);
  }

  /** `InRowIff` with the row's offset written as `RowStart`. */
  lemma InRowStart(idx: int, n: nat, d: int, len: int)
    requires 0 < d && 0 <= len <= d && 0 <= idx
    ensures (idx / d == n && idx % d < len) <==> (RowStart(n, d) <= idx < RowStart(n, d) + len)
    ensures idx / d == n ==> idx % d == idx - RowStart(n, d)
  {
    RowStartIsProduct(n, d);
    InRowIff(idx, n, d, len);
  }
}
