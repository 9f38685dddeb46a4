/**
 * Integer facts about row-major grid indexing that the slicer's proofs use:
 * multiplication is monotone, and an index splits uniquely into a row
 * (index div cols) and a column (index mod cols).
 */
module GridArith {

  /** Multiplying by a non-negative factor keeps the order of two integers. */
  lemma {:induction false} MulMonotone(a: int, b: int, k: int)
    requires a <= b && k >= 0
    ensures a * k <= b * k
  {
    if k > 0 {
      MulMonotone(a, b, k - 1);
      assert a * k == a * (k - 1) + a;
      assert b * k == b * (k - 1) + b;
    }
  }

  /** The quotient and remainder of Euclidean division are the only ones. */
  lemma DivModUnique(n: int, d: int, q: int, m: int)
    requires d > 0 && 0 <= m < d && n == q * d + m
    ensures n / d == q && n % d == m
  {
    var q', m' := n / d, n % d;
    assert n == q' * d + m';
    if q < q' {
      MulMonotone(q + 1, q', d);
    } else if q' < q {
      MulMonotone(q' + 1, q, d);
    }
  }

  /** Cell (r, c) of a grid with cols columns sits at index r * cols + c. */
  lemma CellIndex(r: int, c: int, cols: int)
    requires r >= 0 && 0 <= c < cols
    ensures (r * cols + c) / cols == r && (r * cols + c) % cols == c
  {
    DivModUnique(r * cols + c, cols, r, c);
  }

  /** Every cell of a rows-by-cols grid has an index below rows * cols. */
  lemma CellIndexBound(r: int, c: int, rows: int, cols: int)
    requires 0 <= r < rows && 0 <= c < cols
    ensures 0 <= r * cols + c < rows * cols
  {
    MulMonotone(0, r, cols);
    MulMonotone(r + 1, rows, cols);
  }

  /** An index below rows * cols names a row below rows. */
  lemma RowBound(i: int, rows: int, cols: int)
    requires cols > 0 && 0 <= i < rows * cols
    ensures 0 <= i / cols < rows && 0 <= i % cols < cols
  {
    if i / cols >= rows {
      MulMonotone(rows, i / cols, cols);
    }
  }

  /** A smaller index lies on an earlier row, or on the same row further left. */
  lemma IndexOrder(i: int, j: int, cols: int)
    requires cols > 0 && 0 <= i < j
    ensures i / cols < j / cols || (i / cols == j / cols && i % cols < j % cols)
  {
    var ri, rj := i / cols, j / cols;
    if rj < ri {
      MulMonotone(rj + 1, ri, cols);
    }
  }

  /** Two different indices differ in their row or in their column. */
  lemma DistinctCells(i: int, j: int, cols: int)
    requires cols > 0 && 0 <= i && 0 <= j && i != j
    ensures i / cols != j / cols || i % cols != j % cols
  {
  }

  /** A natural number below n * s, for n >= 1, forces s to be positive. */
  lemma PositiveFactor(x: int, n: int, s: int)
    requires n >= 1 && s >= 0 && 0 <= x < n * s
    ensures s > 0
  {
  }

  /** x lies in the block of width d that starts at (x div d) * d. */
  lemma DivBounds(x: int, d: int)
    requires d > 0 && x >= 0
    ensures (x / d) * d <= x < (x / d) * d + d
  {
  }
}
