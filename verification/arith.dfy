/** Facts about row-major indexing that the solver does not find on its own. */
module Arith {

  lemma MulLe(a: nat, b: nat, d: nat)
    requires a <= b
    ensures a * d <= b * d
  {
    assert b * d == a * d + (b - a) * d;
  }

  /** A row-major offset of an in-range coordinate stays inside the array. */
  lemma IndexInBounds(row: nat, col: nat, rows: nat, cols: nat)
    requires row < rows && col < cols
    ensures row * cols + col < rows * cols
  {
    MulLe(row + 1, rows, cols);
  }

  /** An offset inside the array with an in-range column has an in-range row. */
  lemma RowInRange(row: nat, col: nat, rows: nat, cols: nat)
    requires col < cols && row * cols + col < rows * cols
    ensures row < rows
  {
    if rows <= row {
      MulLe(rows, row, cols);
    }
  }

  /** Quotient and remainder are unique. */
  lemma DivModOf(a: nat, d: nat, q: nat, r: nat)
    requires r < d && a == q * d + r
    ensures a / d == q && a % d == r
  {
    var q', r' := a / d, a % d;
    if q' < q {
      MulLe(q' + 1, q, d);
    } else if q < q' {
      MulLe(q + 1, q', d);
    }
  }

  /** Decoding an offset inside a rows×cols array gives an in-range row. */
  lemma QuotientInRange(i: nat, rows: nat, cols: nat)
    requires i < rows * cols
    ensures 0 < cols && i / cols < rows && i % cols < cols
  {
    if rows <= i / cols {
      MulLe(rows, i / cols, cols);
    }
  }

  /** Within four consecutive numbers from `j`, only `j` has `j`'s remainder modulo 4. */
  lemma ModStep(d: nat, j: nat, offset: nat)
    requires j % 4 == offset && j <= d < j + 4
    ensures d % 4 == offset <==> d == j
  {
  }

}
