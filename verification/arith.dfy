/** Facts about row-major index arithmetic that the solver does not find on its own. */
module Arith {

  /** Multiplying by a non-negative factor preserves order. */
  lemma MulMonotone(a: int, b: int, m: nat)
    requires a <= b
    ensures a * m <= b * m
  {
    assert b * m - a * m == (b - a) * m;
  }

  /** A row-major position (row, col) in a rows-by-cols grid lies in [0, rows * cols). */
  lemma RowMajorBound(row: int, col: int, rows: int, cols: int)
    requires 0 <= row < rows && 0 <= col < cols
    ensures 0 <= row * cols + col < rows * cols
  {
    MulMonotone(0, row, cols);
    MulMonotone(row + 1, rows, cols);
    assert (row + 1) * cols == row * cols + cols;
  }

  /** A quotient-remainder decomposition with remainder in [0, m) is unique. */
  lemma DecompositionUnique(q1: int, r1: int, q2: int, r2: int, m: int)
    requires 0 <= r1 < m && 0 <= r2 < m
    requires q1 * m + r1 == q2 * m + r2
    ensures q1 == q2 && r1 == r2
  {
    if q1 != q2 {
      var d := if q1 < q2 then q2 - q1 else q1 - q2;
      assert d * m == if q1 < q2 then r1 - r2 else r2 - r1;
      MulMonotone(1, d, m);
      assert false;
    }
  }

  /** Dafny's quotient and remainder by a positive m are that decomposition. */
  lemma DivModOf(k: int, q: int, r: int, m: int)
    requires 0 <= r < m
    requires k == q * m + r
    ensures k / m == q && k % m == r
  {
    assert k == (k / m) * m + k % m;
    DecompositionUnique(k / m, k % m, q, r, m);
  }

  /** Splitting k in [0, q * m) by m gives a quotient below q and a remainder below m. */
  lemma Split(k: int, q: nat, m: int)
    requires 0 <= k < q * m
    ensures m > 0
    ensures 0 <= k / m < q && 0 <= k % m < m
    ensures k == (k / m) * m + k % m
  {
    if m <= 0 {
      MulMonotone(m, 0, q);
    }
    assert k == (k / m) * m + k % m;
    if k / m >= q {
      MulMonotone(q, k / m, m);
    }
  }

  /** Scaling by a positive real preserves and reflects order. */
  lemma ScaleOrder(a: real, b: real, k: real)
    requires k > 0.0
    ensures a <= b <==> a * k <= b * k
    ensures a < b <==> a * k < b * k
  {
    assert b * k - a * k == (b - a) * k;
  }

  /** Comparing a quotient by a positive k with c is comparing the dividend with c * k. */
  lemma QuotientOrder(x: real, k: real, c: real)
    requires k > 0.0
    ensures x / k <= c <==> x <= c * k
    ensures x / k < c <==> x < c * k
    ensures c <= x / k <==> c * k <= x
    ensures c < x / k <==> c * k < x
  {
    var q := x / k;
    assert q * k == x;
    ScaleOrder(q, c, k);
    ScaleOrder(c, q, k);
  }
}
