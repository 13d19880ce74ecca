/**
 * Row-major offsets: the cell in 0-based row r and column c of a matrix with
 * n columns sits at r * n + c of the flat buffer.
 *
 * Offset is written as repeated addition rather than as a product so that the
 * verifier unfolds it only on demand; OffsetIsProduct gives the closed form.
 */
module RowMajor {

  function Offset(r: nat, c: int, n: int): int
  {
    if r == 0 then c else Offset(r - 1, c, n) + n
  }

  lemma {:induction false} OffsetIsProduct(r: nat, c: int, n: int)
    ensures Offset(r, c, n) == r * n + c
  {
    if r > 0 {
      OffsetIsProduct(r - 1, c, n);
    }
  }

  lemma MulMono(x: int, y: int, n: int)
    requires x <= y && 0 <= n
    ensures x * n <= y * n
  {
    assert y * n - x * n == (y - x) * n;
  }

  /** An in-range (row, column) pair lands inside the buffer. */
  lemma OffsetBounds(r: nat, c: int, rows: int, cols: int)
    requires r < rows && 0 <= c < cols
    ensures 0 <= Offset(r, c, cols) < rows * cols
  {
    OffsetIsProduct(r, c, cols);
    MulMono(0, r, cols);
    MulMono(r + 1, rows, cols);
  }

  /** Division and remainder by the column count recover the row and the column. */
  lemma OffsetDivMod(r: nat, c: int, n: int)
    requires 0 <= c < n
    ensures Offset(r, c, n) / n == r && Offset(r, c, n) % n == c
  {
    OffsetIsProduct(r, c, n);
    var k := Offset(r, c, n);
    var q, m := k / n, k % n;
    assert q * n + m == r * n + c;
    assert (r - q) * n == m - c;
    if r - q >= 1 { MulMono(1, r - q, n); }
    else if r - q <= -1 { MulMono(r - q, -1, n); }
  }

  /** Every position of a rows x cols buffer is the offset of exactly one in-range pair. */
  lemma Decompose(k: int, rows: int, cols: int)
    requires 0 <= k < rows * cols && 0 <= rows && 0 <= cols
    ensures 0 < cols && 0 <= k / cols < rows && 0 <= k % cols < cols
    ensures Offset(k / cols, k % cols, cols) == k
  {
    if k / cols >= rows { MulMono(rows, k / cols, cols); }
    OffsetIsProduct(k / cols, k % cols, cols);
  }

  lemma OffsetInjective(r1: nat, c1: int, r2: nat, c2: int, n: int)
    requires 0 <= c1 < n && 0 <= c2 < n
    requires Offset(r1, c1, n) == Offset(r2, c2, n)
    ensures r1 == r2 && c1 == c2
  {
    OffsetDivMod(r1, c1, n);
    OffsetDivMod(r2, c2, n);
  }

  /** The first cell of the next row follows the last cell of this one. */
  lemma OffsetNextRow(r: nat, n: int)
    ensures Offset(r, n, n) == Offset(r + 1, 0, n)
  {
    OffsetIsProduct(r, n, n);
    OffsetIsProduct(r + 1, 0, n);
  }

  /** The next column's offset is one further on. */
  lemma OffsetSucc(r: nat, c: int, n: int)
    ensures Offset(r, c + 1, n) == Offset(r, c, n) + 1
  {
    OffsetIsProduct(r, c, n);
    OffsetIsProduct(r, c + 1, n);
  }

  /** The offsets written so far by a row-major sweep never pass the end of the buffer. */
  lemma OffsetPrefix(r: nat, c: int, rows: int, cols: int)
    requires 0 <= cols && ((r < rows && 0 <= c <= cols) || (r == rows && c == 0))
    ensures 0 <= Offset(r, c, cols) <= rows * cols
  {
    OffsetIsProduct(r, c, cols);
    MulMono(0, r, cols);
    if r < rows { MulMono(r + 1, rows, cols); }
  }

  /** One cell of a row-major sweep: in range, and the next offset follows it. */
  lemma SweepStep(r: nat, c: int, rows: int, cols: int)
    requires r < rows && 0 <= c < cols
    ensures 0 <= Offset(r, c, cols) < rows * cols
    ensures Offset(r, c + 1, cols) == Offset(r, c, cols) + 1 <= rows * cols
  {
    OffsetBounds(r, c, rows, cols);
    OffsetSucc(r, c, cols);
  }

  /** The end of a row of the sweep is the start of the next. */
  lemma SweepNextRow(r: nat, rows: int, cols: int)
    requires r < rows && 0 <= cols
    ensures Offset(r, cols, cols) == Offset(r + 1, 0, cols) <= rows * cols
  {
    OffsetNextRow(r, cols);
    OffsetPrefix(r + 1, 0, rows, cols);
  }

  /** A finished sweep has covered the whole buffer. */
  lemma SweepDone(rows: nat, cols: int)
    ensures Offset(rows, 0, cols) == rows * cols
  {
    OffsetIsProduct(rows, 0, cols);
  }
}
