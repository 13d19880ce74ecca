/**
 * The value a matrix stands for: its dimensions and its cells in row-major
 * order, together with the operations of the library stated as functions on
 * such values, and what is proved about them.
 */
module MatSpec {
  import opened RowMajor

  /** A rows x cols matrix; cell (i, j), 0-based, is cells[i * cols + j]. */
  datatype Mat = Mat(rows: nat, cols: nat, cells: seq<real>) {

    predicate Wf() { |cells| == rows * cols }

    predicate Square() { rows == cols }

    /** The element in 0-based row i and column j. */
    function At(i: nat, j: nat): real
      requires Wf() && i < rows && j < cols
    {
      OffsetBounds(i, j, rows, cols);
      cells[Offset(i, j, cols)]
    }
  }

  /** Two well-formed matrices of the same shape that agree on every element are equal. */
  lemma Ext(a: Mat, b: Mat)
    requires a.Wf() && b.Wf() && a.rows == b.rows && a.cols == b.cols
    requires forall i: nat, j: nat :: i < a.rows && j < a.cols ==> a.At(i, j) == b.At(i, j)
    ensures a == b
  {
    forall k | 0 <= k < |a.cells| ensures a.cells[k] == b.cells[k] {
      Decompose(k, a.rows, a.cols);
      assert a.At(k / a.cols, k % a.cols) == b.At(k / a.cols, k % a.cols);
    }
  }

  // ---------------------------------------------------------------- construction

  /** The zero-filled r x c matrix. */
  function Zero(r: nat, c: nat): (z: Mat)
    ensures z.Wf() && z.rows == r && z.cols == c
    ensures forall k :: 0 <= k < |z.cells| ==> z.cells[k] == 0.0
  {
    Mat(r, c, seq(r * c, _ => 0.0))
  }

  lemma ZeroAt(r: nat, c: nat, i: nat, j: nat)
    requires i < r && j < c
    ensures Zero(r, c).At(i, j) == 0.0
  {
    OffsetBounds(i, j, r, c);
  }

  // ---------------------------------------------------------------- element update

  /** m with the element in 0-based (i, j) replaced by v. */
  function SetAt(m: Mat, i: nat, j: nat, v: real): Mat
    requires m.Wf() && i < m.rows && j < m.cols
  {
    Mat(m.rows, m.cols, seq(|m.cells|, k requires 0 <= k < |m.cells| =>
      if k == Offset(i, j, m.cols) then v else m.cells[k]))
  }

  /** After an update, (i, j) reads the new value and every other element is as before. */
  lemma SetAtGet(m: Mat, i: nat, j: nat, v: real)
    requires m.Wf() && i < m.rows && j < m.cols
    ensures SetAt(m, i, j, v).Wf() && SetAt(m, i, j, v).At(i, j) == v
    ensures forall r: nat, c: nat :: r < m.rows && c < m.cols && (r != i || c != j) ==>
              SetAt(m, i, j, v).At(r, c) == m.At(r, c)
  {
    OffsetBounds(i, j, m.rows, m.cols);
    forall r: nat, c: nat | r < m.rows && c < m.cols && (r != i || c != j)
      ensures SetAt(m, i, j, v).At(r, c) == m.At(r, c)
    {
      SetAtOther(m, i, j, v, r, c);
    }
  }

  lemma SetAtOther(m: Mat, i: nat, j: nat, v: real, r: nat, c: nat)
    requires m.Wf() && i < m.rows && j < m.cols && r < m.rows && c < m.cols && (r != i || c != j)
    ensures SetAt(m, i, j, v).At(r, c) == m.At(r, c)
  {
    OffsetBounds(r, c, m.rows, m.cols);
    OffsetBounds(i, j, m.rows, m.cols);
    if Offset(r, c, m.cols) == Offset(i, j, m.cols) {
      OffsetInjective(r, c, i, j, m.cols);
    }
  }

  /** A buffer write at the offset of (i, j) is the element update SetAt. */
  lemma WriteAt(m: Mat, i: nat, j: nat, v: real, after: seq<real>)
    requires m.Wf() && i < m.rows && j < m.cols
    requires 0 <= Offset(i, j, m.cols) < |m.cells| && after == m.cells[Offset(i, j, m.cols) := v]
    ensures Mat(m.rows, m.cols, after) == SetAt(m, i, j, v)
  {
  }

  /** Writing back the value already there changes nothing. */
  lemma SetAtSame(m: Mat, i: nat, j: nat)
    requires m.Wf() && i < m.rows && j < m.cols
    ensures SetAt(m, i, j, m.At(i, j)) == m
  {
    var s := SetAt(m, i, j, m.At(i, j));
    SetAtGet(m, i, j, m.At(i, j));
    Ext(s, m);
  }

  // ---------------------------------------------------------------- resizing

  /** m with n columns: the columns both shapes share are kept, new columns are zero. */
  function ResizeCols(m: Mat, n: nat): Mat
    requires m.Wf()
  {
    Mat(m.rows, n, seq(m.rows * n, k requires 0 <= k < m.rows * n =>
      Decompose(k, m.rows, n);
      if k % n < m.cols then m.At(k / n, k % n) else 0.0))
  }

  lemma ResizeColsAt(m: Mat, n: nat, i: nat, j: nat)
    requires m.Wf() && i < m.rows && j < n
    ensures ResizeCols(m, n).Wf()
    ensures ResizeCols(m, n).At(i, j) == if j < m.cols then m.At(i, j) else 0.0
  {
    OffsetBounds(i, j, m.rows, n);
    OffsetDivMod(i, j, n);
  }

  /** Widening and then narrowing back to the old column count restores the matrix. */
  lemma ResizeColsRoundTrip(m: Mat, n: nat)
    requires m.Wf() && m.cols <= n
    ensures ResizeCols(ResizeCols(m, n), m.cols) == m
  {
    var w := ResizeCols(m, n);
    var back := ResizeCols(w, m.cols);
    forall i: nat, j: nat | i < m.rows && j < m.cols ensures back.At(i, j) == m.At(i, j) {
      ResizeColsAt(w, m.cols, i, j);
      ResizeColsAt(m, n, i, j);
    }
    Ext(back, m);
  }

  /** m with n rows: the rows both shapes share are kept, new rows are zero. */
  function ResizeRows(m: Mat, n: nat): Mat
    requires m.Wf()
  {
    Mat(n, m.cols, seq(n * m.cols, k requires 0 <= k < n * m.cols =>
      Decompose(k, n, m.cols);
      if k / m.cols < m.rows then m.At(k / m.cols, k % m.cols) else 0.0))
  }

  lemma ResizeRowsAt(m: Mat, n: nat, i: nat, j: nat)
    requires m.Wf() && i < n && j < m.cols
    ensures ResizeRows(m, n).Wf()
    ensures ResizeRows(m, n).At(i, j) == if i < m.rows then m.At(i, j) else 0.0
  {
    OffsetBounds(i, j, n, m.cols);
    OffsetDivMod(i, j, m.cols);
  }

  /** Adding rows and then cutting back to the old row count restores the matrix. */
  lemma ResizeRowsRoundTrip(m: Mat, n: nat)
    requires m.Wf() && m.rows <= n
    ensures ResizeRows(ResizeRows(m, n), m.rows) == m
  {
    var w := ResizeRows(m, n);
    var back := ResizeRows(w, m.rows);
    forall i: nat, j: nat | i < m.rows && j < m.cols ensures back.At(i, j) == m.At(i, j) {
      ResizeRowsAt(w, m.rows, i, j);
      ResizeRowsAt(m, n, i, j);
    }
    Ext(back, m);
  }

  // ---------------------------------------------------------------- elementwise arithmetic

  predicate SameShape(a: Mat, b: Mat) { a.rows == b.rows && a.cols == b.cols }

  function Add(a: Mat, b: Mat): Mat
    requires a.Wf() && b.Wf() && SameShape(a, b)
  {
    Mat(a.rows, a.cols, seq(a.rows * a.cols, k requires 0 <= k < a.rows * a.cols => a.cells[k] + b.cells[k]))
  }

  function Sub(a: Mat, b: Mat): Mat
    requires a.Wf() && b.Wf() && SameShape(a, b)
  {
    Mat(a.rows, a.cols, seq(a.rows * a.cols, k requires 0 <= k < a.rows * a.cols => a.cells[k] - b.cells[k]))
  }

  function Scale(a: Mat, s: real): Mat
    requires a.Wf()
  {
    Mat(a.rows, a.cols, seq(a.rows * a.cols, k requires 0 <= k < a.rows * a.cols => a.cells[k] * s))
  }

  /** Element (i, j) of a sum, a difference and a multiple, in terms of the operands' elements. */
  lemma ElementwiseAt(a: Mat, b: Mat, s: real, i: nat, j: nat)
    requires a.Wf() && b.Wf() && SameShape(a, b) && i < a.rows && j < a.cols
    ensures Add(a, b).At(i, j) == a.At(i, j) + b.At(i, j)
    ensures Sub(a, b).At(i, j) == a.At(i, j) - b.At(i, j)
    ensures Scale(a, s).At(i, j) == a.At(i, j) * s
  {
    OffsetBounds(i, j, a.rows, a.cols);
  }

  /** Subtracting what was added gives back the original matrix. */
  lemma {:induction false} SubUndoesAdd(a: Mat, b: Mat)
    requires a.Wf() && b.Wf() && SameShape(a, b)
    ensures Sub(Add(a, b), b) == a
  {
    var r := Sub(Add(a, b), b);
    assert forall k | 0 <= k < |a.cells| :: r.cells[k] == a.cells[k];
  }

  lemma {:induction false} AddCommutes(a: Mat, b: Mat)
    requires a.Wf() && b.Wf() && SameShape(a, b)
    ensures Add(a, b) == Add(b, a)
  {
    assert forall k | 0 <= k < |a.cells| :: Add(a, b).cells[k] == Add(b, a).cells[k];
  }

  /** Scaling by a non-zero s is undone by scaling by 1/s. */
  lemma {:induction false} ScaleInverse(a: Mat, s: real)
    requires a.Wf() && s != 0.0
    ensures Scale(Scale(a, s), 1.0 / s) == a
  {
    var r := Scale(Scale(a, s), 1.0 / s);
    forall k | 0 <= k < |a.cells| ensures r.cells[k] == a.cells[k] {
      calc {
        r.cells[k];
        (a.cells[k] * s) * (1.0 / s);
        a.cells[k] * (s * (1.0 / s));
        a.cells[k];
      }
    }
  }

  // ---------------------------------------------------------------- matrix product

  /** The inner product of row i of a and column j of b over their first n terms. */
  function Dot(a: Mat, b: Mat, i: nat, j: nat, n: nat): real
    requires a.Wf() && b.Wf() && i < a.rows && j < b.cols && n <= a.cols && n <= b.rows
  {
    if n == 0 then 0.0 else Dot(a, b, i, j, n - 1) + a.At(i, n - 1) * b.At(n - 1, j)
  }

  function Product(a: Mat, b: Mat): Mat
    requires a.Wf() && b.Wf() && a.cols == b.rows
  {
    Mat(a.rows, b.cols, seq(a.rows * b.cols, k requires 0 <= k < a.rows * b.cols =>
      Decompose(k, a.rows, b.cols);
      Dot(a, b, k / b.cols, k % b.cols, a.cols)))
  }

  lemma ProductAt(a: Mat, b: Mat, i: nat, j: nat)
    requires a.Wf() && b.Wf() && a.cols == b.rows && i < a.rows && j < b.cols
    ensures Product(a, b).Wf() && Product(a, b).At(i, j) == Dot(a, b, i, j, a.cols)
  {
    OffsetBounds(i, j, a.rows, b.cols);
    OffsetDivMod(i, j, b.cols);
  }

  /** The n x n identity matrix. */
  function Identity(n: nat): Mat
  {
    Mat(n, n, seq(n * n, k requires 0 <= k < n * n => Decompose(k, n, n); if k / n == k % n then 1.0 else 0.0))
  }

  lemma IdentityAt(n: nat, i: nat, j: nat)
    requires i < n && j < n
    ensures Identity(n).Wf() && Identity(n).At(i, j) == if i == j then 1.0 else 0.0
  {
    OffsetBounds(i, j, n, n);
    OffsetDivMod(i, j, n);
  }

  lemma {:induction false} DotIdentityRight(a: Mat, i: nat, j: nat, n: nat)
    requires a.Wf() && i < a.rows && j < a.cols && n <= a.cols
    ensures Dot(a, Identity(a.cols), i, j, n) == if j < n then a.At(i, j) else 0.0
  {
    if n > 0 {
      DotIdentityRight(a, i, j, n - 1);
      IdentityAt(a.cols, n - 1, j);
    }
  }

  lemma {:induction false} DotIdentityLeft(b: Mat, i: nat, j: nat, n: nat)
    requires b.Wf() && i < b.rows && j < b.cols && n <= b.rows
    ensures Dot(Identity(b.rows), b, i, j, n) == if i < n then b.At(i, j) else 0.0
  {
    if n > 0 {
      DotIdentityLeft(b, i, j, n - 1);
      IdentityAt(b.rows, i, n - 1);
    }
  }

  /** The identity is a right and a left unit of the product. */
  lemma ProductIdentity(a: Mat)
    requires a.Wf()
    ensures Product(a, Identity(a.cols)) == a
    ensures Product(Identity(a.rows), a) == a
  {
    var r := Product(a, Identity(a.cols));
    forall i: nat, j: nat | i < a.rows && j < a.cols ensures r.At(i, j) == a.At(i, j) {
      ProductAt(a, Identity(a.cols), i, j);
      DotIdentityRight(a, i, j, a.cols);
    }
    Ext(r, a);
    var l := Product(Identity(a.rows), a);
    forall i: nat, j: nat | i < a.rows && j < a.cols ensures l.At(i, j) == a.At(i, j) {
      ProductAt(Identity(a.rows), a, i, j);
      DotIdentityLeft(a, i, j, a.rows);
    }
    Ext(l, a);
  }

  // ---------------------------------------------------------------- transpose

  function Transpose(m: Mat): Mat
    requires m.Wf()
  {
    Mat(m.cols, m.rows, seq(m.cols * m.rows, k requires 0 <= k < m.cols * m.rows =>
      Decompose(k, m.cols, m.rows);
      m.At(k % m.rows, k / m.rows)))
  }

  lemma TransposeAt(m: Mat, i: nat, j: nat)
    requires m.Wf() && i < m.rows && j < m.cols
    ensures Transpose(m).Wf() && Transpose(m).At(j, i) == m.At(i, j)
  {
    OffsetBounds(j, i, m.cols, m.rows);
    OffsetDivMod(j, i, m.rows);
  }

  /** Transposing twice gives back the original matrix. */
  lemma TransposeInvolutive(m: Mat)
    requires m.Wf()
    ensures Transpose(Transpose(m)) == m
  {
    var t := Transpose(m);
    var tt := Transpose(t);
    forall i: nat, j: nat | i < m.rows && j < m.cols ensures tt.At(i, j) == m.At(i, j) {
      TransposeAt(m, i, j);
      TransposeAt(t, j, i);
    }
    Ext(tt, m);
  }

  /** Two inner products agree when their terms agree pairwise. */
  lemma {:induction false} DotTermwise(a: Mat, b: Mat, i: nat, j: nat, p: Mat, q: Mat, i': nat, j': nat, n: nat)
    requires a.Wf() && b.Wf() && i < a.rows && j < b.cols && n <= a.cols && n <= b.rows
    requires p.Wf() && q.Wf() && i' < p.rows && j' < q.cols && n <= p.cols && n <= q.rows
    requires forall t: nat :: t < n ==> a.At(i, t) * b.At(t, j) == p.At(i', t) * q.At(t, j')
    ensures Dot(a, b, i, j, n) == Dot(p, q, i', j', n)
  {
    if n > 0 {
      DotTermwise(a, b, i, j, p, q, i', j', n - 1);
    }
  }

  lemma DotTranspose(a: Mat, b: Mat, i: nat, j: nat)
    requires a.Wf() && b.Wf() && a.cols == b.rows && i < a.rows && j < b.cols
    ensures Dot(Transpose(b), Transpose(a), j, i, a.cols) == Dot(a, b, i, j, a.cols)
  {
    var ta, tb := Transpose(a), Transpose(b);
    forall t: nat | t < a.cols ensures tb.At(j, t) * ta.At(t, i) == a.At(i, t) * b.At(t, j) {
      TransposeAt(a, i, t);
      TransposeAt(b, t, j);
    }
    DotTermwise(tb, ta, j, i, a, b, i, j, a.cols);
  }

  /** The transpose of a product is the product of the transposes in reverse order. */
  lemma TransposeProduct(a: Mat, b: Mat)
    requires a.Wf() && b.Wf() && a.cols == b.rows
    ensures Transpose(Product(a, b)) == Product(Transpose(b), Transpose(a))
  {
    var p := Product(a, b);
    var l := Transpose(p);
    var r := Product(Transpose(b), Transpose(a));
    forall j: nat, i: nat | j < b.cols && i < a.rows ensures l.At(j, i) == r.At(j, i) {
      ProductAt(a, b, i, j);
      TransposeAt(p, i, j);
      ProductAt(Transpose(b), Transpose(a), j, i);
      DotTranspose(a, b, i, j);
    }
    Ext(l, r);
  }

  // ---------------------------------------------------------------- minors

  /** The index of the original row (or column) behind index x once index i is deleted. */
  function Skip(x: nat, i: nat): nat { if x < i then x else x + 1 }

  /** m without row i and column j, everything else in its original order. */
  function Minor(m: Mat, i: nat, j: nat): (r: Mat)
    requires m.Wf() && i < m.rows && j < m.cols
    ensures r.Wf() && r.rows == m.rows - 1 && r.cols == m.cols - 1
  {
    var r1: nat, c1: nat := m.rows - 1, m.cols - 1;
    Mat(r1, c1, seq(r1 * c1, k requires 0 <= k < r1 * c1 =>
      Decompose(k, r1, c1);
      m.At(Skip(k / c1, i), Skip(k % c1, j))))
  }

  lemma MinorAt(m: Mat, i: nat, j: nat, r: nat, c: nat)
    requires m.Wf() && i < m.rows && j < m.cols && r < m.rows - 1 && c < m.cols - 1
    ensures Minor(m, i, j).Wf()
    ensures Minor(m, i, j).At(r, c) == m.At(Skip(r, i), Skip(c, j))
  {
    OffsetBounds(r, c, m.rows - 1, m.cols - 1);
    OffsetDivMod(r, c, m.cols - 1);
  }

  /** The sign of cofactor (i, j): +1 when i + j is even, -1 otherwise. */
  function Sign(i: nat, j: nat): real { if (i + j) % 2 == 0 then 1.0 else -1.0 }
}
