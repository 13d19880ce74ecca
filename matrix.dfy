/**
 * The S21Matrix class: a dense matrix of reals kept as one row-major buffer
 * together with its row and column counts, and the operations that read or
 * rewrite that buffer.
 *
 * Indices taken from callers are 1-based, as in the library; the buffer
 * offset of 1-based (row, col) is Offset(row - 1, col - 1, cols), that is
 * cols * (row - 1) + col - 1. Every method is specified against the value
 * Model() of the matrix, a MatSpec.Mat.
 */
module Matrix {
  import opened RowMajor
  import opened MatSpec
  import opened DetSpec
  import opened Errors

  class S21Matrix {
    /** The row-major buffer; null only once the matrix is destroyed or moved from. */
    var data: array?<real>
    var rows: nat
    var cols: nat

    ghost predicate Valid()
      reads this
    {
      (data == null ==> rows == 0 && cols == 0) &&
      (data != null ==> data.Length == rows * cols)
    }

    ghost function Cells(): seq<real>
      reads this, data
    {
      if data == null then [] else data[..]
    }

    /** The matrix value this object holds. */
    ghost function Model(): (m: Mat)
      reads this, data
      requires Valid()
      ensures m.Wf() && m.rows == rows && m.cols == cols
    {
      Mat(rows, cols, Cells())
    }

    // ------------------------------------------------------------ construction and teardown

    /** The default matrix: 3 x 3, value-initialised to zeros. */
    constructor ()
      ensures Valid() && data != null && fresh(data)
      ensures Model() == Zero(3, 3)
    {
      rows, cols := 3, 3;
      data := new real[9](_ => 0.0);
    }

    /** An r x c matrix whose buffer is cleared by nested row and column loops. */
    constructor Zeros(r: nat, c: nat)
      ensures Valid() && data != null && fresh(data)
      ensures Model() == Zero(r, c)
    {
      rows, cols := r, c;
      var buf := new real[r * c];
      for i := 0 to r
        invariant Offset(i, 0, c) <= r * c
        invariant forall k :: 0 <= k < Offset(i, 0, c) ==> buf[k] == 0.0
      {
        for j := 0 to c
          invariant Offset(i, j, c) <= r * c
          invariant forall k :: 0 <= k < Offset(i, j, c) ==> buf[k] == 0.0
        {
          SweepStep(i, j, r, c);
          buf[Offset(i, j, c)] := 0.0;
        }
        SweepNextRow(i, r, c);
      }
      SweepDone(r, c);
      assert buf[..] == Zero(r, c).cells;
      data := buf;
    }

    /**
     * The dimensioned constructor: dimensions below 1 are refused with
     * IndexOutOfBounds, otherwise the result is the zero matrix of that shape.
     */
    static method Create(r: int, c: int) returns (res: Result<S21Matrix>)
      ensures r < 1 || c < 1 <==> res.Err?
      ensures res.Err? ==> res.error == IndexOutOfBounds
      ensures res.Ok? ==> fresh(res.value) && fresh(res.value.data) && res.value.data != null &&
                          res.value.Valid() && res.value.Model() == Zero(r, c)
    {
      if r < 1 || c < 1 {
        return Err(IndexOutOfBounds);
      }
      var m := new S21Matrix.Zeros(r, c);
      return Ok(m);
    }

    /** A deep copy: the same shape and elements in a buffer of its own. */
    constructor Copy(other: S21Matrix)
      requires other.Valid()
      ensures Valid() && data != null && fresh(data)
      ensures Model() == other.Model()
    {
      rows, cols := other.rows, other.cols;
      var buf := CopyBuffer(other);
      data := buf;
    }

    /** The buffer copy shared by the copy and move constructors and by assignment. */
    static method CopyBuffer(other: S21Matrix) returns (buf: array<real>)
      requires other.Valid()
      ensures fresh(buf) && buf.Length == other.rows * other.cols && buf[..] == other.Cells()
    {
      buf := new real[other.rows * other.cols](_ => 0.0);
      var n := other.rows * other.cols;
      for k := 0 to n
        invariant forall k' :: 0 <= k' < k ==> buf[k'] == other.data[k']
      {
        buf[k] := other.data[k];
      }
    }

    /** The move constructor: copies the source, then destroys it. */
    constructor Move(other: S21Matrix)
      requires other.Valid()
      modifies other
      ensures Valid() && data != null && fresh(data)
      ensures Model() == old(other.Model())
      ensures other.Valid() && other.data == null && other.rows == 0 && other.cols == 0
    {
      rows, cols := other.rows, other.cols;
      var buf := CopyBuffer(other);
      data := buf;
      new;
      other.Destroy();
    }

    /** The destructor: releases the buffer and leaves an empty 0 x 0 matrix; harmless when repeated. */
    method Destroy()
      modifies this
      ensures Valid() && data == null && rows == 0 && cols == 0
      ensures Model() == Mat(0, 0, [])
    {
      data := null;
      rows, cols := 0, 0;
    }

    // ------------------------------------------------------------ access

    method GetRows() returns (r: nat)
      requires Valid()
      ensures r == Model().rows
    {
      return rows;
    }

    method GetCols() returns (c: nat)
      requires Valid()
      ensures c == Model().cols
    {
      return cols;
    }

    /** The 1-based element (row, col), or IndexOutOfBounds outside 1..rows x 1..cols. */
    method GetElement(row: int, col: int) returns (res: Result<real>)
      requires Valid()
      ensures 1 <= row <= rows && 1 <= col <= cols <==> res.Ok?
      ensures res.Ok? ==> res.value == Model().At(row - 1, col - 1)
      ensures res.Err? ==> res.error == IndexOutOfBounds
    {
      if row < 1 || col < 1 || row > rows || col > cols {
        return Err(IndexOutOfBounds);
      }
      OffsetBounds(row - 1, col - 1, rows, cols);
      return Ok(data[Offset(row - 1, col - 1, cols)]);
    }

    /** Writes v at the 1-based (row, col); an index outside the matrix is refused and writes nothing. */
    method MutateElement(row: int, col: int, v: real) returns (o: Outcome)
      requires Valid()
      modifies data
      ensures Valid() && data == old(data)
      ensures 1 <= row <= rows && 1 <= col <= cols <==> o.Done?
      ensures o.Done? ==> Model() == SetAt(old(Model()), row - 1, col - 1, v)
      ensures o.Failed? ==> o.error == IndexOutOfBounds && Model() == old(Model())
    {
      if row < 1 || col < 1 || row > rows || col > cols {
        return Failed(IndexOutOfBounds);
      }
      OffsetBounds(row - 1, col - 1, rows, cols);
      data[Offset(row - 1, col - 1, cols)] := v;
      return Done;
    }

    // ------------------------------------------------------------ resizing

    /**
     * Changes the column count to n: a fresh rows x n buffer receives the
     * columns both shapes share, new columns are zero. A count below 1 is
     * refused with IndexOutOfBounds and changes nothing.
     */
    method MutateCols(n: int) returns (o: Outcome)
      requires Valid()
      modifies this
      ensures Valid()
      ensures n >= 1 <==> o.Done?
      ensures o.Done? ==> fresh(data) && Model() == ResizeCols(old(Model()), n)
      ensures o.Failed? ==> o.error == IndexOutOfBounds && data == old(data) && Model() == old(Model())
    {
      if n < 1 {
        return Failed(IndexOutOfBounds);
      }
      ghost var m := Model();
      var buf := new real[rows * n];
      for row := 0 to rows
        modifies buf
        invariant Offset(row, 0, n) <= rows * n
        invariant forall k :: 0 <= k < Offset(row, 0, n) ==> buf[k] == ResizeCols(m, n).cells[k]
      {
        for col := 0 to n
          modifies buf
          invariant Offset(row, col, n) <= rows * n
          invariant forall k :: 0 <= k < Offset(row, col, n) ==> buf[k] == ResizeCols(m, n).cells[k]
        {
          OffsetBounds(row, col, rows, n);
          ResizeColsAt(m, n, row, col);
          if col < cols {
            OffsetBounds(row, col, rows, cols);
            buf[Offset(row, col, n)] := data[Offset(row, col, cols)];
          } else {
            buf[Offset(row, col, n)] := 0.0;
          }
          OffsetSucc(row, col, n);
          OffsetPrefix(row, col + 1, rows, n);
        }
        OffsetNextRow(row, n);
        OffsetPrefix(row + 1, 0, rows, n);
      }
      OffsetPrefix(rows, 0, rows, n);
      OffsetIsProduct(rows, 0, n);
      data := buf;
      cols := n;
      return Done;
    }

    /**
     * Changes the row count to n: a fresh n x cols buffer receives the rows
     * both shapes share, new rows are zero. A count below 1 is refused with
     * IndexOutOfBounds and changes nothing.
     */
    method MutateRows(n: int) returns (o: Outcome)
      requires Valid()
      modifies this
      ensures Valid()
      ensures n >= 1 <==> o.Done?
      ensures o.Done? ==> fresh(data) && Model() == ResizeRows(old(Model()), n)
      ensures o.Failed? ==> o.error == IndexOutOfBounds && data == old(data) && Model() == old(Model())
    {
      if n < 1 {
        return Failed(IndexOutOfBounds);
      }
      ghost var m := Model();
      var buf := new real[n * cols];
      for row := 0 to n
        modifies buf
        invariant Offset(row, 0, cols) <= n * cols
        invariant forall k :: 0 <= k < Offset(row, 0, cols) ==> buf[k] == ResizeRows(m, n).cells[k]
      {
        for col := 0 to cols
          modifies buf
          invariant Offset(row, col, cols) <= n * cols
          invariant forall k :: 0 <= k < Offset(row, col, cols) ==> buf[k] == ResizeRows(m, n).cells[k]
        {
          OffsetBounds(row, col, n, cols);
          ResizeRowsAt(m, n, row, col);
          if row < rows {
            OffsetBounds(row, col, rows, cols);
            buf[Offset(row, col, cols)] := data[Offset(row, col, cols)];
          } else {
            buf[Offset(row, col, cols)] := 0.0;
          }
          OffsetSucc(row, col, cols);
          OffsetPrefix(row, col + 1, n, cols);
        }
        OffsetNextRow(row, cols);
        OffsetPrefix(row + 1, 0, n, cols);
      }
      OffsetPrefix(n, 0, n, cols);
      OffsetIsProduct(n, 0, cols);
      data := buf;
      rows := n;
      return Done;
    }

    // ------------------------------------------------------------ arithmetic

    /** Exact equality: the same shape and, element by element, the same values. */
    method EqMatrix(other: S21Matrix) returns (eq: bool)
      requires Valid() && other.Valid()
      ensures eq <==> Model() == other.Model()
    {
      var status := true;
      if rows != other.rows || cols != other.cols {
        status := false;
      } else {
        var n := rows * cols;
        for k := 0 to n
          invariant status <==> forall k' :: 0 <= k' < k ==> data[k'] == other.data[k']
        {
          if data[k] != other.data[k] {
            status := false;
          }
        }
        assert status <==> Cells() == other.Cells();
      }
      return status;
    }

    /** Adds other element by element; a different shape is refused with DimensionMismatch before any write. */
    method SumMatrix(other: S21Matrix) returns (o: Outcome)
      requires Valid() && other.Valid()
      modifies data
      ensures Valid() && data == old(data)
      ensures SameShape(old(Model()), old(other.Model())) <==> o.Done?
      ensures o.Done? ==> Model() == Add(old(Model()), old(other.Model()))
      ensures o.Failed? ==> o.error == DimensionMismatch && Model() == old(Model())
    {
      if rows != other.rows || cols != other.cols {
        return Failed(DimensionMismatch);
      }
      ghost var a, b := Model(), other.Model();
      var n := rows * cols;
      for k := 0 to n
        invariant forall k' :: 0 <= k' < k ==> data[k'] == a.cells[k'] + b.cells[k']
        invariant forall k' :: k <= k' < n ==> data[k'] == a.cells[k'] && other.data[k'] == b.cells[k']
      {
        data[k] := data[k] + other.data[k];
      }
      assert Cells() == Add(a, b).cells;
      return Done;
    }

    /** Subtracts other element by element; a different shape is refused with DimensionMismatch before any write. */
    method SubMatrix(other: S21Matrix) returns (o: Outcome)
      requires Valid() && other.Valid()
      modifies data
      ensures Valid() && data == old(data)
      ensures SameShape(old(Model()), old(other.Model())) <==> o.Done?
      ensures o.Done? ==> Model() == Sub(old(Model()), old(other.Model()))
      ensures o.Failed? ==> o.error == DimensionMismatch && Model() == old(Model())
    {
      if rows != other.rows || cols != other.cols {
        return Failed(DimensionMismatch);
      }
      ghost var a, b := Model(), other.Model();
      var n := rows * cols;
      for k := 0 to n
        invariant forall k' :: 0 <= k' < k ==> data[k'] == a.cells[k'] - b.cells[k']
        invariant forall k' :: k <= k' < n ==> data[k'] == a.cells[k'] && other.data[k'] == b.cells[k']
      {
        data[k] := data[k] - other.data[k];
      }
      assert Cells() == Sub(a, b).cells;
      return Done;
    }

    /** Multiplies every element by num in place. */
    method MulNumber(num: real)
      requires Valid()
      modifies data
      ensures Valid() && data == old(data)
      ensures Model() == Scale(old(Model()), num)
    {
      ghost var a := Model();
      var n := rows * cols;
      for k := 0 to n
        invariant forall k' :: 0 <= k' < k ==> data[k'] == Scale(a, num).cells[k']
        invariant forall k' :: k <= k' < n ==> data[k'] == a.cells[k']
      {
        data[k] := data[k] * num;
      }
      assert Cells() == Scale(a, num).cells;
    }

    /**
     * Replaces this matrix by the product with other, computed into a fresh
     * rows x other.cols buffer; a column count different from other's row
     * count is refused with ColumnRowMismatch and changes nothing.
     */
    method MulMatrix(other: S21Matrix) returns (o: Outcome)
      requires Valid() && other.Valid()
      modifies this
      ensures Valid()
      ensures old(cols) == old(other.rows) <==> o.Done?
      ensures o.Done? ==> fresh(data) && Model() == Product(old(Model()), old(other.Model()))
      ensures o.Failed? ==> o.error == ColumnRowMismatch && data == old(data) && Model() == old(Model())
    {
      if cols != other.rows {
        return Failed(ColumnRowMismatch);
      }
      var buf := ProductBuffer(this, other);
      var n := other.cols;
      data := buf;
      cols := n;
      return Done;
    }


    // ------------------------------------------------------------ structure

    /**
     * A fresh cols x rows matrix whose element (c, r) is this matrix's (r, c).
     * The result is built by the dimensioned constructor, so a matrix with no
     * rows or no columns is refused with IndexOutOfBounds.
     */
    method Transpose() returns (res: Result<S21Matrix>)
      requires Valid()
      ensures rows < 1 || cols < 1 <==> res.Err?
      ensures res.Err? ==> res.error == IndexOutOfBounds
      ensures res.Ok? ==> fresh(res.value) && fresh(res.value.data) && res.value.Valid() &&
                          res.value.Model() == MatSpec.Transpose(Model())
    {
      var created := Create(cols, rows);
      if created.Err? {
        return Err(created.error);
      }
      var result := created.value;
      ghost var m := Model();
      for row := 1 to rows + 1
        invariant result.Valid() && result.data != null && fresh(result.data)
        invariant result.rows == cols && result.cols == rows
        invariant forall r: nat, c: nat :: r < row - 1 && c < cols ==> result.Model().At(c, r) == m.At(r, c)
      {
        var i: nat := row - 1;
        for col := 1 to cols + 1
          invariant result.Valid() && result.data != null && fresh(result.data)
          invariant result.rows == cols && result.cols == rows
          invariant forall r: nat, c: nat :: r < i && c < cols ==> result.Model().At(c, r) == m.At(r, c)
          invariant forall c: nat :: c < col - 1 ==> result.Model().At(c, i) == m.At(i, c)
        {
          var e := GetElement(row, col);
          var j: nat := col - 1;
          ghost var before := result.Model();
          OffsetBounds(j, i, cols, rows);
          result.data[Offset(j, i, rows)] := e.value;
          WriteAt(before, j, i, e.value, result.data[..]);
          SetAtGet(before, j, i, e.value);
        }
      }
      forall c: nat, r: nat | c < cols && r < rows ensures result.Model().At(c, r) == MatSpec.Transpose(m).At(c, r) {
        TransposeAt(m, r, c);
      }
      Ext(result.Model(), MatSpec.Transpose(m));
      return Ok(result);
    }

    /** The 1-based row and column loops of MulMatrix filling a fresh product buffer. */
    static method ProductBuffer(m1: S21Matrix, m2: S21Matrix) returns (buf: array<real>)
      requires m1.Valid() && m2.Valid() && m1.cols == m2.rows
      ensures fresh(buf) && buf[..] == Product(m1.Model(), m2.Model()).cells
    {
      ghost var a, b := m1.Model(), m2.Model();
      var n := m2.cols;
      buf := new real[m1.rows * n];
      for row := 1 to m1.rows + 1
        invariant Offset(row - 1, 0, n) <= m1.rows * n
        invariant forall k :: 0 <= k < Offset(row - 1, 0, n) ==> buf[k] == Product(a, b).cells[k]
      {
        for col := 1 to n + 1
          invariant Offset(row - 1, col - 1, n) <= m1.rows * n
          invariant forall k :: 0 <= k < Offset(row - 1, col - 1, n) ==> buf[k] == Product(a, b).cells[k]
        {
          var e := CalculateMulElement(m1, m2, row, col);
          var i: nat, j: nat := row - 1, col - 1;
          SweepStep(i, j, m1.rows, n);
          ProductAt(a, b, i, j);
          buf[Offset(i, j, n)] := e.value;
        }
        SweepNextRow(row - 1, m1.rows, n);
      }
      SweepDone(m1.rows, n);
    }

    // ------------------------------------------------------------ determinant, cofactors, inverse

    /**
     * The determinant: read directly for 1 x 1 and 2 x 2; otherwise Gaussian
     * elimination with partial pivoting on a copy, negating for every row
     * swap and finishing with the product of the diagonal. A pivot that is
     * still 0 after the swap ends the elimination with 0.
     */
    method Determinant() returns (res: Result<real>)
      requires Valid()
      ensures res.Err? <==> rows != cols
      ensures res.Err? ==> res.error == NonSquare
      ensures res.Ok? ==> res.value == Det(Model())
    {
      if rows != cols {
        return Err(NonSquare);
      }
      if rows == 1 {
        return Ok(data[0]);
      } else if rows == 2 {
        return Ok(data[0] * data[3] - data[1] * data[2]);
      }
      var t := CopyBuffer(this);
      var det := GaussDeterminant(t, rows);
      return Ok(det);
    }

    /**
     * Fills sub, of shape (rows - 1) x (cols - 1), with this matrix minus row i
     * and column j, walking the source in row-major order with separate
     * write counters for sub.
     */
    method CopyMinorInto(sub: S21Matrix, i: nat, j: nat)
      requires Valid() && sub.Valid() && i < rows && j < cols
      requires sub.rows == rows - 1 && sub.cols == cols - 1 && sub.data != null && sub.data != data
      modifies sub.data
      ensures sub.Model() == Minor(Model(), i, j)
    {
      ghost var minor := Minor(Model(), i, j);
      var r1: nat, c1: nat := rows - 1, cols - 1;
      var subI: nat := 0;
      for row := 0 to rows
        invariant subI == (if row <= i then row else row - 1)
        invariant Offset(subI, 0, c1) <= r1 * c1
        invariant forall k :: 0 <= k < Offset(subI, 0, c1) ==> sub.data[k] == minor.cells[k]
      {
        if row == i {
          continue;
        }
        CopyRowSkipping(sub, i, j, row, subI);
        SweepNextRow(subI, r1, c1);
        subI := subI + 1;
      }
      SweepDone(r1, c1);
      assert sub.Cells() == minor.cells;
    }

    /**
     * The column loop of CopyMinorInto: row `row` of this matrix, without
     * column j, appended to the rows of the minor already in sub.
     */
    method CopyRowSkipping(sub: S21Matrix, i: nat, j: nat, row: nat, subI: nat)
      requires Valid() && sub.Valid() && i < rows && j < cols && row < rows && row != i
      requires sub.rows == rows - 1 && sub.cols == cols - 1 && sub.data != null && sub.data != data
      requires subI == (if row < i then row else row - 1)
      requires forall k :: 0 <= k < Offset(subI, 0, cols - 1) && k < sub.data.Length ==>
                 sub.data[k] == Minor(Model(), i, j).cells[k]
      modifies sub.data
      ensures forall k :: 0 <= k < Offset(subI + 1, 0, cols - 1) && k < sub.data.Length ==>
                sub.data[k] == Minor(Model(), i, j).cells[k]
    {
      ghost var m := Model();
      ghost var minor := Minor(m, i, j);
      var r1: nat, c1: nat := rows - 1, cols - 1;
      var subJ: nat := 0;
      OffsetPrefix(subI, 0, r1, c1);
      for col := 0 to cols
        invariant subJ == (if col <= j then col else col - 1)
        invariant Offset(subI, subJ, c1) <= r1 * c1
        invariant forall k :: 0 <= k < Offset(subI, subJ, c1) ==> sub.data[k] == minor.cells[k]
      {
        if col == j {
          continue;
        }
        SweepStep(subI, subJ, r1, c1);
        OffsetBounds(row, col, rows, cols);
        MinorAt(m, i, j, subI, subJ);
        sub.data[Offset(subI, subJ, c1)] := data[Offset(row, col, cols)];
        subJ := subJ + 1;
      }
      OffsetNextRow(subI, c1);
    }

    /**
     * Cofactor (i, j) as the complements loop computes it: the determinant of
     * a fresh submatrix holding the minor, times the sign of (i, j). The
     * submatrix constructor refuses a 1 x 1 source, whose minor is empty.
     */
    method CofactorAt(i: nat, j: nat) returns (res: Result<real>)
      requires Valid() && rows == cols && i < rows && j < cols
      ensures res.Err? <==> rows < 2
      ensures res.Err? ==> res.error == IndexOutOfBounds
      ensures res.Ok? ==> res.value == Sign(i, j) * Det(Minor(Model(), i, j))
    {
      var s := Create(rows - 1, cols - 1);
      if s.Err? {
        return Err(s.error);
      }
      var sub := s.value;
      CopyMinorInto(sub, i, j);
      var det := sub.Determinant();
      return Ok(Sign(i, j) * det.value);
    }

    /**
     * The matrix of cofactors, filled row by row. A non-square matrix is
     * refused with NonSquare; a 0 x 0 or 1 x 1 one with IndexOutOfBounds,
     * from the constructor of the result or of the first submatrix.
     */
    method CalcComplements() returns (res: Result<S21Matrix>)
      requires Valid()
      ensures res.Err? <==> rows != cols || rows < 2
      ensures res.Err? ==> res.error == if rows != cols then NonSquare else IndexOutOfBounds
      ensures res.Ok? ==> fresh(res.value) && fresh(res.value.data) && res.value.Valid() &&
                          res.value.Model() == Cofactors(Model())
    {
      if rows != cols {
        return Err(NonSquare);
      }
      var c := Create(rows, cols);
      if c.Err? {
        return Err(c.error);
      }
      var complements := c.value;
      var o := FillCofactors(complements.data);
      if o.Failed? {
        return Err(o.error);
      }
      return Ok(complements);
    }

    /**
     * The inverse: the adjugate (the transposed cofactor matrix) divided
     * elementwise by the determinant. The determinant is taken first, so a
     * non-square matrix fails with NonSquare. The guard then compares the
     * integer absolute value of det, truncated toward zero, with EpsDet, so
     * every determinant strictly between -1 and 1 fails with DeterminantZero.
     * A 0 x 0 or 1 x 1 matrix that passes fails in CalcComplements with
     * IndexOutOfBounds.
     */
    method InverseMatrix() returns (res: Result<S21Matrix>)
      requires Valid()
      ensures res.Err? <==> rows != cols || RefusedAsWritten(Det(Model())) || rows < 2
      ensures rows != cols ==> res == Err(NonSquare)
      ensures rows == cols && RefusedAsWritten(Det(Model())) ==> res == Err(DeterminantZero)
      ensures rows == cols && !RefusedAsWritten(Det(Model())) && rows < 2 ==> res == Err(IndexOutOfBounds)
      ensures res.Ok? ==> fresh(res.value) && fresh(res.value.data) && res.value.Valid() &&
                          res.value.Model() == Inverse(Model())
    {
      var d := Determinant();
      if d.Err? {
        return Err(d.error);
      }
      var det := d.value;
      if IntAbs(TruncToInt(det)) as real < EpsDet {
        return Err(DeterminantZero);
      }
      RefusedAsWrittenIff(det);
      res := InverseFrom(det);
    }

    /**
     * InverseMatrix with the guard on the absolute value of the double, as
     * evidently intended: only a determinant below EpsDet in magnitude fails
     * with DeterminantZero.
     */
    method InverseMatrixCorrected() returns (res: Result<S21Matrix>)
      requires Valid()
      ensures res.Err? <==> rows != cols || Abs(Det(Model())) < EpsDet || rows < 2
      ensures rows != cols ==> res == Err(NonSquare)
      ensures rows == cols && Abs(Det(Model())) < EpsDet ==> res == Err(DeterminantZero)
      ensures rows == cols && Abs(Det(Model())) >= EpsDet && rows < 2 ==> res == Err(IndexOutOfBounds)
      ensures res.Ok? ==> fresh(res.value) && fresh(res.value.data) && res.value.Valid() &&
                          res.value.Model() == Inverse(Model())
    {
      var d := Determinant();
      if d.Err? {
        return Err(d.error);
      }
      var det := d.value;
      if Abs(det) < EpsDet {
        return Err(DeterminantZero);
      }
      res := InverseFrom(det);
    }

    /** The part of InverseMatrix after the guard: complements, adjugate, division by det. */
    method InverseFrom(det: real) returns (res: Result<S21Matrix>)
      requires Valid() && rows == cols && det == Det(Model()) && det != 0.0
      ensures res.Err? <==> rows < 2
      ensures res.Err? ==> res.error == IndexOutOfBounds
      ensures res.Ok? ==> fresh(res.value) && fresh(res.value.data) && res.value.Valid() &&
                          res.value.Model() == Inverse(Model())
    {
      var c := CalcComplements();
      if c.Err? {
        return Err(c.error);
      }
      var t := c.value.Transpose();
      var adjugate := t.value;
      var r := Create(rows, cols);
      var inverse := r.value;
      DivideInto(inverse.data, adjugate, det);
      assert inverse.Cells() == Inverse(Model()).cells;
      return Ok(inverse);
    }

    /** The final loops of InverseMatrix: dst receives src's elements, each divided by det. */
    static method DivideInto(dst: array<real>, src: S21Matrix, det: real)
      requires src.Valid() && dst.Length == src.rows * src.cols && dst != src.data && det != 0.0
      modifies dst
      ensures forall k :: 0 <= k < dst.Length ==> dst[k] == src.Cells()[k] / det
    {
      var n := src.cols;
      for i := 0 to src.rows
        invariant Offset(i, 0, n) <= dst.Length
        invariant forall k :: 0 <= k < Offset(i, 0, n) ==> dst[k] == src.Cells()[k] / det
      {
        for j := 0 to n
          invariant Offset(i, j, n) <= dst.Length
          invariant forall k :: 0 <= k < Offset(i, j, n) ==> dst[k] == src.Cells()[k] / det
        {
          SweepStep(i, j, src.rows, n);
          dst[Offset(i, j, n)] := src.data[Offset(i, j, n)] / det;
        }
        SweepNextRow(i, src.rows, n);
      }
      SweepDone(src.rows, n);
    }

    /** The two loops of CalcComplements, writing cofactor (i, j) at offset (i, j) of buf. */
    method FillCofactors(buf: array<real>) returns (o: Outcome)
      requires Valid() && rows == cols && buf.Length == rows * cols && buf != data
      modifies buf
      ensures o.Failed? <==> rows == 1
      ensures o.Failed? ==> o.error == IndexOutOfBounds
      ensures o.Done? && rows >= 2 ==> buf[..] == Cofactors(Model()).cells
    {
      ghost var m := Model();
      var n := cols;
      for i := 0 to rows
        invariant i > 0 ==> n >= 2
        invariant Offset(i, 0, n) <= n * n
        invariant n >= 2 ==> forall k :: 0 <= k < Offset(i, 0, n) ==> buf[k] == Cofactors(m).cells[k]
      {
        for j := 0 to cols
          invariant j > 0 ==> n >= 2
          invariant Offset(i, j, n) <= n * n
          invariant n >= 2 ==> forall k :: 0 <= k < Offset(i, j, n) ==> buf[k] == Cofactors(m).cells[k]
        {
          var e := CofactorAt(i, j);
          if e.Err? {
            return Failed(e.error);
          }
          SweepStep(i, j, n, n);
          CofactorsAt(m, i, j);
          buf[Offset(i, j, n)] := e.value;
        }
        SweepNextRow(i, n, n);
      }
      SweepDone(n, n);
      return Done;
    }

    // ------------------------------------------------------------ operators

    /** operator+: a copy of this matrix with other added; a different shape fails with DimensionMismatch. */
    method Plus(other: S21Matrix) returns (res: Result<S21Matrix>)
      requires Valid() && other.Valid()
      ensures SameShape(Model(), other.Model()) <==> res.Ok?
      ensures res.Err? ==> res.error == DimensionMismatch
      ensures res.Ok? ==> fresh(res.value) && fresh(res.value.data) && res.value.Valid() &&
                          res.value.Model() == Add(Model(), other.Model())
    {
      var result := new S21Matrix.Copy(this);
      var o := result.SumMatrix(other);
      if o.Failed? {
        return Err(o.error);
      }
      return Ok(result);
    }

    /** operator-: a copy of this matrix with other subtracted; a different shape fails with DimensionMismatch. */
    method Minus(other: S21Matrix) returns (res: Result<S21Matrix>)
      requires Valid() && other.Valid()
      ensures SameShape(Model(), other.Model()) <==> res.Ok?
      ensures res.Err? ==> res.error == DimensionMismatch
      ensures res.Ok? ==> fresh(res.value) && fresh(res.value.data) && res.value.Valid() &&
                          res.value.Model() == Sub(Model(), other.Model())
    {
      var result := new S21Matrix.Copy(this);
      var o := result.SubMatrix(other);
      if o.Failed? {
        return Err(o.error);
      }
      return Ok(result);
    }

    /** operator* on matrices: a copy of this matrix multiplied by other; mismatched inner sizes fail with ColumnRowMismatch. */
    method Times(other: S21Matrix) returns (res: Result<S21Matrix>)
      requires Valid() && other.Valid()
      ensures cols == other.rows <==> res.Ok?
      ensures res.Err? ==> res.error == ColumnRowMismatch
      ensures res.Ok? ==> fresh(res.value) && fresh(res.value.data) && res.value.Valid() &&
                          res.value.Model() == Product(Model(), other.Model())
    {
      var result := new S21Matrix.Copy(this);
      var o := result.MulMatrix(other);
      if o.Failed? {
        return Err(o.error);
      }
      return Ok(result);
    }

    /** operator* by a number: a copy of this matrix with every element multiplied by scalar. */
    method TimesScalar(scalar: real) returns (result: S21Matrix)
      requires Valid()
      ensures fresh(result) && fresh(result.data) && result.Valid() && result.Model() == Scale(Model(), scalar)
    {
      result := new S21Matrix.Copy(this);
      result.MulNumber(scalar);
    }

    /** operator==: the answer of EqMatrix. */
    method Equals(other: S21Matrix) returns (eq: bool)
      requires Valid() && other.Valid()
      ensures eq <==> Model() == other.Model()
    {
      eq := EqMatrix(other);
    }

    /**
     * operator= as the library writes it: this matrix is destroyed first and
     * only then are other's counts and buffer read, so assigning a matrix to
     * itself leaves it empty, 0 x 0.
     */
    method AssignAsWritten(other: S21Matrix)
      requires Valid() && other.Valid()
      modifies this
      ensures Valid() && data != null && fresh(data)
      ensures Model() == if other == this then Mat(0, 0, []) else old(other.Model())
    {
      Destroy();
      rows, cols := other.rows, other.cols;
      var buf := CopyBuffer(other);
      data := buf;
    }

    /**
     * operator= with other's counts and buffer copied before this matrix is
     * destroyed: afterwards this matrix holds other's old value, also when
     * other is this matrix itself.
     */
    method Assign(other: S21Matrix)
      requires Valid() && other.Valid()
      modifies this
      ensures Valid() && data != null && fresh(data)
      ensures Model() == old(other.Model())
    {
      var r, c := other.rows, other.cols;
      var buf := CopyBuffer(other);
      Destroy();
      rows, cols := r, c;
      data := buf;
    }

    /** operator+=: SumMatrix. */
    method PlusAssign(other: S21Matrix) returns (o: Outcome)
      requires Valid() && other.Valid()
      modifies data
      ensures Valid() && data == old(data)
      ensures SameShape(old(Model()), old(other.Model())) <==> o.Done?
      ensures o.Done? ==> Model() == Add(old(Model()), old(other.Model()))
      ensures o.Failed? ==> o.error == DimensionMismatch && Model() == old(Model())
    {
      o := SumMatrix(other);
    }

    /** operator-=: SubMatrix. */
    method MinusAssign(other: S21Matrix) returns (o: Outcome)
      requires Valid() && other.Valid()
      modifies data
      ensures Valid() && data == old(data)
      ensures SameShape(old(Model()), old(other.Model())) <==> o.Done?
      ensures o.Done? ==> Model() == Sub(old(Model()), old(other.Model()))
      ensures o.Failed? ==> o.error == DimensionMismatch && Model() == old(Model())
    {
      o := SubMatrix(other);
    }

    /** operator*= on matrices: MulMatrix. */
    method TimesAssign(other: S21Matrix) returns (o: Outcome)
      requires Valid() && other.Valid()
      modifies this
      ensures Valid()
      ensures old(cols) == old(other.rows) <==> o.Done?
      ensures o.Done? ==> fresh(data) && Model() == Product(old(Model()), old(other.Model()))
      ensures o.Failed? ==> o.error == ColumnRowMismatch && data == old(data) && Model() == old(Model())
    {
      o := MulMatrix(other);
    }

    /** operator*= by a number: MulNumber. */
    method TimesScalarAssign(num: real)
      requires Valid()
      modifies data
      ensures Valid() && data == old(data)
      ensures Model() == Scale(old(Model()), num)
    {
      MulNumber(num);
    }

    /** operator(): the 1-based element (i, j), as GetElement reads it. */
    method Call(i: int, j: int) returns (res: Result<real>)
      requires Valid()
      ensures 1 <= i <= rows && 1 <= j <= cols <==> res.Ok?
      ensures res.Ok? ==> res.value == Model().At(i - 1, j - 1)
      ensures res.Err? ==> res.error == IndexOutOfBounds
    {
      res := GetElement(i, j);
    }
  }

  /**
   * Self-assignment of the default matrix through the library's operator=:
   * the 3 x 3 zero matrix comes out 0 x 0.
   */
  method SelfAssignmentEmpties() returns (before: nat, after: nat)
    ensures before == 3 && after == 0
  {
    var m := new S21Matrix();
    before := m.rows;
    m.AssignAsWritten(m);
    after := m.rows;
  }

  /** The same self-assignment through the corrected operator= keeps the matrix. */
  method SelfAssignmentKeeps() returns (before: nat, after: nat)
    ensures before == 3 && after == 3
  {
    var m := new S21Matrix();
    before := m.rows;
    m.Assign(m);
    after := m.rows;
  }

  /**
   * Element (row, col), 1-based, of the product m1 * m2: the running sum over
   * term = 1..m1.cols of m1(row, term) * m2(term, col), each read through the
   * bounds-checked accessor. With no terms the sum is 0 and nothing is
   * checked; otherwise a bad row, a bad column or a term past m2's rows
   * fails with IndexOutOfBounds.
   */
  method CalculateMulElement(m1: S21Matrix, m2: S21Matrix, row: int, col: int) returns (res: Result<real>)
    requires m1.Valid() && m2.Valid()
    ensures res.Err? <==> m1.cols >= 1 && !(1 <= row <= m1.rows && 1 <= col <= m2.cols && m1.cols <= m2.rows)
    ensures res.Err? ==> res.error == IndexOutOfBounds
    ensures res.Ok? && m1.cols == 0 ==> res.value == 0.0
    ensures res.Ok? && m1.cols >= 1 ==>
      1 <= row <= m1.rows && 1 <= col <= m2.cols && m1.cols <= m2.rows &&
      res.value == Dot(m1.Model(), m2.Model(), row - 1, col - 1, m1.cols)
  {
    ghost var a, b := m1.Model(), m2.Model();
    var result := 0.0;
    var n := m1.GetCols();
    for term := 1 to n + 1
      invariant term == 1 ==> result == 0.0
      invariant term > 1 ==> 1 <= row <= m1.rows && 1 <= col <= m2.cols && term - 1 <= m2.rows
      invariant term > 1 ==> result == Dot(a, b, row - 1, col - 1, term - 1)
    {
      var x := m1.GetElement(row, term);
      if x.Err? {
        return Err(x.error);
      }
      var y := m2.GetElement(term, col);
      if y.Err? {
        return Err(y.error);
      }
      result := result + x.value * y.value;
    }
    return Ok(result);
  }

  // ---------------------------------------------------------------- elimination on the temporary buffer

  /**
   * The pivot scan from Determinant: the first row from i down whose entry in
   * column i has the largest magnitude, found with a strict comparison.
   */
  method PivotSearch(a: array<real>, n: nat, i: nat) returns (maxRow: nat)
    requires a.Length == n * n && i < n
    ensures maxRow == PivotRow(Mat(n, n, a[..]), i)
    ensures FirstMaxIn(Mat(n, n, a[..]), i, n, maxRow)
  {
    ghost var m := Mat(n, n, a[..]);
    maxRow := i;
    for j := i + 1 to n
      invariant maxRow < n
      invariant PivotFrom(m, i, j, maxRow) == PivotRow(m, i)
    {
      OffsetBounds(j, i, n, n);
      OffsetBounds(maxRow, i, n, n);
      if Abs(a[Offset(j, i, n)]) > Abs(a[Offset(maxRow, i, n)]) {
        maxRow := j;
      }
    }
    PivotRowIsFirstMax(m, i);
  }

  /** Exchanges rows i and p of the n x n buffer, one column at a time. */
  method SwapRowsInPlace(a: array<real>, n: nat, i: nat, p: nat)
    requires a.Length == n * n && i < n && p < n
    modifies a
    ensures a[..] == SwapRows(Mat(n, n, old(a[..])), i, p).cells
  {
    ghost var m := Mat(n, n, a[..]);
    ghost var s := SwapRows(m, i, p);
    for k := 0 to n
      invariant forall r: nat, c: nat :: r < n && c < n ==>
        Mat(n, n, a[..]).At(r, c) == if c < k then s.At(r, c) else m.At(r, c)
    {
      ghost var before := Mat(n, n, a[..]);
      OffsetBounds(i, k, n, n);
      OffsetBounds(p, k, n, n);
      var x := a[Offset(i, k, n)];
      a[Offset(i, k, n)] := a[Offset(p, k, n)];
      ghost var mid := Mat(n, n, a[..]);
      WriteAt(before, i, k, before.At(p, k), a[..]);
      SetAtGet(before, i, k, before.At(p, k));
      a[Offset(p, k, n)] := x;
      WriteAt(mid, p, k, x, a[..]);
      SetAtGet(mid, p, k, x);
      forall r: nat | r < n ensures s.At(r, k) == m.At(if r == i then p else if r == p then i else r, k) {
        SwapRowsAt(m, i, p, r, k);
      }
    }
    forall r: nat, c: nat | r < n && c < n ensures Mat(n, n, a[..]).At(r, c) == s.At(r, c) {
      SwapRowsAt(m, i, p, r, c);
    }
    Ext(Mat(n, n, a[..]), s);
  }

  /**
   * Subtracts, from every row below i, the ratio of its column-i entry to the
   * pivot times row i; each ratio is taken before its row is touched.
   */
  method EliminateBelowInPlace(a: array<real>, n: nat, i: nat)
    requires a.Length == n * n && i < n
    requires Mat(n, n, a[..]).At(i, i) != 0.0
    modifies a
    ensures a[..] == EliminateBelow(Mat(n, n, old(a[..])), i).cells
  {
    ghost var m := Mat(n, n, a[..]);
    OffsetBounds(i, i, n, n);
    for j := i + 1 to n
      invariant forall r: nat, c: nat :: r < n && c < n ==>
        Mat(n, n, a[..]).At(r, c) ==
          if i < r < j && i <= c then m.At(r, c) - Ratio(m, i, r) * m.At(i, c) else m.At(r, c)
    {
      OffsetBounds(j, i, n, n);
      var ratio := a[Offset(j, i, n)] / a[Offset(i, i, n)];
      assert ratio == Ratio(m, i, j);
      ReduceRow(a, n, i, j, ratio);
    }
    ghost var e := EliminateBelow(m, i);
    forall r: nat, c: nat | r < n && c < n ensures Mat(n, n, a[..]).At(r, c) == e.At(r, c) {
      EliminateBelowAt(m, i, r, c);
    }
    Ext(Mat(n, n, a[..]), e);
  }

  /** Row j, from column i on, loses ratio times row i; no other cell changes. */
  method ReduceRow(a: array<real>, n: nat, i: nat, j: nat, ratio: real)
    requires a.Length == n * n && i < j < n
    modifies a
    ensures forall r: nat, c: nat :: r < n && c < n ==>
      Mat(n, n, a[..]).At(r, c) ==
        if r == j && i <= c then Mat(n, n, old(a[..])).At(j, c) - ratio * Mat(n, n, old(a[..])).At(i, c)
        else Mat(n, n, old(a[..])).At(r, c)
  {
    ghost var m := Mat(n, n, a[..]);
    for k := i to n
      invariant forall r: nat, c: nat :: r < n && c < n ==>
        Mat(n, n, a[..]).At(r, c) ==
          if r == j && i <= c < k then m.At(j, c) - ratio * m.At(i, c) else m.At(r, c)
    {
      ghost var before := Mat(n, n, a[..]);
      OffsetBounds(j, k, n, n);
      OffsetBounds(i, k, n, n);
      var v := a[Offset(j, k, n)] - ratio * a[Offset(i, k, n)];
      assert v == m.At(j, k) - ratio * m.At(i, k) by {
        assert a[Offset(j, k, n)] == before.At(j, k) && a[Offset(i, k, n)] == before.At(i, k);
      }
      a[Offset(j, k, n)] := v;
      WriteAt(before, j, k, v, a[..]);
      SetAtGet(before, j, k, v);
    }
  }

  /**
   * The elimination loop of Determinant on an n x n buffer it may overwrite:
   * for each column but the last, find the pivot, swap it up (negating the
   * sign), stop with 0 at a zero pivot, clear the column below; then multiply
   * the sign by the diagonal.
   */
  method GaussDeterminant(a: array<real>, n: nat) returns (det: real)
    requires a.Length == n * n
    modifies a
    ensures det == Gauss(Mat(n, n, old(a[..])), 0, 1.0)
  {
    ghost var target := Gauss(Mat(n, n, a[..]), 0, 1.0);
    det := 1.0;
    var i: nat := 0;
    while i + 1 < n
      invariant n > 0 ==> i < n
      invariant Gauss(Mat(n, n, a[..]), i, det) == target
    {
      var zero;
      det, zero := EliminationStep(a, n, i, det);
      if zero {
        return 0.0;
      }
      i := i + 1;
    }
    ghost var g := Mat(n, n, a[..]);
    var r := DiagonalProduct(a, n, det);
    GaussEnd(g, i, det);
    det := r;
  }

  /**
   * One pass of the elimination loop at column i: the pivot row is swapped
   * up (negating det); a zero pivot is reported, otherwise the column is
   * cleared below it.
   */
  method EliminationStep(a: array<real>, n: nat, i: nat, det: real) returns (det': real, zero: bool)
    requires a.Length == n * n && i + 1 < n
    modifies a
    ensures zero ==> Gauss(Mat(n, n, old(a[..])), i, det) == 0.0
    ensures !zero ==> Gauss(Mat(n, n, old(a[..])), i, det) == Gauss(Mat(n, n, a[..]), i + 1, det')
  {
    ghost var cur := Mat(n, n, a[..]);
    det' := det;
    var p := PivotSearch(a, n, i);
    if p != i {
      SwapRowsInPlace(a, n, i, p);
      det' := -det;
    }
    assert Mat(n, n, a[..]) == Pivoted(cur, i);
    OffsetBounds(i, i, n, n);
    zero := a[Offset(i, i, n)] == 0.0;
    if zero {
      GaussZeroPivot(cur, i, det);
    } else {
      EliminateBelowInPlace(a, n, i);
      GaussStep(cur, i, det);
    }
  }

  /** det times the diagonal of the n x n buffer, multiplied in from the top left. */
  method DiagonalProduct(a: array<real>, n: nat, det: real) returns (r: real)
    requires a.Length == n * n
    ensures r == det * DiagProduct(Mat(n, n, a[..]), n)
  {
    ghost var g := Mat(n, n, a[..]);
    r := det;
    for k := 0 to n
      invariant r == det * DiagProduct(g, k)
    {
      OffsetBounds(k, k, n, n);
      r := r * a[Offset(k, k, n)];
      assert r == det * (DiagProduct(g, k) * g.At(k, k));
    }
  }
}
