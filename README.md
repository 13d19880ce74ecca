# S21Matrix in Dafny

This project models `S21Matrix`, a dense matrix of doubles held in one row-major
buffer together with its row and column counts. The model covers construction
and teardown, 1-based bounds-checked element access, resizing, equality,
elementwise arithmetic, the matrix product, transpose, the determinant by
Gaussian elimination with partial pivoting, the cofactor matrix and the inverse.
It also covers the operator overloads that wrap these methods.

Elements are exact `real`s. Each exception class becomes one constructor of
`Errors.Error`. A method that throws returns `Result<T>` (a value or an error),
or `Outcome` (done, or failed with an error) when it works in place.

The modules, in dependency order:

- `Errors`: the five error kinds, `Result` and `Outcome`.
- `RowMajor`: the offset `r * n + c` of a cell, written as repeated addition, and the lemmas that a row-major sweep stays inside the buffer and covers all of it.
- `MatSpec`: the value `Mat(rows, cols, cells)` and the operations as functions on values: zero matrix, element update, column and row resizing, sum, difference, scaling, product, transpose, minor. It also holds the lemmas relating them: round trips, identity laws, transpose of a product.
- `DetSpec`: the determinant as the library computes it. That means the 1×1 and 2×2 closed forms, then elimination with a first-maximum pivot search, a row swap that negates the sign, and clearing below the pivot. It also defines the cofactor matrix, the adjugate and the inverse, with the lemmas about each step.
- `Matrix`: the class `S21Matrix` with fields `data: array?<real>`, `rows` and `cols`.
  - Its invariant `Valid()` is `data.Length == rows * cols`, or a null buffer with both counts 0 (the destroyed or moved-from state).
  - Every method is proved against `Model()`, the `Mat` value the object holds. In-place methods state the new state in terms of `old(Model())`.
  - The elimination runs in place on an array, as the library does on its copy `temp`.
- `ZeroPivot`: the elimination on IEEE-style values (finite, ±infinity, NaN). It shows what the library computes at an exactly zero pivot (see Findings).
- `TestValues`: the values that the library's unit tests expect, proved about the model.

Some edge cases of the library, as the code behaves:

- A dimension below 1, at construction or at a resize, fails with `IndexOutOfBounds`. No error kind of its own exists for it.
- `Transpose` builds its result with the dimension-checked constructor. On a matrix with a zero dimension (a destroyed one), it therefore fails with `IndexOutOfBounds`.
- `CalcComplements` of a 1×1 matrix fails with `IndexOutOfBounds`, because it constructs a 0×0 submatrix.
- The determinant of a 0×0 matrix (reachable only after destruction) is 1. The elimination path runs no pass and returns the initial sign.
- The singularity guard of `InverseMatrix` calls an unqualified `abs` on the determinant. The translation unit includes `<cstring>` and `<iostream>` through s21_matrix_oop.h and `<exception>` and `<string>` through s21_exceptions.h, and has no `using namespace std`. With libstdc++ none of these declares a global `abs(double)`, so the call is `int abs(int)`: the determinant is truncated toward zero first, and every determinant strictly between −1 and 1 is refused (see Findings). The unit test at matrix/test.cpp:333-334 depends on this: it expects DeterminantZero for the 1..9 matrix, whose determinant in doubles comes out tiny but nonzero. Another standard library may resolve the call differently, or reject it as ambiguous.

## Model

| member | source | states |
|---|---|---|
| Matrix.S21Matrix.constructor | matrix/s21_constructors.cpp:4-8 | the default object is valid, owns a fresh buffer and holds the 3×3 zero matrix |
| Matrix.S21Matrix.Zeros | matrix/s21_constructors.cpp:14-19 | the nested clearing loops leave an r×c buffer of zeros: the object holds Zero(r, c) |
| Matrix.S21Matrix.Create | matrix/s21_constructors.cpp:10-20 | fails with IndexOutOfBounds exactly when r < 1 or c < 1; otherwise a fresh valid r×c zero matrix |
| Matrix.S21Matrix.Copy | matrix/s21_constructors.cpp:22-27 | the copy holds the same matrix value in a fresh buffer of its own, so later writes to either do not reach the other |
| Matrix.S21Matrix.CopyBuffer | matrix/s21_constructors.cpp:25-26 | a fresh array of length rows*cols whose contents are the source's cells |
| Matrix.S21Matrix.Move | matrix/s21_constructors.cpp:29-35 | the target holds the source's old value in a fresh buffer; the source is left valid, 0×0, with no buffer |
| Matrix.S21Matrix.Destroy | matrix/s21_constructors.cpp:37-42 | afterwards the buffer is null and both counts are 0, whatever the state before, so a second call is harmless |
| Matrix.S21Matrix.GetRows | matrix/s21_get_mut.cpp:4 | returns the stored row count |
| Matrix.S21Matrix.GetCols | matrix/s21_get_mut.cpp:6 | returns the stored column count |
| Matrix.S21Matrix.GetElement | matrix/s21_get_mut.cpp:8-13 | succeeds exactly when 1 ≤ row ≤ rows and 1 ≤ col ≤ cols, with element (row-1, col-1); otherwise IndexOutOfBounds |
| Matrix.S21Matrix.MutateElement | matrix/s21_get_mut.cpp:15-21 | succeeds exactly for an in-range index and then holds SetAt(old value, row-1, col-1, v); a failure is IndexOutOfBounds with nothing changed |
| MatSpec.SetAtGet | matrix/s21_get_mut.cpp:15-21 | after a set, the element reads back as v, and every other element is unchanged |
| MatSpec.SetAtSame | matrix/s21_get_mut.cpp:15-21 | writing back the value already present leaves the matrix equal to itself |
| Matrix.S21Matrix.MutateCols | matrix/s21_get_mut.cpp:23-41 | n ≥ 1 succeeds with a fresh buffer holding ResizeCols(old, n); n < 1 is IndexOutOfBounds with buffer and value unchanged |
| MatSpec.ResizeColsAt | matrix/s21_get_mut.cpp:28-38 | element (i, j) of the resized matrix is the old element when j is an old column, else 0 |
| MatSpec.ResizeColsRoundTrip | matrix/s21_get_mut.cpp:23-41 | widening and then narrowing back gives the original matrix |
| Matrix.S21Matrix.MutateRows | matrix/s21_get_mut.cpp:43-61 | n ≥ 1 succeeds with a fresh buffer holding ResizeRows(old, n); n < 1 is IndexOutOfBounds with buffer and value unchanged |
| MatSpec.ResizeRowsAt | matrix/s21_get_mut.cpp:48-58 | element (i, j) of the resized matrix is the old element when i is an old row, else 0 |
| MatSpec.ResizeRowsRoundTrip | matrix/s21_get_mut.cpp:43-61 | adding rows and then removing them gives the original matrix |
| Matrix.S21Matrix.EqMatrix | matrix/s21_methods.cpp:4-14 | true exactly when the two matrix values are equal: same shape and every element equal |
| Matrix.S21Matrix.SumMatrix | matrix/s21_methods.cpp:16-23 | succeeds exactly when the shapes agree, leaving Add(old value, other); otherwise DimensionMismatch with nothing written |
| Matrix.S21Matrix.SubMatrix | matrix/s21_methods.cpp:25-32 | succeeds exactly when the shapes agree, leaving Sub(old value, other); otherwise DimensionMismatch with nothing written |
| MatSpec.ElementwiseAt | matrix/s21_methods.cpp:20-36 | each element of a sum, difference or scaled matrix is the sum, difference or product of the corresponding elements |
| MatSpec.SubUndoesAdd | matrix/s21_methods.cpp:16-32 | subtracting b after adding b gives back a |
| MatSpec.AddCommutes | matrix/s21_methods.cpp:16-23 | the sum does not depend on operand order |
| Matrix.S21Matrix.MulNumber | matrix/s21_methods.cpp:34-38 | the buffer is kept, the shape is unchanged, and the value becomes Scale(old value, num) |
| MatSpec.ScaleInverse | matrix/s21_methods.cpp:34-38 | scaling by s and then by 1/s gives back the matrix, for s ≠ 0 |
| Matrix.S21Matrix.MulMatrix | matrix/s21_methods.cpp:40-54 | succeeds exactly when cols equals the other's rows, with a fresh buffer holding Product(old value, other); otherwise ColumnRowMismatch with nothing changed |
| Matrix.S21Matrix.ProductBuffer | matrix/s21_methods.cpp:44-50 | the nested loops fill a fresh buffer with the cells of the product |
| Matrix.CalculateMulElement | matrix/s21_methods.cpp:56-65 | the accumulator is the inner product Σ m1(row, t)·m2(t, col); an out-of-range read of the other operand fails with IndexOutOfBounds |
| MatSpec.ProductAt | matrix/s21_methods.cpp:45-48 | element (i, j) of the product is the inner product of row i and column j |
| MatSpec.ProductIdentity | matrix/s21_methods.cpp:40-65 | multiplying by the identity on either side gives back the matrix |
| Matrix.S21Matrix.Transpose | matrix/s21_methods.cpp:67-76 | fails with IndexOutOfBounds exactly when a dimension is 0; otherwise a fresh cols×rows matrix holding the transpose, with this unchanged |
| MatSpec.TransposeAt | matrix/s21_methods.cpp:69-73 | element (j, i) of the transpose is element (i, j) of the matrix |
| MatSpec.TransposeInvolutive | matrix/s21_methods.cpp:67-76 | transposing twice gives back the matrix |
| MatSpec.TransposeProduct | matrix/s21_methods.cpp:40-76 | the transpose of a product is the product of the transposes in reverse order |
| Matrix.S21Matrix.CopyMinorInto | matrix/s21_methods.cpp:85-97 | the sub_i/sub_j copy loop leaves in sub exactly the minor that skips row i and column j |
| Matrix.S21Matrix.CopyRowSkipping | matrix/s21_methods.cpp:89-94 | one row of the copy loop extends the part of sub equal to the minor by one row |
| MatSpec.MinorAt | matrix/s21_methods.cpp:87-96 | element (r, c) of the minor is element (Skip(r, i), Skip(c, j)) of the matrix, keeping the order of the remaining rows and columns |
| Matrix.S21Matrix.CofactorAt | matrix/s21_methods.cpp:85-100 | cofactor (i, j) is Sign(i, j) times the determinant of the minor; for a 1×1 matrix the 0×0 submatrix fails with IndexOutOfBounds |
| Matrix.S21Matrix.FillCofactors | matrix/s21_methods.cpp:83-102 | the loop over (i, j) fills the buffer with the cofactor matrix, or fails with IndexOutOfBounds for a 1×1 input |
| Matrix.S21Matrix.CalcComplements | matrix/s21_methods.cpp:78-105 | fails with NonSquare for a non-square matrix, then with IndexOutOfBounds below 2×2; otherwise a fresh matrix holding Cofactors(value) |
| DetSpec.CofactorsAt | matrix/s21_methods.cpp:98-100 | entry (i, j) of the cofactor matrix is (+1 if i+j is even, else −1) times the determinant of the minor |
| DetSpec.CofactorListAt | matrix/s21_methods.cpp:83-101 | the cell at offset (i, j) of the cofactor list is cofactor (i, j) |
| Matrix.S21Matrix.Determinant | matrix/s21_methods.cpp:107-146 | fails with NonSquare exactly when rows ≠ cols; otherwise returns Det(value) and leaves this unchanged |
| DetSpec.Det2 | matrix/s21_methods.cpp:112-113 | the 2×2 determinant is a11·a22 − a12·a21 |
| DetSpec.Gauss1 | matrix/s21_methods.cpp:110-111 | for a 1×1 matrix the elimination path would also give the single element |
| DetSpec.Gauss2 | matrix/s21_methods.cpp:114-144 | for a 2×2 matrix the elimination path, with or without a swap, gives a11·a22 − a12·a21 |
| DetSpec.ClosedFormsAgree | matrix/s21_methods.cpp:110-144 | the 1×1 and 2×2 closed forms agree with what the general elimination path computes |
| Matrix.GaussDeterminant | matrix/s21_methods.cpp:115-144 | the in-place elimination on the copied buffer returns Gauss(value, 0, 1) |
| Matrix.EliminationStep | matrix/s21_methods.cpp:117-138 | one pass at column i moves the computation from Gauss at i to Gauss at i+1 with the updated sign; a zero pivot gives 0 |
| Matrix.PivotSearch | matrix/s21_methods.cpp:118-124 | returns PivotRow, which is the first row from i down whose entry in column i has the largest magnitude |
| DetSpec.PivotRowIsFirstMax | matrix/s21_methods.cpp:118-124 | the pivot row is at least i and maximises the magnitude, and every earlier row from i on is strictly smaller |
| DetSpec.PivotFromFirstMax | matrix/s21_methods.cpp:119-123 | the scan extends a first-maximum prefix to the whole column |
| DetSpec.FirstMaxUnique | matrix/s21_methods.cpp:118-124 | at most one row satisfies the first-maximum property, so the strict `>` determines the pivot |
| Matrix.SwapRowsInPlace | matrix/s21_methods.cpp:125-131 | the in-place loop leaves the buffer equal to SwapRows(old, i, p) |
| DetSpec.SwapRowsAt | matrix/s21_methods.cpp:126-129 | after a swap, rows i and p are exchanged and every other row is intact |
| DetSpec.SwapRowsTwice | matrix/s21_methods.cpp:125-131 | swapping the same two rows twice gives back the matrix |
| DetSpec.SwapKeepsZeroBelowDiag | matrix/s21_methods.cpp:125-131 | swapping row i with a row below it keeps the columns already cleared zero below the diagonal |
| Matrix.EliminateBelowInPlace | matrix/s21_methods.cpp:132-138 | the in-place loops leave the buffer equal to EliminateBelow(old, i), for a nonzero pivot |
| Matrix.ReduceRow | matrix/s21_methods.cpp:135-137 | row j from column i on loses ratio times row i; every other cell is unchanged |
| DetSpec.EliminateBelowAt | matrix/s21_methods.cpp:132-138 | below the pivot, each cell from column i on becomes m(r, c) − (m(r, i)/m(i, i))·m(i, c); all cells above or left are unchanged |
| DetSpec.EliminateBelowClears | matrix/s21_methods.cpp:132-138 | elimination at column i clears column i below the diagonal and keeps the earlier columns cleared |
| DetSpec.PivotZeroIffColumnZero | matrix/s21_methods.cpp:118-134 | the pivot found by the search is exactly zero if and only if column i is zero from row i down |
| DetSpec.GaussZeroPivot | matrix/s21_methods.cpp:118-138 | a zero pivot after the search means column i is zero from row i down, and the determinant is then 0 |
| Matrix.DiagonalProduct | matrix/s21_methods.cpp:140-142 | the loop multiplies the sign by every diagonal element |
| Matrix.S21Matrix.InverseMatrix | matrix/s21_methods.cpp:148-164 | as written: the errors come in the library's order: NonSquare, then DeterminantZero when the integer abs of the truncated det is below 1e-100, that is −1 < det < 1, then IndexOutOfBounds for 1×1; otherwise a fresh matrix holding Inverse(value) |
| Matrix.S21Matrix.InverseMatrixCorrected | matrix/s21_methods.cpp:148-164 | corrected: the same order of errors, but DeterminantZero exactly when abs(det) < 1e-100 on the real value; otherwise a fresh matrix holding Inverse(value) |
| Matrix.S21Matrix.InverseFrom | matrix/s21_methods.cpp:153-163 | for a square matrix with nonzero det: IndexOutOfBounds exactly for 1×1, otherwise a fresh valid matrix holding the adjugate divided by det |
| DetSpec.RefusedAsWrittenIff | matrix/s21_methods.cpp:151 | the guard as written, abs of the determinant truncated to an integer, refuses exactly the determinants strictly between −1 and 1 |
| DetSpec.RefusedAsWrittenCoarser | matrix/s21_methods.cpp:151 | every determinant the intended guard refuses is refused as written, and the two differ exactly for 1e-100 ≤ abs(det) < 1 |
| DetSpec.HalfRefusedAsWritten | matrix/s21_methods.cpp:151 | diag(1, 0.5) has determinant 0.5: the guard as written refuses it and the intended one does not |
| DetSpec.InverseTwoByTwo | matrix/s21_methods.cpp:148-164 | for a 2×2 matrix with nonzero determinant, the matrix times its computed inverse is the identity |
| Matrix.S21Matrix.DivideInto | matrix/s21_methods.cpp:156-161 | every cell of the new buffer is the adjugate cell divided by det |
| DetSpec.InverseAt | matrix/s21_methods.cpp:148-164 | element (i, j) of the inverse is cofactor (j, i) divided by the determinant |
| Matrix.S21Matrix.Plus | s21_overload.cpp:4-8 | copies then adds: succeeds exactly when the shapes agree with a fresh object over a fresh buffer holding Add(this, other), else DimensionMismatch; this is unchanged |
| Matrix.S21Matrix.Minus | s21_overload.cpp:10-14 | copies then subtracts: succeeds exactly when the shapes agree with a fresh object over a fresh buffer holding Sub(this, other), else DimensionMismatch |
| Matrix.S21Matrix.Times | s21_overload.cpp:16-20 | copies then multiplies: succeeds exactly when cols equals the other's rows with a fresh object over a fresh buffer holding Product(this, other), else ColumnRowMismatch |
| Matrix.S21Matrix.TimesScalar | s21_overload.cpp:22-26 | a fresh object over a fresh buffer holding Scale(this, scalar) |
| Matrix.S21Matrix.Equals | s21_overload.cpp:28 | true exactly when the two matrix values are equal, as EqMatrix |
| Matrix.S21Matrix.AssignAsWritten | s21_overload.cpp:30-36 | the operator as written: another object's value is copied into a fresh buffer, but self-assignment leaves 0×0 |
| Matrix.SelfAssignmentEmpties | s21_overload.cpp:30-36 | a = a on the default 3×3 matrix leaves 0 rows under the operator as written |
| Matrix.S21Matrix.Assign | s21_overload.cpp:30-36 | assignment copies the other's old value into a fresh buffer, self-assignment included |
| Matrix.SelfAssignmentKeeps | s21_overload.cpp:30-36 | a = a on the default 3×3 matrix keeps 3 rows under the corrected operator |
| Matrix.S21Matrix.PlusAssign | s21_overload.cpp:38 | exactly SumMatrix in place, including its error |
| Matrix.S21Matrix.MinusAssign | s21_overload.cpp:40 | exactly SubMatrix in place, including its error |
| Matrix.S21Matrix.TimesAssign | s21_overload.cpp:42 | exactly MulMatrix in place, including its error |
| Matrix.S21Matrix.TimesScalarAssign | s21_overload.cpp:44 | exactly MulNumber in place |
| Matrix.S21Matrix.Call | s21_overload.cpp:46-48 | exactly GetElement, including its bounds failure |
| ZeroPivot.EliminateFromAt | matrix/s21_methods.cpp:132-138 | the elimination on IEEE-style values changes exactly the cells below and right of the pivot, each by ratio times the pivot row |
| ZeroPivot.ReduceFromAt | matrix/s21_methods.cpp:135-137 | the row update on IEEE-style values changes only row j from column k on |
| ZeroPivot.MaxRowKeeps | matrix/s21_methods.cpp:118-124 | when no later magnitude compares greater (NaN never does), the pivot search keeps its current row |
| ZeroPivot.SweepKeepsNaN | matrix/s21_methods.cpp:117-139 | once the rows below the first are NaN, element (1, 1) stays NaN through the remaining passes |
| ZeroPivot.DiagFromNaN | matrix/s21_methods.cpp:140-142 | a NaN sign stays NaN through the diagonal product |
| ZeroPivot.ZeroColumnAsWritten | matrix/s21_methods.cpp:107-151 | as written: for n ≥ 3 with a zero first column the determinant is NaN, and a singularity test on the double, abs(det) < 1e-100, does not refuse it |
| ZeroPivot.ZeroMatrixAsWritten | matrix/s21_methods.cpp:107-151 | as written: the 3×3 zero matrix has determinant NaN and passes a singularity test on the double |
| ZeroPivot.ZeroColumnCorrected | matrix/s21_methods.cpp:107-151 | corrected: for n ≥ 3 with a zero first column the determinant is 0, which both the guard as written and the intended guard refuse |
| ZeroPivot.ZeroMatrixCorrected | matrix/s21_methods.cpp:107-151 | corrected: the 3×3 zero matrix has determinant 0, which both guards refuse |
| TestValues.GeneratedAt | matrix/test.cpp:16-24 | the test fill puts i·c + j + 1 at (i, j) |
| TestValues.ProductValues | matrix/test.cpp:215-225 | the 4×3 by 3×10 product of filled matrices has 680 at (4,10), 383 at (4,1) and 380 at (3,5) |
| TestValues.TransposeValues | matrix/test.cpp:229-237 | the transpose of the filled 3×2 matrix is 2×3 with 6 at (2,3), 3 at (1,2) and 2 at (2,1) |
| TestValues.DeterminantOneByOne | matrix/test.cpp:253-255 | the 1×1 matrix [1.25] has determinant 1.25 |
| TestValues.MutatedAreSetAt | matrix/test.cpp:246-252 | the two determinant test matrices are the fill with (3,3) set to 1, then also (2,3) set to 10 |
| TestValues.Mutated24Determinant | matrix/test.cpp:246-250 | the first determinant test matrix has determinant 24 |
| TestValues.Mutated48Determinant | matrix/test.cpp:251-252 | the second has determinant 48 |
| TestValues.TestedIsMutatedFill | matrix/test.cpp:302-304 | the cofactor and inverse test matrix is the fill with (3,3) set to 10 |
| TestValues.TestedDeterminant | matrix/test.cpp:319-323 | that matrix has determinant −3, so it is invertible |
| TestValues.TestedPassesGuard | matrix/test.cpp:319-323 | determinant −3 passes the guard as written, so the inverse test reaches the division |
| TestValues.TestedComplementsRow0 | matrix/test.cpp:306-308 | cofactors of its first row are 2, 2 and −3 |
| TestValues.TestedComplementsRow1 | matrix/test.cpp:309-311 | cofactors of its second row are 4, −11 and 6 |
| TestValues.TestedComplementsRow2 | matrix/test.cpp:312-314 | cofactors of its third row are −3, 6 and −3 |
| TestValues.TestedInverseRow0 | matrix/test.cpp:324-326 | the first row of its inverse is −2/3, −4/3 and 1 |
| TestValues.TestedInverseRow1 | matrix/test.cpp:327-329 | the second row is −2/3, 11/3 and −2 |
| TestValues.TestedInverseRow2 | matrix/test.cpp:330-332 | the third row is 1, −2 and 1 |
| TestValues.FilledIsGenerated | matrix/test.cpp:333 | refilling gives the 3×3 matrix 1..9 |
| TestValues.FilledDeterminant | matrix/test.cpp:333-334 | the 3×3 matrix 1..9 has determinant 0, so the inverse refuses it with DeterminantZero |
| TestValues.FilledRefused | matrix/test.cpp:333-334 | that determinant is refused by the guard as written and by the intended one |

## Left out

- IEEE-754 doubles: elements are exact reals, so rounding, overflow to infinity and signed zero are not modelled (ZeroPivot has NaN and the infinities but no signed zero). The tests that compare within a tolerance are stated as exact values.
- Matrix.S21Matrix.Determinant: at an exactly zero pivot it returns 0 where the library divides by zero and yields NaN. This is the corrected behaviour of the first finding, and ZeroPivot models the behaviour as written.
- Matrix.GaussDeterminant: stops with 0 at an exactly zero pivot, where the library keeps dividing and yields NaN, as for Determinant.
- Matrix.EliminationStep: reports a zero pivot and skips the elimination, where the library divides by it, as for Determinant.
- Matrix.S21Matrix.CofactorAt: a minor of size 3 or more with a zero pivot gets determinant 0 here, where the library gets NaN.
- Matrix.S21Matrix.CalcComplements: a cofactor whose minor hits a zero pivot is 0 here and NaN in the library, as for CofactorAt.
- Matrix.S21Matrix.InverseMatrix: a matrix of size 3 or more with a zero pivot has determinant 0 here and is refused; in the library its determinant is NaN (first finding).
- Matrix.S21Matrix.InverseMatrix: the determinant is truncated to an unbounded integer; for |det| ≥ 2^31 the library's double-to-int conversion is undefined behaviour, which is not modelled.
- ZeroPivot.ZeroColumnAsWritten: the guard half is stated for the singularity test on the double (RefusedByDoubleAbs). With the library's integer abs, converting NaN to int is undefined behaviour, so what the guard as written does with NaN is not modelled.
- ZeroPivot.ZeroMatrixAsWritten: the guard half uses the same double test as ZeroColumnAsWritten, for the same reason.
- DetSpec.ClosedFormsAgree: the determinant for n ≥ 3 is the elimination as the library runs it. It is not proved equal to cofactor (Laplace) expansion, or multiplicative.
- DetSpec.InverseAt: the inverse is stated as adjugate over determinant, as computed. Product(m, Inverse(m)) == Identity is proved for 2×2 matrices only (DetSpec.InverseTwoByTwo), not for n ≥ 3.
- The `int` product rows*cols and the index arithmetic are unbounded here: 32-bit overflow for huge dimensions is out of scope.
- Raw memory: `new`, `delete[]` and `memcpy` become fresh Dafny arrays and whole-buffer copies. Reading through a null buffer with length 0 (the copy of a destroyed matrix) is harmless in the model.
- The exception classes and their message strings become the error kinds of `Errors.Error`.
- The gtest harness and `main`. `generate_elements` appears only as the value `TestValues.Generated`.
- The 4×4 determinant tests (values 18 and 30) and the 17×17 near-singular test are not proved. The latter depends on rounding in any case.
- TestValues.FilledRefused: in exact reals the 1..9 matrix has determinant 0. In doubles the elimination leaves a tiny nonzero value, which only the truncating guard as written refuses; rounding is not modelled.

## Findings

| source | as written | input that shows it | evidently intended | confidence | as-written member | corrected member |
|---|---|---|---|---|---|---|
| matrix/s21_methods.cpp:132-138 | the elimination divides by the pivot even when the pivot search found only zeros, so 0/0 gives NaN and every later value is NaN; a singularity test on the double, `abs(det) < 1e-100`, is false for NaN | any n×n matrix with n ≥ 3 and a zero first column, e.g. the default 3×3 zero matrix | determinant 0, so InverseMatrix refuses the matrix with DeterminantZero | not executed | ZeroPivot.ZeroColumnAsWritten | ZeroPivot.ZeroColumnCorrected |
| matrix/s21_methods.cpp:151 | with libstdc++, the unqualified `abs` resolves to `int abs(int)` (none of `<cstring>`, `<iostream>`, `<exception>`, `<string>` declares a global double overload; the test at matrix/test.cpp:333-334 relies on it), so the determinant is truncated toward zero before the comparison and every abs(det) < 1 is refused | diag(1, 0.5), with determinant 0.5, fails with DeterminantZero | refused only when abs(det) < 1e-100 | not executed | DetSpec.HalfRefusedAsWritten | Matrix.S21Matrix.InverseMatrixCorrected |
| s21_overload.cpp:30-36 | operator= destroys this before it reads other's counts and buffer, so a = a reads the already cleared counts | a = a on the default 3×3 matrix leaves a 0×0 matrix | a unchanged | not executed | Matrix.SelfAssignmentEmpties | Matrix.SelfAssignmentKeeps |
