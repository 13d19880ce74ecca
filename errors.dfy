/** Error kinds of the matrix library and the result types that carry them. */
module Errors {

  /** One constructor per exception class the library throws. */
  datatype Error =
    | DimensionMismatch   // SumMatrix / SubMatrix on matrices of different shape
    | ColumnRowMismatch   // MulMatrix when the left column count differs from the right row count
    | NonSquare           // Determinant / CalcComplements / InverseMatrix on a non-square matrix
    | DeterminantZero     // InverseMatrix when |det| is below the singularity threshold
    | IndexOutOfBounds    // a bad 1-based index, and also a dimension below 1 at construction or resize

  /** The outcome of an operation that returns a value or throws. */
  datatype Result<T> = Ok(value: T) | Err(error: Error)

  /** The outcome of an operation that returns nothing or throws. */
  datatype Outcome = Done | Failed(error: Error)
}
