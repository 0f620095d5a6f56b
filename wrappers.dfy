/** Missing values and error returns. */
module Wrappers {

  /** A cell that may be missing (pandas NaN / None). */
  datatype Option<+T> = None | Some(value: T)

  /** The value of an operation that either succeeds or raises. */
  datatype Result<+R, +E> = Success(value: R) | Failure(error: E)
}
