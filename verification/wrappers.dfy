/** Option and Result types used for the source's exceptions and missing values. */
module Wrappers {

  /** A value that may be absent: a missing dictionary key, a NULL column, a failed decode. */
  datatype Option<+T> = None | Some(value: T)

  /** The outcome of an operation that can raise: `Failure` carries the reason. */
  datatype Result<+T, +E> = Success(value: T) | Failure(error: E)
}
