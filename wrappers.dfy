/** Option and Result values used for nullable columns and for the error paths of the commands. */
module Wrappers {

  /** A value that may be absent (a SQL NULL). */
  datatype Option<+T> = None | Some(value: T)

  /** The outcome of an operation that can fail with an error value. */
  datatype Result<+T, +E> = Success(value: T) | Failure(error: E)
}
