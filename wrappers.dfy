/** Option and Result datatypes shared by the other modules. */
module Wrappers {

  /** A value that may be absent: a null cell of a table column. */
  datatype Option<+T> = None | Some(value: T)

  /** The outcome of an operation that either succeeds with a value or fails with an error. */
  datatype Result<+R, +E> = Success(value: R) | Failure(error: E)
}
