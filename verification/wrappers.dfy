/** A cell that may be null, and an operation that may raise. */
module Wrappers {

  /** A value that may be missing; `None` is the table's null marker. */
  datatype Option<+T> = None | Some(value: T)

  /** The outcome of an operation that either produces a value or raises an error. */
  datatype Result<+R, +E> = Success(value: R) | Failure(error: E)
}
