/** Failure-compatible wrappers used across the model. */
module Wrappers {

  /** A value that may be missing; `None` also stands for a NaN spreadsheet cell. */
  datatype Option<+T> = None | Some(value: T)

  /** The outcome of an operation that may raise. */
  datatype Result<+R, +E> = Success(value: R) | Failure(error: E)
}
