/** Failure-carrying result types shared by the parser modules. */
module Wrappers {

  /** A value that may be absent; `None` stands for JavaScript's `NaN` where a number is expected. */
  datatype Option<+T> = None | Some(value: T)

  /** The outcome of an operation that either produces a value or fails with an error. */
  datatype Result<+R, +E> = Success(value: R) | Failure(error: E)
}
