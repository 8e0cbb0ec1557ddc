/** Failure-compatible wrappers used in place of exceptions and std::optional. */
module Wrappers {

  /** std::optional<T>: either no value or some value. */
  datatype Option<+T> = None | Some(value: T)

  /** The outcome of an operation that either produces a value or throws. */
  datatype Result<+R, +E> = Success(value: R) | Failure(error: E)
}
