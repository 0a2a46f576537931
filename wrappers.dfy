/** Failure-compatible result types standing in for Python's exceptions. */
module Wrappers {

  datatype Option<+T> = None | Some(value: T)

  /** A computation that either returns a value or raises an error. */
  datatype Result<+R, +E> = Success(value: R) | Failure(error: E)

  /** A statement that either completes or raises an error. */
  datatype Outcome<+E> = Pass | Fail(error: E)
}
