/**
 * General wrappers: an optional value, the result of an operation that
 * returns a value or fails, and the outcome of one that only succeeds or fails.
 */
module Wrappers {

  /** `None` stands where the source stores Python's `None`. */
  datatype Option<+T> = None | Some(value: T)

  datatype Result<+T, +E> = Success(value: T) | Failure(error: E)

  datatype Outcome<+E> = Pass | Fail(error: E)
}
