/** Failure-carrying result types shared by the model. */
module Wrappers {

  /** A value that may be absent (Python's None). */
  datatype Option<+T> = None | Some(value: T)

  /** A value or the error a service operation raised instead. */
  datatype Result<+T, +E> = Success(value: T) | Failure(error: E)

  /** An operation that returns nothing, or the error it raised. */
  datatype Outcome<+E> = Pass | Fail(error: E)
}
