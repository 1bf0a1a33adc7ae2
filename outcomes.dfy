/** Optional values and success-or-failure results, used for the nullable
    columns of a movie and for the error paths of the request handlers. */
module Outcomes {

  /** A value that may be absent (Python's `None`, SQL's `NULL`). */
  datatype Option<+T> = None | Some(value: T)

  /** The outcome of an operation that yields a value or fails. */
  datatype Result<+R, +E> = Success(value: R) | Failure(error: E)

  /** The outcome of an operation that yields nothing or fails. */
  datatype Outcome<+E> = Pass | Fail(error: E)
}
