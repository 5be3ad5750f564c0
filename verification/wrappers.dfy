/** Optional values and results with an error message, used where the
    Python code returns None or raises an exception. */
module Wrappers {

  /** A value that may be absent (Python's `None`). */
  datatype Option<+T> = None | Some(value: T)

  /** The outcome of a computation that may raise: `Failure` carries the
      name of the exception the Python code would raise. */
  datatype Result<+T> = Success(value: T) | Failure(error: string)
}
