/** Optional values and results with an error, as used throughout the model. */
module Wrappers {

  /** A value that may be absent: Python's `None` or an actual value. */
  datatype Option<+T> = None | Some(value: T)

  /** The outcome of a step that can raise: a value, or the error it raised. */
  datatype Result<+T, +E> = Success(value: T) | Failure(error: E)
}
