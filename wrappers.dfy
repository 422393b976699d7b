/** Optional values and results with an error, used across the model. */
module Wrappers {

  /** A value that may be absent (`undefined` / `NaN` in the repository). */
  datatype Option<+T> = None | Some(value: T)

  /** The outcome of an operation that may throw. */
  datatype Result<+T, +E> = Success(value: T) | Failure(error: E)
}
