/** Optional values and results with an error, as used across the pipeline. */
module Wrappers {

  /** A value that may be absent (Python's `None`). */
  datatype Option<+T> = None | Some(value: T)

  /** The outcome of an operation that may raise an error instead of returning. */
  datatype Result<+T, +E> = Success(value: T) | Failure(error: E)
}
