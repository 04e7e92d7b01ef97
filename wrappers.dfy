/** Optional values and results with an error, standing for Python's `None` and for raised exceptions. */
module Wrappers {

  /** A value that may be absent (Python's `None`). */
  datatype Option<+T> = None | Some(value: T)

  /** The outcome of a computation that may raise instead of returning. */
  datatype Result<+T, +E> = Ok(value: T) | Err(error: E)
}
