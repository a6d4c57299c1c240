/** Optional values and results with an error value, for Python's `None` and raised exceptions. */
module Wrappers {

  /** A Python value that may be `None`. */
  datatype Option<+T> = None | Some(value: T)

  /** The outcome of an operation that either returns a value or raises. */
  datatype Result<+R, +E> = Ok(value: R) | Err(error: E)
}
