/** Option and Result values used in place of Python's `None` and `error(...)`. */
module Wrappers {

  /** A value or its absence (`None` in Python). */
  datatype Option<T> = None | Some(value: T)

  /** A value or the failure that `error(...)` would have reported. */
  datatype Result<T, E> = Ok(value: T) | Err(error: E)
}
