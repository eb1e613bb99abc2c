/** Optional values and store results. */
module Wrappers {

  /** A value that may be absent: a nil Go pointer is `None`. */
  datatype Option<+T> = None | Some(value: T)

  /** The (value, error) pair a store call returns. */
  datatype Result<+T, +E> = Ok(value: T) | Err(error: E)
}
