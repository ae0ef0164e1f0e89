/** Optional values and Go's `(value, error)` results. */
module Wrappers {

  datatype Option<+T> = None | Some(value: T)

  /** A Go function that returns `(T, error)` either succeeds or fails with an error message. */
  datatype Result<+T> = Ok(value: T) | Err(error: string)
}
