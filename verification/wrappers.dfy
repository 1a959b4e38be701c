/** Optional values and results shared by the three timer engines. */
module Wrappers {

  /** A value that may be absent, as a nil pointer or a missing map entry is in the source. */
  datatype Option<T> = None | Some(value: T)

  /** A value or an error, as a Go function returning `(T, error)`. */
  datatype Result<T, E> = Ok(value: T) | Err(error: E)
}
