/** Failure-carrying values used in place of Go's nil pointers and error returns. */
module Wrappers {

  /** An optional value: Go's nil pointer is `None`. */
  datatype Option<+T> = None | Some(value: T)

  /** A value or an error, for Go functions that return `(T, error)`. */
  datatype Result<+T, +E> = Ok(value: T) | Err(error: E)
}
