/** Failure-carrying datatypes shared by the rest of the model. */
module Wrappers {

  /** A value that may be absent: Go's nil pointer, or a library call that failed. */
  datatype Option<+T> = None | Some(value: T)

  /** A value or the error that prevented it, as in Go's `(T, error)` pairs. */
  datatype Result<+T, +E> = Ok(value: T) | Err(error: E)
}
