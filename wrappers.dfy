/** Failure-carrying values shared by the modules of this model. */
module Wrappers {

  /** A value that may be absent (Go's nil). */
  datatype Option<T> = None | Some(value: T)

  /** The result of an operation that can fail with a Go `error`. */
  datatype Result<T, E> = Ok(value: T) | Err(error: E)
}
