/** Failure-carrying values: Go's `(T, error)` and bare `error` returns. */
module Wrappers {

  /** `None` stands for a nil error, `Some(e)` for a returned error. */
  datatype Option<+T> = None | Some(value: T)

  /** A value together with a nil error, or a non-nil error and no value. */
  datatype Result<+T, +E> = Ok(value: T) | Err(error: E)
}
