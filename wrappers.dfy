/** Failure-carrying values used for the backend's replies and the switcher's error returns. */
module Wrappers {

  datatype Option<+T> = None | Some(value: T)

  /** A value or the error that prevented it (Go's `(T, error)` pair). */
  datatype Result<+R, +E> = Success(value: R) | Failure(error: E)

  /** Success without a value, or an error (a Go function returning only `error`). */
  datatype Outcome<+E> = Pass | Fail(error: E)
}
