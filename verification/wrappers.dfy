/** Failure-carrying datatypes used across the model: Go's `*T`-or-nil and
    `(value, error)` return pairs. */
module Wrappers {

  /** A value that may be absent (a Go pointer that may be nil). */
  datatype Option<+T> = None | Some(value: T)

  /** The outcome of a Go call returning `(value, err)`: either the value with a
      nil error, or a non-nil error. */
  datatype Result<+R, +E> = Success(value: R) | Failure(error: E)
}
