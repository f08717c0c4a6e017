/** Wrappers shared by the model: an optional value and a success-or-error
    result. */
module Wrappers {

  /** A value that may be absent (`undefined` / `null` in the service). */
  datatype Option<+T> = None | Some(value: T)

  /** The outcome of an operation that either returns a value or throws. */
  datatype Result<+R, +E> = Success(value: R) | Failure(error: E)
}
