/** Wrappers for lookups that may miss and for operations that the
    application reports as errors. */
module Wrappers {

  /** A value that may be absent (JavaScript `null` / `undefined`). */
  datatype Option<+T> = None | Some(value: T) {
    function GetOr(default: T): T {
      match this
      case Some(v) => v
      case None => default
    }
  }

  /** The outcome of an operation that either succeeds with a value or is
      rejected with an error (a thrown exception or an alert in the app). */
  datatype Result<+R, +E> = Success(value: R) | Failure(error: E)
}
