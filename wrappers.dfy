/** Option and Result values shared by the other modules. */
module Wrappers {

  /** A value that may be absent: JavaScript's `null` / `undefined`. */
  datatype Option<+T> = None | Some(value: T)

  /** A value, or the error that replaced it (a thrown exception or an error response). */
  datatype Result<+T, +E> = Success(value: T) | Failure(error: E)
}
