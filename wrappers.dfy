/** Optional values and results with an error, shared by the other modules. */
module Wrappers {

  /** A value that may be absent: JavaScript's `null` / `undefined`. */
  datatype Option<+T> = None | Some(value: T)

  /** The outcome of a validation: the parsed value or the issues found. */
  datatype Result<+R, +E> = Success(value: R) | Failure(error: E)
}
