/** Option and Result: the model's stand-ins for `null`/`undefined` and for thrown exceptions. */
module Wrappers {

  /** A value that may be absent (`null` or `undefined` in the source). */
  datatype Option<+T> = None | Some(value: T)

  /** A computation that either returns a value or fails with an error (an exception in the source). */
  datatype Result<+T, +E> = Success(value: T) | Failure(error: E)
}
