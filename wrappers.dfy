/** `Option` and `Result`, shared by the other modules. */
module Wrappers {

  /** A value that may be absent, as a null reference is in C#. */
  datatype Option<+T> = None | Some(value: T)

  /** The outcome of an operation that either returns a value or throws. */
  datatype Result<+R, +E> = Success(value: R) | Failure(error: E)
}
