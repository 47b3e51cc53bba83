/** Option and Result values shared by the utility modules. */
module Wrappers {

  /** A value that may be absent; also stands for a pointer that may be null. */
  datatype Option<+T> = None | Some(value: T)

  /** The outcome of an operation that either succeeds with a value or fails with an error. */
  datatype Result<+R, +E> = Success(value: R) | Failure(error: E)
}
