/** The `Option` and `Result` datatypes shared by every module of the model. */
module Wrappers {

  /** A value that may be absent: Go's nil map, nil error or missing line. */
  datatype Option<+T> = None | Some(value: T)

  /** The outcome of an operation that either produces a value or fails. */
  datatype Result<+R, +E> = Success(value: R) | Failure(error: E)
}
