/** Failure-carrying result type used to model Python's raised exceptions
    as ordinary return values. */
module Wrappers {

  /** Either the value an operation returns, or the error it raises. */
  datatype Result<+T, +E> = Success(value: T) | Failure(error: E)

  /** Either nothing, or one value. */
  datatype Option<+T> = None | Some(value: T)
}
