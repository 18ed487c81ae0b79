/** Option and Result: the values an operation returns when it may fail. */
module Wrappers {

  datatype Option<+T> = None | Some(value: T)

  /** `Failure` carries what Python would raise. */
  datatype Result<+R, +E> = Success(value: R) | Failure(error: E)
}
