/** Option and Result, the usual failure-carrying datatypes. */
module Wrappers {

  /** A value that may be missing: the model of a `null` reference. */
  datatype Option<+T> = None | Some(value: T)

  /** The result of a call that either returns or throws. */
  datatype Result<+T, +E> = Success(value: T) | Failure(error: E)
}
