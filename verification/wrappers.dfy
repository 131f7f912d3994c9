/** Option and Result, the failure-carrying values the engines return. */
module Wrappers {

  /** A value that may be absent: the model of a `null` / `undefined` result. */
  datatype Option<+T> = None | Some(value: T)

  /** The outcome of an operation that can fail with an error instead of throwing. */
  datatype Result<+R, +E> = Success(value: R) | Failure(error: E)
}
