/** Failure-carrying result types used by every operation of the model. */
module Wrappers {

  datatype Option<+T> = None | Some(value: T)

  /** The outcome of a host call: a value, or the reason the call aborted. */
  datatype Result<+T, +E> = Success(value: T) | Failure(error: E)
}
