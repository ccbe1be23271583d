/** Option and Result, the two failure-carrying values the model uses. */
module Wrappers {

  datatype Option<+T> = None | Some(value: T)

  /** The outcome of a computation that may throw: a value or the exception's message. */
  datatype Result<+R> = Success(value: R) | Failure(message: string)
}
