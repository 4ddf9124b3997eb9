/** Failure-carrying wrappers used throughout the model. */
module Wrappers {

  /** A value that may be absent: a regex that did not match, a search that found nothing. */
  datatype Option<+T> = None | Some(value: T)

  /** The outcome of an operation that can throw: the value, or the error it raises. */
  datatype Result<+R, +E> = Success(value: R) | Failure(error: E)
}
