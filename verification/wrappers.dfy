/** Option and Result, shared by the rest of the model. */
module Wrappers {

  /** A value that may be absent: a missing cell, a reader that raised, a search that found nothing. */
  datatype Option<+T> = None | Some(value: T)

  /** The outcome of an operation that either produces a value or raises. */
  datatype Result<+R, +E> = Success(value: R) | Failure(error: E)
}
