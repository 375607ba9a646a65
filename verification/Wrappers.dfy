/** The two result shapes shared by the models. */
module Wrappers {

  /** A nullable value: Go's nil pointer, Python's None. */
  datatype Option<+T> = None | Some(value: T)

  /** The outcome of an operation that may raise. */
  datatype Result<+T, +E> = Success(value: T) | Failure(error: E)
}
