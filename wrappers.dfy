/** Option and Result types shared by the modules of this model. */
module Wrappers {

  datatype Option<+T> = None | Some(value: T)

  /** The outcome of an operation that the source lets throw: `Failure` stands for the exception. */
  datatype Result<+T, +E> = Success(value: T) | Failure(error: E)
}
