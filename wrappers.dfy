/** Option and Result types shared by the other modules. */
module Wrappers {

  datatype Option<+T> = None | Some(value: T)

  /** The outcome of a computation that may raise instead of returning a value. */
  datatype Result<+R, +E> = Success(value: R) | Failure(error: E)
}
