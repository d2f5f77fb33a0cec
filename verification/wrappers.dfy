/** Option and Result, the shapes in which the model reports absence and
    failure instead of raising. */
module Wrappers {

  datatype Option<+T> = None | Some(value: T)

  /** Either the value a computation produced or the error that stopped it. */
  datatype Result<+R, +E> = Success(value: R) | Failure(error: E)
}
