/** Option and Result, the shapes in which the model reports that a call
    either returned a value or threw. */
module Wrappers {

  datatype Option<+T> = None | Some(value: T)

  datatype Result<+R, +E> = Success(value: R) | Failure(error: E)
}
