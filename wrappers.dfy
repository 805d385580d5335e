/** Option and Result, the shapes every partial operation of the model returns
    in place of Python's None and raised exceptions. */
module Wrappers {

  datatype Option<+T> = None | Some(value: T)

  datatype Result<+R, +E> = Success(value: R) | Failure(error: E)
}
