/** Failure-compatible result types shared by the models: Python's `None`
    returns become `Option`, raised errors become `Result`. */
module Wrappers {

  datatype Option<+T> = None | Some(value: T)

  datatype Result<+R, +E> = Success(value: R) | Failure(error: E)
}
