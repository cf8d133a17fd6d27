/** Option and Result, used throughout the model: Java's `null`
    becomes `None`, and an exception a caller sees becomes `Failure`. */
module Wrappers {

  datatype Option<+T> = None | Some(value: T)

  datatype Result<+R, +E> = Success(value: R) | Failure(error: E)
}
