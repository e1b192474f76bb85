/** The wrappers used across the model: an optional value
    (a rate that may be undefined) and a result that may carry an error
    (a column lookup that may fail). */
module Wrappers {

  datatype Option<+T> = None | Some(value: T)

  datatype Result<+T, +E> = Success(value: T) | Failure(error: E)
}
