/** `Option` for a pointer that may be `NULL`, `Result` for an operation
    that returns an error code. */
module Wrappers {

  datatype Option<+T> = None | Some(value: T)

  datatype Result<+R, +E> = Success(value: R) | Failure(error: E)
}
