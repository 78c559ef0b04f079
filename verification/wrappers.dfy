/** Failure-carrying wrappers: `Option` for the scripts' `None` returns,
    `Result` for the places where Python raises an exception. */
module Wrappers {

  datatype Option<+T> = None | Some(value: T)

  datatype Result<+T, +E> = Success(value: T) | Failure(error: E)
}
