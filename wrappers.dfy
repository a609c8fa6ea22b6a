/** Option and Result, for the calls that return nothing on failure and the
    Python exceptions that end a unit of work. */
module Wrappers {

  datatype Option<+T> = None | Some(value: T)

  datatype Result<+T, +E> = Success(value: T) | Failure(error: E)
}
