/** Failure-carrying result types shared by the other modules. */
module Wrappers {

  datatype Option<+T> = None | Some(value: T)

  /** A value or an error message, the shape of Go's `(T, error)` returns. */
  datatype Result<+T> = Ok(value: T) | Err(error: string)
}
