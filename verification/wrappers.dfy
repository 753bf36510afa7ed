/** Failure-carrying result types shared by the other modules. */
module Wrappers {

  /** A value that may be absent: a file that may not exist. */
  datatype Option<+T> = None | Some(value: T)

  /** The outcome of a call that may raise: a value, or the error it raised. */
  datatype Result<+T, +E> = Ok(value: T) | Err(error: E)
}
