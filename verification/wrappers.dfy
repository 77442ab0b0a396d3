/** Failure-carrying datatypes shared by the whole model. */
module Wrappers {

  /** A value that may be absent (Go's nil-able returns). */
  datatype Option<+T> = None | Some(value: T)

  /** A Go error value; only its message is observable to the loader. */
  datatype Error = Error(message: string)

  /** A Go `(T, error)` pair where the error decides which half is meaningful. */
  datatype Result<+T> = Ok(value: T) | Err(error: Error)
}
