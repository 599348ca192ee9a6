/** Failure-carrying datatypes shared by every module of the model. */
module Wrappers {

  /** A value that may be absent: JavaScript `null`/`undefined`, or an optional field. */
  datatype Option<+T> = None | Some(value: T)

  /** The outcome of an operation that may fail with a message (a Go `error`). */
  datatype Result<+T> = Ok(value: T) | Err(error: string)
}
