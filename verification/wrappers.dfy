/** Option and Result types shared by every module of the model. */
module Wrappers {

  /** A JavaScript value that may be `undefined`/`null` (None) or present. */
  datatype Option<+T> = None | Some(value: T)

  /** The outcome of a repository call: a value, or the message of the
      `Error` it throws. */
  datatype Result<+T> = Ok(value: T) | Err(message: string)
}
