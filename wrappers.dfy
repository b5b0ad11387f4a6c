/** Failure-carrying results shared by every module of the model. */
module Wrappers {

  /** A value that may be missing: SQL NULL, a JavaScript `null`/`undefined`, or a failed lookup. */
  datatype Option<T> = None | Some(value: T)

  /** An HTTP-style answer: a value, or a status code with the error text sent back. */
  datatype Result<T> = Ok(value: T) | Err(status: nat, error: string)
}
