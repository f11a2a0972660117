/** Rust's `Option` and a string-error `Result`, as used by the directory and the protocol. */
module Wrappers {

  datatype Option<+T> = None | Some(value: T)

  /** Outcome of validating a request: the decoded value, or the reason it was refused. */
  datatype Result<+T> = Ok(value: T) | Err(error: string)
}
