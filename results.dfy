/** Success and failure values standing for the exceptions thrown by the validator. */
module Results {

  /** A value that may be absent (`undefined` in the source's AST). */
  datatype Option<+T> = None | Some(value: T)

  /** A value, or the message of the `Error` that was thrown instead. */
  datatype Result<+T> = Ok(value: T) | Err(error: string)

  /** The outcome of a call that returns nothing on success. */
  datatype Outcome = Pass | Fail(error: string)
}
