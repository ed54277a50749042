/** Failure-compatible wrappers shared by every module of the model. */
module Common {

  /** A value that may be absent: a Go nil pointer, a missing map key, a failed lookup. */
  datatype Option<+T> = None | Some(value: T)

  /** The `(value, error)` pair Go functions return, with the error message kept verbatim. */
  datatype Result<+T> = Ok(value: T) | Err(message: string)
}
