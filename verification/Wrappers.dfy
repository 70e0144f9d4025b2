/** The two result types that the rest of the model shares. */
module Wrappers {
  datatype Option<+T> = None | Some(value: T)

  /** The error variants of `OrkiaError` that the modelled code returns. */
  datatype Error = Invalid | Conflict | NotFound | Integrity | Policy | External

  datatype Result<+T> = Ok(value: T) | Err(error: Error)
}
