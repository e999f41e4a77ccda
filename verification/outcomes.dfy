/** Success-or-error values for the decoders. */
module Outcomes {

  /** A decoded value, or the reason decoding failed. */
  datatype Result<T, E> = Ok(value: T) | Err(error: E)

  /** A value that may be absent. */
  datatype Option<T> = None | Some(value: T)
}
