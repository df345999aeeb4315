/** Option and Result wrappers shared by the model. */
module Wrappers {

  /** A value that may be absent (JavaScript's `null` / `undefined`). */
  datatype Option<+T> = None | Some(value: T)

  /** The outcome of a backend call: a value, or an error carrying its message. */
  datatype Result<+T> = Ok(value: T) | Err(message: string)
}
