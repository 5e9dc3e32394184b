/** Success/failure values used in place of the JavaScript exceptions of the helpers. */
module Wrappers {

  datatype Option<+T> = None | Some(value: T)

  /** `Err` carries the message the source throws with `new Error(...)`. */
  datatype Result<+T> = Ok(value: T) | Err(error: string)
}
