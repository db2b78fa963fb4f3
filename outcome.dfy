/** Optional values and results with an error message, shared by the other modules. */
module Outcome {

  /** A value that may be missing: a record that was not found, a field that is absent. */
  datatype Option<+T> = None | Some(value: T)

  /** The outcome of a server action: a value, or the message of the error it throws. */
  datatype Result<+T> = Ok(value: T) | Err(message: string)
}
