/** Option and Result values for the model's "may be absent" and "throws" paths. */
module Wrappers {

  datatype Option<+T> = None | Some(value: T)

  /** A computation that either returns a value or throws (the message names the exception). */
  datatype Result<+T> = Ok(value: T) | Failure(error: string)
}
