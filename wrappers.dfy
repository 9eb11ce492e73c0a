/** Failure-carrying values: an absent value, and the outcome of a call that may throw. */
module Wrappers {

  /** A value that may be absent; also stands for JavaScript's `NaN` where a number could not be read. */
  datatype Option<+T> = None | Some(value: T)

  /** The outcome of a JavaScript call that either returns a value or throws an `Error` with a message. */
  datatype Result<+T> = Ok(value: T) | Err(message: string)
}
