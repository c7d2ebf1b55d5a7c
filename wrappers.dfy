/** Option and Result, the two shapes every reply and lookup of the place store takes. */
module Wrappers {

  datatype Option<+T> = None | Some(value: T)

  /** The outcome of a call that either yields a value or fails with a message. */
  datatype Result<+T> = Ok(value: T) | Err(error: string)
}
