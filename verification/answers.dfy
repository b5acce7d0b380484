/**
  Outcomes of calls into the host (name lookups, file reads) and optional values.
  A failed call carries the host's error text, as Go's `error.Error()` would print it.
 */
module Answers {

  /** The outcome of a host call: a value, or the error text the host reported. */
  datatype Answer<+T> = Ok(value: T) | Err(message: string)

  /** A value that may be absent: the 4-byte form of an address, or a CSV field read back as a boolean. */
  datatype Option<+T> = None | Some(value: T)
}
