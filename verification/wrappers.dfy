/** Option and Result values for lookups that may miss and operations that may fail. */
module Wrappers {

  datatype Option<+T> = None | Some(value: T)

  /** A computation that either yields a value or fails with a described error. */
  datatype Result<+T> = Ok(value: T) | Err(error: string)
}
