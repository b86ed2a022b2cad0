/** Option and Result, used for the bot's "not found" lookups and its error replies. */
module Wrappers {

  datatype Option<+T> = None | Some(value: T)

  /** `Err` carries the reply the bot sends instead of doing the command. */
  datatype Result<+T, +E> = Ok(value: T) | Err(error: E)
}
