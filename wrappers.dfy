/** Option and Result, the shapes Rust's `Option` and `Result` take in this model. */
module Wrappers {

  datatype Option<+T> = None | Some(value: T)

  /** A stream item: a decoded value, or an error the stream reported for that item. */
  datatype Result<+T> = Ok(value: T) | Err(message: string)
}
