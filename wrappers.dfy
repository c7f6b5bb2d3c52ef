/** Option and Result, the two failure-carrying types the program uses everywhere. */
module Wrappers {

  datatype Option<+T> = None | Some(value: T)

  /** Rust's `Result<T, String>`. */
  datatype Result<+T> = Ok(value: T) | Err(error: string)

  /** The unit value `()`, so that `Result<()>` reads as in the program. */
  datatype Unit = Unit
}
