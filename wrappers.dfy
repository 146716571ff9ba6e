/** Option and Result, the two failure-carrying values the model uses for
    Rust's `Option` and for the operations that panic through `expect`. */
module Wrappers {

  datatype Option<+T> = None | Some(value: T)

  datatype Result<+T, +E> = Ok(value: T) | Err(error: E)
}
