/** Option and Result, the two failure-carrying shapes the differ uses
    (Rust's `Option` and `io::Result`). */
module Wrappers {

  datatype Option<+T> = None | Some(value: T)

  datatype Result<+T, +E> = Ok(value: T) | Err(error: E)
}
