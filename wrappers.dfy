/** Option and Result, the two outcome types the parser's library calls return. */
module Wrappers {

  /** What `from_str_radix` returns once its error detail is dropped. */
  datatype Option<+T> = None | Some(value: T)

  /** Rust's `Result<T, E>`. */
  datatype Result<+T, +E> = Ok(value: T) | Err(error: E)
}
