/** The outcome of an operation that can fail, after Rust's `Result<T, E>`. */
module Wrappers {

  datatype Result<+T, +E> = Ok(value: T) | Err(error: E)

}
