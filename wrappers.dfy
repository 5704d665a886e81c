/** The fallible results of the modelled code: Rust's `Result<T, E>`. */
module Wrappers {

  datatype Result<+T, +E> = Ok(value: T) | Err(error: E)
}
