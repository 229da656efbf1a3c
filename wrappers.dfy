/** Option and Result, the two failure-carrying types of the modelled Rust code. */
module Wrappers {

  datatype Option<T> = None | Some(value: T)

  /** `Result<T, E>`: a value, or the reason there is none. */
  datatype Result<T, E> = Ok(value: T) | Err(error: E)
}
