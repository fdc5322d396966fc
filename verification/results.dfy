/** The two sum types the front-end returns: Rust's `Result` and `Option`. */
module Results {

  /** `Result<T, E>`: a value or an error. */
  datatype Result<+T, +E> = Ok(value: T) | Err(error: E)

  /** `Option<T>`: a value or nothing. */
  datatype Option<+T> = None | Some(value: T)
}
