/** Failure-carrying datatypes shared by the modules of the keyfix model. */
module Results {

  /** An optional value: the model's stand-in for a Rust `Option`. */
  datatype Option<+T> = None | Some(value: T)

  /** A value or an error: the model's stand-in for a Rust `Result`. */
  datatype Result<+T, +E> = Ok(value: T) | Err(error: E)
}
