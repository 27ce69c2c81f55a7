/** The two result shapes the Rust code returns: `Option` and `Result`. */
module Results {
  datatype Option<T> = None | Some(value: T)

  datatype Result<T, E> = Ok(value: T) | Err(error: E)
}
