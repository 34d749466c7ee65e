/** Option and Result values for the error returns of the modelled code. */
module Results {

  datatype Option<+T> = None | Some(value: T)

  /** The `Result<T, E>` of the source: a success value or an error. */
  datatype Result<+T, +E> = Ok(value: T) | Err(error: E)
}
