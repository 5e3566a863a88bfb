/** The `Result` type of the host language: a value or an error. */
module Results {

  datatype Result<+T, +E> = Ok(value: T) | Err(error: E)

}
