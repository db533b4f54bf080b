/** Success/failure wrappers shared by the whole model. */
module Results {

  datatype Option<+T> = None | Some(value: T)

  /** The outcome of an operation that the Python code may abort with an exception. */
  datatype Result<+T, +E> = Ok(value: T) | Err(error: E)
}
