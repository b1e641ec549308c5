/** Failure-carrying values shared by the modules of this model. */
module Results {

  /** A value that may be absent. */
  datatype Option<+T> = None | Some(value: T)

  /** A value, or the kind of exception the Python code would raise instead. */
  datatype Result<+T> = Ok(value: T) | Err(error: string)
}
