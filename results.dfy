/** Option and Result values standing for Python's `None` and for the
    exceptions that the report builder lets escape. */
module Results {

  datatype Option<+T> = None | Some(value: T)

  datatype Result<+T, +E> = Ok(value: T) | Err(error: E)
}
