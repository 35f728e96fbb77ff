/** Failure-carrying values: the configuration loader throws on the first bad
    key; here every operation that can throw returns a Result instead. */
module Results {

  datatype Option<+T> = None | Some(value: T)

  datatype Result<+T, +E> = Ok(value: T) | Err(error: E)
}
