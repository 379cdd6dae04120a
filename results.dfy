/** Option and Result values for lookups that may miss and for operations that fail. */
module Results {

  datatype Option<+T> = None | Some(value: T)

  /** `Ok` carries the value of a call that succeeded, `Err` the reason it aborted. */
  datatype Result<+T, +E> = Ok(value: T) | Err(error: E)
}
