/** Failure-carrying wrappers used by the booking model. */
module Results {

  /** A value that may be absent (a null session entry, a FirstOrDefault miss). */
  datatype Option<+T> = None | Some(value: T)

  /** The outcome of a controller action: a value, or an error to report. */
  datatype Result<+T, +E> = Ok(value: T) | Err(error: E)
}
