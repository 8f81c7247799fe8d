/** Failure-carrying values: an optional value, and the outcome of an operation
    that either succeeds with a value or fails with an error. */
module Results {

  /** A value that may be absent, like an optional JavaScript argument. */
  datatype Option<+T> = None | Some(value: T)

  /** Either a successful value or an error describing why there is none. */
  datatype Result<+T, +E> = Ok(value: T) | Err(error: E)
}
