/** Failure-carrying datatypes shared by the blacklist store. */
module Results {

  /** An optional value, used for a record's optional `comment` field. */
  datatype Option<+T> = None | Some(value: T)

  /** The outcome of an operation that can raise: its value, or the error it raised. */
  datatype Result<+T, +E> = Ok(value: T) | Err(error: E)
}
