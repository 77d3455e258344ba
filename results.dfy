/** The outcome of an operation that can raise: its value, or the reason it failed. */
module Results {
  datatype Result<T> = Ok(value: T) | Err(reason: string)
}
