/** The outcome of an operation of the plugin that may throw. */
module Results {

  /** Either the value the operation returns or the message of the Error it throws. */
  datatype Result<T> = Ok(value: T) | Err(error: string)
}
