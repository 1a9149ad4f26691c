/** Option and Result, the two failure-carrying wrappers the model uses. */
module Wrappers {

  datatype Option<+T> = None | Some(value: T)

  /** `Result<T, E>` of the generated `try_reconstruct`, and the outcome of a derive. */
  datatype Result<+T, +E> = Ok(value: T) | Err(error: E)
}
