/** Optional values and results with an error, used across the model. */
module Options {

  /** A value that may be absent; `None` plays the part of JavaScript's `undefined`. */
  datatype Option<+T> = None | Some(value: T)

  /** The outcome of an operation that can fail; `Err` carries what went wrong. */
  datatype Result<+T, +E> = Ok(value: T) | Err(error: E)
}
