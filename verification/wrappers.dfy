/** Failure-carrying return values shared by every module of the model. */
module Wrappers {

  /** A value that may be absent: the model's stand-in for a null pointer or `None`. */
  datatype Option<+T> = None | Some(value: T)

  /** The outcome of an operation that can fail: `Ok` carries the result, `Err` the reason. */
  datatype Result<+T, +E> = Ok(value: T) | Err(error: E)
}
