/** Option and Result, the two failure-carrying shapes the model needs. */
module Wrappers {

  /** A value that may be absent: Python's `Optional[...]` and `None`. */
  datatype Option<+T> = None | Some(value: T)

  /** The outcome of an operation that Python lets raise an exception. */
  datatype Result<+T, +E> = Ok(value: T) | Err(error: E)
}
