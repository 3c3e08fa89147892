/** Optional values and results with an error, shared by the trace and byte modules. */
module Wrappers {

  /** A value that may be absent: Ruby's `nil` or a present value. */
  datatype Option<+T> = None | Some(value: T)

  /** The outcome of an operation that may raise: a value, or the error it raised. */
  datatype Result<+T, +E> = Ok(value: T) | Err(error: E)
}
