/** Option and Result values shared by the schema-change and expression models. */
module Wrappers {

  /** A value that may be absent (a Go nil pointer or a "not found"). */
  datatype Option<+T> = None | Some(value: T)

  /** The outcome of an operation that can fail with an error of type E. */
  datatype Result<+T, +E> = Ok(value: T) | Err(error: E)
}
