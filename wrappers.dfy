/** Option and Result: the nullable configuration values and the
    construction errors of the sink. */
module Wrappers {

  /** A value that may be absent (`int?` / `long?` in the sink's configuration). */
  datatype Option<+T> = None | Some(value: T)

  /** The outcome of an operation that can fail with an error value. */
  datatype Result<+T, +E> = Ok(value: T) | Err(error: E)
}
