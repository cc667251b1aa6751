/** Option and Result types for missing values and for the errors the pipeline raises. */
module Wrappers {

  /** A cell that may be empty (pandas NaN). */
  datatype Option<+T> = None | Some(value: T)

  /** The outcome of an operation that can raise. */
  datatype Result<+T, +E> = Ok(value: T) | Err(error: E)
}
