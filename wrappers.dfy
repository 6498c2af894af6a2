/** Option and Result, the two failure-carrying shapes used across the model:
    Option for JavaScript's null/undefined and Java's Optional, Result for a
    value or a thrown error. */
module Wrappers {

  datatype Option<+T> = None | Some(value: T)

  datatype Result<+T, +E> = Ok(value: T) | Err(error: E)
}
