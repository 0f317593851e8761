/** Failure-carrying results: `null`/`undefined` and thrown errors of the library become these. */
module Wrappers {

  datatype Option<+T> = None | Some(value: T)

  datatype Result<+T, +E> = Ok(value: T) | Err(error: E)
}
