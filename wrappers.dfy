/** Failure-carrying results shared by the utility modules. */
module Wrappers {

  datatype Option<+T> = None | Some(value: T)

  /** The outcome of an operation that throws in the library: either a value
      or the error it raises. */
  datatype Result<+T, +E> = Ok(value: T) | Err(error: E)
}
