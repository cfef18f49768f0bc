/** Failure-carrying results shared by every component of the model: the
    source's exceptions and null returns become these values. */
module Wrappers {

  datatype Option<+T> = None | Some(value: T)

  datatype Result<+T, +E> = Ok(value: T) | Err(error: E)

  /** An operation that returns nothing but may fail. */
  datatype Outcome<+E> = Pass | Fail(error: E)
}
