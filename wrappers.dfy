/** Failure-carrying values used in place of the C++ exceptions and NULL pointers of the reader. */
module Wrappers {

  /** A value that may be absent: `None` stands for a NULL pointer. */
  datatype Option<+T> = None | Some(value: T)

  /** The result of an operation that returns a value or throws. */
  datatype Result<+T, +E> = Ok(value: T) | Err(error: E)

  /** The result of an operation that returns nothing or throws. */
  datatype Outcome<+E> = Pass | Fail(error: E)
}
