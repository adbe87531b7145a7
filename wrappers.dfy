/** Stock failure-carrying datatypes shared by the other modules. */
module Wrappers {

  /** A value that may be missing: a SQL NULL, a C# null reference or an absent row. */
  datatype Option<+T> = None | Some(value: T)

  /** The result of an operation that returns nothing but may throw. */
  datatype Outcome<+E> = Pass | Fail(error: E)

  /** The result of an operation that returns a value or throws. */
  datatype Result<+T, +E> = Ok(value: T) | Err(error: E)
}
