/** Failure-compatible wrappers used throughout the model: a nullable value,
    a value-or-exception, and a pass-or-exception outcome. */
module Wrappers {

  /** A C# nullable (`T?`): `None` stands for `null`. */
  datatype Option<+T> = None | Some(value: T)

  /** The value an operation returns, or the exception it throws. */
  datatype Result<+T, +E> = Ok(value: T) | Err(error: E)

  /** Normal completion of a `void` operation, or the exception it throws. */
  datatype Outcome<+E> = Pass | Fail(error: E)
}
