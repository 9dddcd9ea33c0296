/** The optional value and the result-or-error used where the Java code returns `null` or throws. */
module Wrappers {
  datatype Option<+T> = None | Some(value: T)

  datatype Result<+T, +E> = Ok(value: T) | Err(error: E)
}
