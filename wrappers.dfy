/** Java's null and thrown exceptions, as values. */
module Wrappers {

  /** A value or Java's null. */
  datatype Option<+T> = None | Some(value: T)

  /** A normal return, or an exception carrying an error. */
  datatype Result<+T, +E> = Ok(value: T) | Err(error: E)
}
