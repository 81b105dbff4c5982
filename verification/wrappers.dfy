/** Option and Result, the two ways an operation of the task manager reports
    that it has nothing to give back: a Java `null` becomes `None`, an
    exception that escapes to the caller becomes `Err`. */
module Wrappers {

  /** A value that may be absent (a nullable reference). */
  datatype Option<+T> = None | Some(value: T)

  /** A value, or the error an exception would have carried instead. */
  datatype Result<+T, +E> = Ok(value: T) | Err(error: E)
}
