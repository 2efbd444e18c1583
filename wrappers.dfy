/** Small result types shared by both tables. */
module Wrappers {

  /** A value that may be missing: a lookup that finds nothing yields None. */
  datatype Option<+T> = None | Some(value: T)

  /** The one exception the tables throw: std::out_of_range("Key not in hash"). */
  datatype Error = OutOfRange

  /** A value or the exception raised in its place. */
  datatype Result<+T> = Ok(value: T) | Err(error: Error)
}
