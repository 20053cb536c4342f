/** Absence and error values, standing in for the scripts' sentinel indices and raised exceptions. */
module Wrappers {

  /** A value that may be absent, in place of the scripts' sentinel indices. */
  datatype Option<+T> = None | Some(value: T)

  /** Either a value or the error the script would raise. */
  datatype Result<+R, +E> = Success(value: R) | Failure(error: E)
}
