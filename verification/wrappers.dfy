/**
 * Small failure-carrying datatypes shared by the modules of this project.
 */
module Wrappers {

  /** A value that may be absent: an aggregator file that may not exist, a match that may fail. */
  datatype Option<+T> = None | Some(value: T)

  /** Either a value or the error that prevented computing it. */
  datatype Result<+T, +E> = Success(value: T) | Failure(error: E)
}
