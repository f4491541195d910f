/** Optional values and results used throughout the model. */
module Wrappers {

  /** Python's `None` versus a present value. */
  datatype Option<+T> = None | Some(value: T)

  /** An operation that either yields a value or fails with a message (a Python exception). */
  datatype Result<+T> = Success(value: T) | Failure(error: string)
}
