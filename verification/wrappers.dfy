/** Optional values and success/failure outcomes. */
module Wrappers {

  /** An absent or present value; `None` plays the part of Java's `null`. */
  datatype Option<+T> = None | Some(value: T)

  /** The outcome of a step that may abort with an error. */
  datatype Result<+T, +E> = Success(value: T) | Failure(error: E)
}
