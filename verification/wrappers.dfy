/** Optional values and results with an error, as the rest of the model uses them. */
module Wrappers {

  /** A value that may be absent (Python's `None`, a failed regex match, a missing dictionary entry). */
  datatype Option<+T> = None | Some(value: T)

  /** The outcome of a step that can raise: a value, or the error that aborts the script. */
  datatype Result<+T, +E> = Success(value: T) | Failure(error: E)
}
