/** Optional values and error results shared by every stage of the pipeline. */
module Wrappers {

  /** A value that may be missing: Python's `None` or a failed `float(...)` parse. */
  datatype Option<+T> = None | Some(value: T)

  /** The outcome of a step that can raise: a value, or the error it raised. */
  datatype Result<+T, +E> = Success(value: T) | Failure(error: E)
}
