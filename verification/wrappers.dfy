/** Failure-carrying values: a loader result that may be absent, and the
    outcome of a run that may stop with an error. */
module Wrappers {

  /** A value that may be missing, as a Python function returning `None` on failure. */
  datatype Option<+T> = None | Some(value: T)

  /** The outcome of a step that either produces a value or stops with an error. */
  datatype Result<+R, +E> = Success(value: R) | Failure(error: E)
}
