/** The two failure-carrying shapes the formatter needs. */
module Outcomes {

  /** `Some(v)` for a value that is present, `None` for JavaScript's `undefined`. */
  datatype Option<+T> = None | Some(value: T)

  /** `Success(v)` for a value computed, `Failure(e)` for an exception thrown. */
  datatype Result<+T, +E> = Success(value: T) | Failure(error: E)
}
