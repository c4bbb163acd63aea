/** Failure-compatible result types shared by every module of the model. */
module Wrappers {

  /** A value that may be absent (JavaScript's `undefined`, `-1` from `indexOf`, a regex that did not match). */
  datatype Option<+T> = None | Some(value: T)

  /** The outcome of an operation that may throw: `Failure` carries the thrown message. */
  datatype Result<+T, +E> = Success(value: T) | Failure(error: E)
}
