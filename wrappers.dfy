/** The two failure-carrying datatypes the model uses in place of JavaScript's
    `undefined` and thrown exceptions. */
module Wrappers {

  /** A value that may be missing; `None` stands for JavaScript's `undefined`. */
  datatype Option<+T> = None | Some(value: T)

  /** The outcome of an operation that can throw: a value, or the reason it threw. */
  datatype Result<+R, +E> = Success(value: R) | Failure(error: E)
}
