/** Failure-carrying datatypes: JavaScript's `undefined` results and thrown errors are
    modelled as explicit values. */
module Wrappers {

  /** An optional value: `None` stands for JavaScript's `undefined`/`null`. */
  datatype Option<+T> = None | Some(value: T)

  /** The result of an operation that may throw in the source. */
  datatype Result<+R, +E> = Success(value: R) | Failure(error: E)

  /** The result of an operation run for its effect that may throw in the source. */
  datatype Outcome<+E> = Pass | Fail(error: E)
}
