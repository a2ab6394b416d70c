/** Optional values and throwing results, standing in for Swift's `Optional` and `throws`. */
module Wrappers {

  /** Swift's `Optional`: `nil` is `None`. */
  datatype Option<+T> = None | Some(value: T)

  /** The outcome of a throwing call: the returned value or the thrown error. */
  datatype Result<+R, +E> = Success(value: R) | Failure(error: E) {
    predicate IsFailure() { Failure? }

    function PropagateFailure<U>(): Result<U, E>
      requires Failure?
    {
      Failure(error)
    }

    function Extract(): R
      requires Success?
    {
      value
    }
  }
}
