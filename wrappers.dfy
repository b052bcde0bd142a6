/** Results and options shared by the modules of the model.

    The Python program signals failure by raising exceptions; the model returns
    a `Result` whose `Failure` case names the exception class that would have
    been raised.
 */
module Wrappers {

  /** The Python exception classes raised by the modelled code. */
  datatype Error = ValueError | IndexError

  datatype Option<+T> = None | Some(value: T)

  datatype Result<+T> = Success(value: T) | Failure(error: Error) {

    predicate IsFailure() {
      Failure?
    }

    function PropagateFailure<U>(): Result<U>
      requires Failure?
    {
      Failure(error)
    }

    function Extract(): T
      requires Success?
    {
      value
    }
  }

  /** The outcome of an operation that returns nothing on success. */
  datatype Outcome = Pass | Fail(error: Error)
}
