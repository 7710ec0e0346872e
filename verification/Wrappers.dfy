/** Failure-compatible results, shared by the modules of the model. */
module Wrappers {

  /** The outcome of a contract call: `None` is a revert. */
  datatype Option<+T> = None | Some(value: T) {
    predicate IsFailure() {
      None?
    }

    function PropagateFailure<U>(): Option<U>
      requires None?
    {
      None
    }

    function Extract(): T
      requires Some?
    {
      value
    }
  }

  /** The outcome of an SDK call that may throw: `Failure` carries the message. */
  datatype Result<+T> = Success(value: T) | Failure(error: string)

  /** A `require`: passed, or reverting the whole call. */
  datatype Guard = Pass | Revert {
    predicate IsFailure() {
      Revert?
    }

    function PropagateFailure<U>(): Option<U>
      requires Revert?
    {
      None
    }
  }

  function Require(condition: bool): Guard {
    if condition then Pass else Revert
  }
}
