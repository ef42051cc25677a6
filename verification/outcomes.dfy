/** Python's `None`-or-value and raised-exception-or-value, as datatypes. */
module Outcomes {

  datatype Option<+T> = None | Some(value: T)

  /** The exception kinds the modelled code can raise. */
  datatype PyError = IndexError | AttributeError | TypeError | ValueError

  /** A computation that either returns a value or raises. Failure-compatible, so `:-` propagates errors. */
  datatype Result<+T> = Ok(value: T) | Err(error: PyError) {

    predicate IsFailure() {
      Err?
    }

    function PropagateFailure<U>(): Result<U>
      requires Err?
    {
      Err(error)
    }

    function Extract(): T
      requires Ok?
    {
      value
    }

    /** The exception raised, if any. */
    function Failure(): Option<PyError> {
      if Err? then Some(error) else None
    }
  }
}
