module Wrappers {

  datatype Option<+T> = None | Some(value: T)

  datatype Result<+T, +E> = Ok(value: T) | Err(error: E) {
    predicate IsFailure() {
      Err?
    }

    function PropagateFailure<U>(): Result<U, E>
      requires Err?
    {
      Err(error)
    }

    function Extract(): T
      requires Ok?
    {
      value
    }
  }

  /**
   How a call of the hive builder ends. `NeverReturns` stands for the allocation that extends the
   hive and retries for ever; `TooLarge` for a hive that outgrows 32-bit offsets or 31-bit sizes.
   */
  datatype Outcome<+T> = Done(value: T) | NeverReturns | TooLarge {
    predicate IsFailure() {
      !Done?
    }

    function PropagateFailure<U>(): Outcome<U>
      requires !Done?
    {
      if NeverReturns? then NeverReturns else TooLarge
    }

    function Extract(): T
      requires Done?
    {
      value
    }
  }
}
