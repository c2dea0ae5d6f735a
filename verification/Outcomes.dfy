/** How a modelled Go call ends. */
module Outcomes {

  /** A Go function returns a value, returns an error, or panics (an index or a
      slice bound out of range). The type is failure-compatible, so `:-` plays
      the part of `if err != nil { return err }` and also carries panics up. */
  datatype Outcome<+T, +E> = Ok(value: T) | Err(error: E) | Panic {
    predicate IsFailure() {
      !Ok?
    }

    function PropagateFailure<U>(): Outcome<U, E>
      requires IsFailure()
    {
      match this
      case Err(e) => Err(e)
      case Panic => Panic
    }

    function Extract(): T
      requires !IsFailure()
    {
      value
    }
  }

  datatype Option<+T> = None | Some(value: T)
}
