/** Result types shared by the models. */
module Outcomes {

  datatype Option<+T> = None | Some(value: T)

  /** What a Go call can do: return a value, return a non-nil error, or panic
      (an invalid slice expression). Failure-compatible, so `:-` propagates. */
  datatype Outcome<+T> = Ok(value: T) | Err | Panic {

    predicate IsFailure() { !Ok? }

    function PropagateFailure<U>(): Outcome<U>
      requires IsFailure()
    {
      if Panic? then Panic else Err
    }

    function Extract(): T
      requires Ok?
    {
      value
    }
  }
}
