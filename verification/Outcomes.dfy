/** Result types shared by the whole model.

    A command can end in three ways: it returns success, it returns an error, or the
    CLI process is killed by a termination signal while it runs. In the last case no
    Rust destructor and no cleanup code runs, so `Interrupted` has to travel to the
    top untouched; every branch that handles `Err` hands `Interrupted` on.
 */
module Outcomes {

  datatype Option<+T> = None | Some(value: T)

  /** How a command or one of its parts ended. */
  datatype Outcome<+T> = Ok(value: T) | Err | Interrupted {
    predicate IsFailure() {
      !Ok?
    }

    function PropagateFailure<U>(): Outcome<U>
      requires !Ok?
    {
      if Err? then Err else Interrupted
    }

    function Extract(): T
      requires Ok?
    {
      value
    }
  }

  /** How a single system call ended, when nothing but that matters. */
  datatype Step = Proceed | Fail | Interrupt {
    predicate IsFailure() {
      !Proceed?
    }

    function PropagateFailure<U>(): Outcome<U>
      requires !Proceed?
    {
      if Fail? then Err else Interrupted
    }

    function Extract(): ()
      requires Proceed?
    {
      ()
    }
  }

  /** One system call whose outcome nothing else depends on. */
  method AnyStep(faultFree: bool) returns (s: Step)
    ensures faultFree ==> s.Proceed?
  {
    s := *;
    if faultFree {
      s := Proceed;
    }
  }
}
