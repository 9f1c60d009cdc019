/** Failures of the virtual CPU, and the result type every fallible operation returns.
    The Rust code panics where the model returns `Err`. */
module Outcomes {

  /** Why an operation cannot complete. */
  datatype Error =
    | UnknownRegister  // a register name that is not one of the twelve
    | OutOfBounds      // an index past the end of memory, the register buffer or the name list
    | Overflow         // a 16-bit addition or subtraction leaves 0..0xFFFF

  datatype Option<+T> = None | Some(value: T)

  datatype Result<+T> = Ok(value: T) | Err(error: Error) {
    predicate IsFailure() { Err? }

    function PropagateFailure<U>(): Result<U>
      requires Err?
    {
      Err(error)
    }

    function Extract(): T
      requires Ok?
    {
      value
    }
  }
}
