/** Error outcomes of the decoder.  Every one of them aborts the tmate process
    in tmate-decoder.c; here they are returned to the caller instead. */
module Wrappers {

  /** Why a message was refused. */
  datatype Error =
    | Exhausted      // a pop on a cursor with no element left (argc == 0)
    | WrongType      // the next element (or the message) has the wrong type
    | UnknownOpcode  // the leading integer names no handler
    | BadProtocol    // a header whose protocol number is not 1
    | UnknownPane    // pty data for a pane id that has no pane
    | TooLarge       // the pending message exceeds the maximum size

  datatype Option<+T> = None | Some(value: T)

  datatype Result<+T> = Ok(value: T) | Err(error: Error) {
    predicate IsFailure() { Err? }
    function PropagateFailure<U>(): Result<U>
      requires Err?
    {
      Err(error)
    }
    function Extract(): T
      requires Ok?
    {
      value
    }
  }

  /** Outcome of an operation that yields no value. */
  datatype Status = Done | Failed(error: Error)
}
