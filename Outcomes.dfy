/** Results of the tool's operations.
    Every failure in ipm.py either calls Exit (print a message, leave with
    status 1) or is an uncaught Python exception; both end the command. */
module Outcomes {

  datatype Option<+T> = None | Some(value: T)

  /** Why a command stopped. */
  datatype Error =
    | Exit(message: string)   // Exit(message): the diagnostic printed before leaving
    | IndexError              // an out-of-range string index (an uncaught exception)

  datatype Result<+T> = Ok(value: T) | Err(error: Error)

  /** Outcome of a step that changes state but yields no value. */
  datatype Status = Done | Failed(error: Error)
}
