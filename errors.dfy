/** Failure outcomes shared by every layer of the model. */
module Errors {

  /** The ways an operation of the syncer can fail. */
  datatype Error =
    | Timeout                    // no terminator within the read budget of one receive
    | Desync(what: string)       // a reply is not what the protocol expects: echo, listing header, `is True`, stat tuple length
    | Fault(message: string)     // the device printed a Python traceback (EspException)
    | Encoding                   // text that is not ASCII was to be sent, or a reply that is not ASCII arrived
    | NotFileOrDir(mode: int)    // a stat tuple whose st_mode is neither a regular file nor a directory
    | NoSuchPath(path: string)   // attribute access on the None that stat returns for an absent path
    | Conflict(what: string)     // destination exists, has the wrong type, or a path has the wrong shape
    | LocalIo(path: string)      // a host path is missing or has the wrong type
    | Rejected(what: string)     // an argument check of the source (`assert ...`) failed

  datatype Result<+T> = Ok(value: T) | Err(error: Error) {
    predicate IsFailure() { Err? }
    function PropagateFailure<U>(): Result<U>
      requires Err?
    {
      Err(error)
    }
    function Extract(): T
      requires Ok?
    {
      value
    }
  }

  datatype Option<+T> = None | Some(value: T)

  /** Result of an operation that returns nothing. */
  datatype Outcome = Done | Failed(error: Error) {
    predicate IsFailure() { Failed? }
    function PropagateFailure(): Outcome
      requires Failed?
    {
      this
    }
  }
}
