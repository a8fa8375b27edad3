/** Error values of the Rust core and the result type its functions return. */
module AirErrors {
  datatype AirError =
    | Truncated | TrailingBytes | InvalidMarker | UnsupportedVersion | InvalidProfile | InvalidFlags
    | InvalidClass | InvalidLength | InvalidFragment | CrcMismatch | LimitExceeded | InvalidFec | DecodeFailed
    | ReassemblyFull | FragmentConflict | Replay | TooOld | InvalidSemanticValue | BaseStateMismatch
    | ResultStateMismatch | AuthenticationRequired | AuthenticationFailed

  datatype Result<+T> = Ok(value: T) | Err(error: AirError) {
    predicate IsFailure() { Err? }

    function PropagateFailure<U>(): Result<U>
      requires Err?
    {
      Err(error)
    }

    function Extract(): T
      requires Ok?
    {
      value
    }
  }

  datatype Option<+T> = None | Some(value: T)
}
