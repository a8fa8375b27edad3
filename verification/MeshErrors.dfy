/** Error values of the Meshtastic crate. */
module MeshErrors {
  import AirErrors

  datatype Error =
    | Air(air: AirErrors.AirError) | Truncated | InvalidLength | InvalidWireType | NoPacket | NoDecodedData
    | FrameTooLarge | FrameCorrupt

  datatype Result<+T> = Ok(value: T) | Err(error: Error) {
    predicate IsFailure() { Err? }

    function PropagateFailure<U>(): Result<U>
      requires Err?
    {
      Err(error)
    }

    function Extract(): T
      requires Ok?
    {
      value
    }
  }
}
