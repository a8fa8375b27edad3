/** Result codes and size limits shared by the C sources. */
module CStatus {
  datatype Status =
    | OK | MORE | COMPLETE
    | ERR_ARGUMENT | ERR_CAPACITY | ERR_FORMAT | ERR_CRC | ERR_VERSION | ERR_REPLAY
    | ERR_DUPLICATE | ERR_AUTH | ERR_STATE | ERR_FEC | ERR_CALLBACK
  {
    /** Error codes are the negative ones. */
    predicate Failed() { !OK? && !MORE? && !COMPLETE? }
  }

  const MAX_WIRE_BYTES := 256
  const FRAME_HEADER_BYTES := 12
  const FRAME_CRC_BYTES := 4
  const MAX_FRAME_PAYLOAD := 240
  const MAX_FRAGMENTS := 32
  const MAX_ASSEMBLED_BYTES := MAX_FRAME_PAYLOAD * MAX_FRAGMENTS
  const SEMANTIC_HEADER_BYTES := 48
  const SIGNATURE_BYTES := 64
  const FEC_TAIL_BITS := 6
  const FEC_MAX_STEPS := MAX_WIRE_BYTES * 8 + FEC_TAIL_BITS
  const FEC_MAX_CODED_BITS := FEC_MAX_STEPS * 2
  const FEC_MAX_CODED_BYTES := (FEC_MAX_CODED_BITS + 7) / 8
}
