# LatentMesh Air: verified model

A Dafny model of the LatentMesh Air protocol stack, in its C and its Rust
implementation, with proofs of what the stack promises. `dafny verify
dfyconfig.toml` checks all of it.

Code that the sources run step by step is a method or a class here, with the
loops of the source, proved against a function of its inputs or of its old
state; the theorems are lemmas about those functions. The layers, bottom up:

- **Convolutional code** (`Trellis`, `Viterbi`, `CFec`, `RustFec`): free
  distance 10 at every length, maximum-likelihood decoding for any metric in
  0..544, correction of four errors, agreement of the hard C and the soft Rust
  decoder.
- **Interleaver and bursts** (`Interleaver`, `BitStrings`, `BurstCodec`,
  `SoftBurst`): the ragged-rectangle permutation, aligned decoding under noise,
  and the streaming deframer on any segments of noise and bursts in any slices.
- **Frames** (`Crc32c`, `Wire`, `CFrame`): nibble-table and bitwise CRC-32C are
  one function, and the two frame codecs are one canonical codec.
- **Replay, fragments, receivers** (`Replay`, `Fragments`, `AirReceiver`,
  `CReceiver`, `CReceiverRuns`, `CReceiverObjects`): 16-bit windows against the
  unbounded ones they stand for, reassembly in any order, and invariants over
  every run. In every run of the Rust receiver, and in every run of the C one
  in which no more streams deliver than its replay table has entries, nothing is
  delivered twice within half the number space.
- **End to end in C** (`CMessage`, `CTransmitter`, `CLink`, `CRedelivery`): from
  `tx_send` over a bit-flipping channel to the message callback, and what comes
  out a second time.
- **Observer queue** (`ObserverQueue`): the two-thread lock-free queue, each
  atomic access a step of its own, loads possibly stale.
- **Semantic layer** (`CriticalStates`, `DeltaCodec`, `DeltaDecoder`,
  `DeltaAlgebra`, `Envelope`): canonical codecs, hash preimages, and exactly
  when a delta between two states applies. SHA-256 is a parameter.
- **Meshtastic** (`MeshFraming`, `Protobuf`, `MeshData`, `MeshAdapter`): two
  framers that agree on every stream, and the pipeline from message to message.
- **Timestamps** (`Timestamp`): day numbers and Gregorian dates.

What an operation writes, and which error it gives, is stated apart from its own
definitions as well, in numbers: bytes by their position (`Wire.EncodedBytes`,
`Envelope.EncodedBytes`, `DeltaCodec.FixedBytes`, `Trellis.OutputTaps`), refusals in
the order of the checks (`Wire.RefusedBecause`, `BurstCodec.AlignedAnswers`,
`AirReceiver.AdmittedIff`, `CTransmitter.BeginAnswers` and others).

`Common`, `Words`, `BitBuffers`, `BigEndian`, `Sorting`, `CStatus`, `AirErrors`
and `MeshErrors` hold what the others share.

## Where the code does less than it seems to

Each of these is kept as the code has it, with an input that shows it and the
exact condition under which the promise holds.

- `lm_air_tx_begin` keeps the fragment count in eight bits. A message begins
  and goes out short when the true count is 256 or more and its low byte is 1
  to 32 (`CTransmitter.CountWraps`); the envelope is carried whole exactly when
  the count is at most 255 (`CTransmitter.WholeEnvelopeIff`), and delivered
  exactly then (`CLink.SentIsDelivered`). No default profile comes near.
- `SemanticDelta::apply` inserts before it deletes if the ids are in that order.
  The delta between two full states can fail to apply
  (`DeltaAlgebra.FullStatesDoNotApply`); `DeltaAlgebra.ApplyInAnyOrder` and
  `DeltaAlgebra.ApplyAsReturned` say exactly when it applies.
- `SoftBurstReceiver` marks an empty header with the value -128. A clean burst
  is delivered at its last value exactly when its length field does not begin
  with that value (`SoftBurst.DeliveredIffNoSentinel`). If it does, the header is
  read late and comes out as a length at least as large, which the receiver
  refuses or still waits for (`SoftBurst.SentinelMisreads`); any burst with that
  one value changed is an example (`SoftBurst.SentinelBurst`).
- `push_slice` drops the frames it has completed when a later value of the slice
  fails: a good burst and a bad one in one slice give only the error
  (`SoftBurst.FrameLostWithSlice`). No stream loses a frame exactly if slices
  hold at most 80 values, a sync word and a length field
  (`SoftBurst.NoFrameLostIff`); a slice of 81 can (`SoftBurst.LateSliceLoses`).
- The C replay table has a fixed number of entries, eight by default.
  Everything delivered is refused within half the number space exactly as long
  as no more streams have had a delivery than there are entries
  (`CReceiverRuns.RefusesAllDeliveredIff`). With one stream more a message is
  delivered twice (`CRedelivery.OneStreamTooMany`).
- `lm_air_frame_encode` accepts payload lengths its frame cannot hold. What it
  writes is read back exactly when the length is at most 240
  (`CFrame.DecodedIffHeld`).
- `StreamingReceiver` has no memory of messages it has handed out. Late echoes
  of all the packets of a message make it come out again
  (`MeshAdapter.EchoedTwiceArrivesTwice`); it comes out exactly once if and only
  if the packets behind the last missing one do not cover it again
  (`MeshAdapter.EchoedMessageArrives`).

## Model

| member | source | states |
|---|---|---|
| Trellis.RegisterArithmetic | c/src/fec.c:24-29 | Shift, mask and parity on the packed register compute the trellis; parity by folding (C) and by counting ones (Rust) are the same parity |
| Trellis.IndexArithmetic | c/src/fec.c:153-158 | The decoder's index arithmetic on states is the trellis's predecessor and successor relation |
| Trellis.OutputTaps | c/src/fec.c:64-70 | Step t of every path emits the parity of the inputs 0, 3, 4, 5 and 6 steps back, then that of those 0, 1, 3, 4 and 6 steps back; nothing before the start |
| Trellis.TerminatedIff | c/src/fec.c:64-70 | A path of at least six bits ends in state 0 exactly when it is a message followed by the six tail bits |
| Trellis.StepDifference | c/src/fec.c:66-69 | The code is linear: the difference of two registers moves through the trellis and emits the difference of the outputs |
| Trellis.EdgeRespectsPotential | c/src/fec.c:64-70 | All 128 trellis edges respect a 64-entry potential table, the step of the distance proof |
| Trellis.PartedDistance | c/src/fec.c:64-70 | Two different paths of any equal length are at least the potential of their state difference apart |
| Trellis.FreeDistance | c/src/fec.c:7-8 | Any two distinct codewords of one length, at every length, differ in at least 10 bits |
| Trellis.FreeDistanceAttained | c/src/fec.c:7-8 | 10 is attained at every message length, so the bound is exact |
| Viterbi.CellSound | c/src/fec.c:150-189 | A payable cell of the decoder's table is the penalty of the path its survivors trace, and that path leads to the cell's state |
| Viterbi.CellOptimal | c/src/fec.c:150-189 | No path of any length into a state costs less than the state's cell |
| Viterbi.CellRange | c/src/fec.c:144-189 | Every cell is the sentinel or a payable sum, so 32-bit additions never reach the sentinel or overflow |
| Viterbi.LowSurvivesTies | c/src/fec.c:160-183 | The lower predecessor survives unless the higher one is strictly cheaper |
| Viterbi.MaximumLikelihood | c/src/fec.c:144-208 | For every metric in 0..544 and every path of at most 493447 steps (the code allows 2054; beyond, a penalty could reach the sentinel) the traced path is a terminated message whose penalty is the final cell, and no message of that length has a smaller one |
| Viterbi.HardCost | c/src/fec.c:80-86 | Under the hard metric the penalty of a path is its Hamming distance from the received word |
| Viterbi.CorrectsFourErrors | c/src/fec.c:111-209 | Hard decoding returns exactly the message for every received word within distance 4 of its codeword, at every length up to 493447 steps (the code allows 2054) |
| CFec.FecEncode | c/src/fec.c:38-73 | Exact status for every input and capacity; on success the packed bits are the codeword and the rest of the buffer is untouched |
| CFec.EncodeStep | c/src/fec.c:65-69 | One turn of the encoder appends the two output bits of the trellis step and changes no other byte |
| CFec.AddCompareSelect | c/src/fec.c:150-187 | One trellis step in place fills the next column of the table and its 64 decision bits |
| CFec.Traceback | c/src/fec.c:193-204 | Following the survivors backwards writes the traced path's bits and nothing else |
| CFec.FecDecode | c/src/fec.c:111-209 | Exact status; the result is a maximum-likelihood message for any metric in range and the reported path metric is that message's own; ERR_FEC after the sentinel test is unreachable |
| CFec.FecDecodeHard | c/src/fec.c:211-227 | Path metric is the distance to the decoded message's codeword, and every message within distance 4 of the input is the one returned |
| RustFec.BytesToBitsMsb | crates/latentmesh-air-core/src/fec.rs:13-21 | One byte per bit, most significant first |
| RustFec.BitsToBytesMsb | crates/latentmesh-air-core/src/fec.rs:23-36 | Fails exactly on lengths not a multiple of 8 or entries above 1, and otherwise packs exactly those bits |
| RustFec.ConvolutionalEncode | crates/latentmesh-air-core/src/fec.rs:39-56 | Fails exactly on over-long or non-bit input; otherwise writes the same codeword as the C encoder |
| RustFec.PushScores | crates/latentmesh-air-core/src/fec.rs:84-107 | Pushing scores forward state by state gives the same table and predecessors as pulling them, ties included |
| RustFec.Traceback | crates/latentmesh-air-core/src/fec.rs:109-124 | Walking the predecessor history returns the traced path and ends in state 0 |
| RustFec.FinalScore | crates/latentmesh-air-core/src/fec.rs:78-133 | The final score is the correlation of the decoded message's codeword, above the sentinel, and the largest any message of that length has |
| RustFec.LegalLengths | crates/latentmesh-air-core/src/fec.rs:68-76 | Exactly the lengths 16n + 12 of whole frames of at most 256 bytes are decoded |
| RustFec.SoftViterbiDecode | crates/latentmesh-air-core/src/fec.rs:68-133 | Fails exactly on illegal lengths, always with InvalidFec (DecodeFailed is unreachable); otherwise returns the message whose codeword correlates best with the input, with that correlation |
| RustFec.ConfidenceBetween | crates/latentmesh-air-core/src/fec.rs:126-127 | The confidence lies between twice the least and twice the greatest magnitude, capped at 255 |
| RustFec.ImageDecision | crates/latentmesh-air-core/src/fec.rs:95-100 | On the soft image of a hard word both decoders prefer the same predecessor at every cell, ties included |
| RustFec.DecodersAgree | crates/latentmesh-air-core/src/fec.rs:68-133 | For every received word and magnitude 1..127 the Rust decoder on the word's soft image returns the bits of the C hard decoder |
| Interleaver.Permutation | c/src/fec.c:247-313 | The ragged-rectangle reading order and its inverse are inverse permutations for every length and column count |
| Interleaver.ReadsColumnByColumn | crates/latentmesh-air-core/src/fec.rs:186-205 | The channel order reads column after column, each from top to bottom |
| Interleaver.RoundTrip | c/src/fec.c:247-313 | Interleaving then deinterleaving, and the reverse, is the identity on every sequence |
| Interleaver.BurstSpread | c/src/fec.c:247-279 | Two channel positions closer than the shortest column come from coded positions at least columns-1 apart |
| Interleaver.InterleaveBits | c/src/fec.c:247-279 | Exact status (ERR_STATE unreachable); on packed bits the loops compute the permutation for ceil(n/rows) columns, the Rust one |
| Interleaver.DeinterleaveBits | c/src/fec.c:281-313 | Exact status; the loops compute the inverse permutation |
| Interleaver.InterleaveCopy | crates/latentmesh-air-core/src/fec.rs:186-204 | Fails exactly on a column count of 0 or above 4108; otherwise computes the permutation |
| Interleaver.DeinterleaveSoft | crates/latentmesh-air-core/src/fec.rs:164-184 | Fails exactly on the same counts; scattering by the two loops equals gathering by the inverse permutation |
| Crc32c.BitwiseCrc32c | crates/latentmesh-air-core/src/crc32c.rs:3-13 | The bitwise loop with its mask computes the CRC-32C of section 12.1 of RFC 3720 |
| Crc32c.NibbleIsFourBits | c/src/frame.c:26-47 | One step of the 16-entry table is four bitwise steps, for every register |
| Crc32c.NibbleCrc32c | c/src/frame.c:26-48 | The nibble-table loop computes the same function as the bitwise one on every byte string |
| Crc32c.ResidueIsConstant | crates/latentmesh-air-core/src/crc32c.rs:3-13 | Every byte string followed by its checksum, low byte first, has the checksum 0x48674bc7 |
| Crc32c.CheckValue | crates/latentmesh-air-core/src/crc32c.rs:19-22 | The digits 1 to 9 have the checksum 0xe3069283 |
| Crc32c.EmptyChecksum | crates/latentmesh-air-core/src/crc32c.rs:3-13 | The empty string has the checksum 0 |
| Crc32c.DetectsFourByteBurst | c/src/frame.c:26-48 | Strings of equal length that differ only inside four consecutive bytes have different checksums |
| Wire.Encode | crates/latentmesh-air-core/src/wire.rs:147-163 | Fails exactly as validate does; otherwise writes the header, payload and checksum |
| Wire.EncodedBytes | crates/latentmesh-air-core/src/wire.rs:147-163 | Every header byte of an encoded frame by position; then the payload, and the checksum of all before it |
| Wire.ValidIff | crates/latentmesh-air-core/src/wire.rs:129-141 | The limits of a valid frame as numbers, and the error for each |
| Wire.RefusedBecause | crates/latentmesh-air-core/src/wire.rs:165-211 | Which error each refused string gets, in the order of the checks |
| Wire.DecodeOfEncode | crates/latentmesh-air-core/src/wire.rs:165-211 | Decoding an encoded valid frame returns the frame |
| Wire.EncodeOfDecode | crates/latentmesh-air-core/src/wire.rs:165-211 | Every accepted byte string is the encoding of the frame read from it: one wire form per frame |
| CFrame.FrameEncode | c/src/frame.c:75-110 | For every payload length the eight-bit field can hold, also those beyond the 240-byte buffer: exact status; writes exactly the encoding and leaves the rest of the output alone |
| CFrame.EncodableIff | c/src/frame.c:50-65 | The encoder's limits as numbers, and that validity adds only the payload limit |
| CFrame.SameValid | c/src/frame.c:50-65 | A C frame is valid exactly when its Rust counterpart is, and both encode to the same bytes |
| CFrame.DecodersAgree | c/src/frame.c:112-162 | The C and Rust decoders accept the same byte strings and read the same fields |
| CFrame.RefusedBecause | c/src/frame.c:112-154 | Which status each refused string gets, in the order of the checks |
| CFrame.RoundTrip | c/src/frame.c:75-162 | The C decoder inverts the C encoder |
| CFrame.DecodedIffHeld | c/src/frame.c:50-162 | What the encoder writes is decoded to its frame exactly when the payload length is at most 240; the lengths 241 to 255, which it accepts, are refused with ERR_FORMAT |
| CFrame.Canonical | c/src/frame.c:112-162 | The C decoder accepts only its encoder's output |
| Replay.ReplayWindow.Commit | crates/latentmesh-air-core/src/replay.rs:51-76 | The window after a commit and the answer, for every state and number; a refused commit changes nothing |
| Replay.ClassifyRefines | crates/latentmesh-air-core/src/replay.rs:28-47 | The 16-bit classification is that of the unbounded window: ahead, older than 64, already committed, or acceptable |
| Replay.CommitRefines | crates/latentmesh-air-core/src/replay.rs:51-76 | An accepted commit keeps bit i set exactly when extended number highest-i was committed |
| Replay.RunRefines | crates/latentmesh-air-core/src/replay.rs:28-76 | The refinement holds after every run of offered numbers |
| Replay.RejectedWhileWithinHalf | crates/latentmesh-air-core/src/replay.rs:28-47 | A committed number is refused exactly while the highest is 0 to 32768 ahead of it |
| Replay.HalfSpaceIsAmbiguous | crates/latentmesh-air-core/src/replay.rs:28-47 | The half-space point of section 3.2 of RFC 1982 is refused by both languages |
| Replay.SameTest | c/src/air.c:402-460 | C's is_replay and commit_replay agree with classify and commit on every window whose newest bit is set |
| Replay.LanguagesAgree | c/src/air.c:391-460 | On every history of offered numbers C and Rust keep the same window and give the same answers |
| Replay.AcceptedIsNew | crates/latentmesh-air-core/src/replay.rs:51-76 | Every accepted number has an unbounded number not committed before |
| ObserverQueue.StepKeepsInv | c/src/runtime.c:17-35 | Every atomic load, store and word copy of either thread, with stale loads, keeps the queue invariant |
| ObserverQueue.RunInv | c/src/runtime.c:17-35 | The invariant holds in every interleaving of producer and consumer steps |
| ObserverQueue.EveryRunIsSafe | c/src/runtime.c:17-35 | Taken blocks are a prefix of published ones, at most 8 are in flight, the slot written is never the slot read, published plus refused equals returned calls, through 32-bit wraparound |
| ObserverQueue.RefusedOnlyWhenSeenFull | c/src/runtime.c:18-23 | A publish is refused only when 8 blocks are outstanding as far as the producer has seen |
| ObserverQueue.HistoriesAreCalls | c/src/runtime.c:17-35 | In every run the published blocks are those of the accepted publish calls, the taken ones those that the take calls returned word by word, and the drop count that of refused calls |
| ObserverQueue.PublishAlone | c/src/runtime.c:17-27 | A publishing call run alone from any reachable state, on any stale tail: refused and counted if it sees eight outstanding, else its block lies in its slot and is the newest |
| ObserverQueue.TakeAlone | c/src/runtime.c:28-35 | A taking call run alone on any stale head: nothing if it sees all taken, else the oldest block that is not |
| ObserverQueue.EmptyOnlyWhenSeenEmpty | c/src/runtime.c:29-31 | A take returns nothing only when everything the consumer has seen published is taken |
| ObserverQueue.HistoriesGrow | c/src/runtime.c:17-35 | Published and taken histories only ever grow |
| Timestamp.Epoch | crates/latentmesh-cognitum-client/src/timestamp.rs:28-42 | Day 0 is 1970-01-01 |
| Timestamp.NextDay | crates/latentmesh-cognitum-client/src/timestamp.rs:30-42 | Day d+1 is always the Gregorian successor of day d, for every integer d |
| Timestamp.AlwaysValid | crates/latentmesh-cognitum-client/src/timestamp.rs:30-42 | Every day number gives a valid Gregorian date |
| Timestamp.LaterDayLaterDate | crates/latentmesh-cognitum-client/src/timestamp.rs:30-42 | Later days have later dates |
| Timestamp.Bijection | crates/latentmesh-cognitum-client/src/timestamp.rs:30-42 | Every valid date is the date of exactly one day number |
| Timestamp.TimestampsSortChronologically | crates/latentmesh-cognitum-client/src/timestamp.rs:18-26 | For years 0 to 9999 earlier seconds give lexicographically smaller strings of equal length (section 5.1 of RFC 3339) |
| Timestamp.TimestampReads | crates/latentmesh-cognitum-client/src/timestamp.rs:18-26 | For every second of every year the fields of the text, read as decimal numbers, are the year, month, day, hour, minute and second, with the separators in between; a year takes four characters or more, its sign included, and no leading zero beyond that |
| Fragments.FragmentMessage | crates/latentmesh-air-core/src/fragment.rs:23-78 | Exact errors; on success the frames are the chunks of the message with consecutive indices |
| Fragments.FragmentableIff | crates/latentmesh-air-core/src/fragment.rs:28-45 | The messages that can be fragmented, as numbers |
| Fragments.CarriedPayloads | crates/latentmesh-air-core/src/fragment.rs:23-78 | The payloads of the frames put together are the message |
| Fragments.Reassembler.Push | crates/latentmesh-air-core/src/fragment.rs:162-238 | Table and answer after a push, for every table and frame |
| Fragments.PushAnswers | crates/latentmesh-air-core/src/fragment.rs:162-238 | Which answer a push gives: a full table, another header, a repeated index with equal or other payload, an overflow, or the last missing fragment |
| Fragments.Reassembler.Clear | crates/latentmesh-air-core/src/fragment.rs:152-160 | Removes the context of one message |
| Fragments.PushKeeps | crates/latentmesh-air-core/src/fragment.rs:162-238 | Every push keeps keys unique, byte totals exact, bounds respected, contexts incomplete, and leaves other messages' contexts alone |
| Fragments.TableAfterOk | crates/latentmesh-air-core/src/fragment.rs:162-238 | The table invariant holds after every run of frames |
| Fragments.FragmentArrives | crates/latentmesh-air-core/src/fragment.rs:182-238 | One fragment of a message: nothing is returned until the last missing one, which returns exactly the message and frees its context; repeats change nothing |
| Fragments.DeliveredOnLastFragment | crates/latentmesh-air-core/src/fragment.rs:162-238 | In any order, with repeats, among other messages: nothing until the last missing fragment, then exactly the original bytes |
| CriticalStates.DecodeValueOfBytes | crates/latentmesh-air-core/src/semantic.rs:55-80 | A value decodes from its own bytes, and over-long byte values do not |
| CriticalStates.BytesOfDecodedValue | crates/latentmesh-air-core/src/semantic.rs:65-80 | A value has one encoding only |
| CriticalStates.EntriesHold | crates/latentmesh-air-core/src/semantic.rs:119-121 | The iteration order lists every field once, by increasing id |
| CriticalStates.PreimageInjective | crates/latentmesh-air-core/src/semantic.rs:125-140 | Two states feed the same bytes to the hash exactly when they are equal |
| CriticalStates.HashedStrings | crates/latentmesh-air-core/src/semantic.rs:125-140 | Two states are hashed from different strings: for every SHA-256 the two hashes are the first 16 bytes of its values on them |
| CriticalStates.OneFieldHashed | crates/latentmesh-air-core/src/semantic.rs:125-140 | The hashed string of a state with one field, byte by byte |
| CriticalStates.ValuesAre | crates/latentmesh-air-core/src/semantic.rs:29-63 | The type codes as numbers, and the bytes of each kind of value |
| CriticalStates.CriticalState.Set | crates/latentmesh-air-core/src/semantic.rs:94-101 | Sets one field or fails with LimitExceeded, leaving the state within 64 valid fields |
| CriticalStates.CriticalState.Remove | crates/latentmesh-air-core/src/semantic.rs:103-105 | Removes one field and returns what it held |
| CriticalStates.CriticalState.CriticalHash | crates/latentmesh-air-core/src/semantic.rs:125-140 | Hashes the canonical preimage and keeps 16 bytes |
| DeltaCodec.DuplicateCheck | crates/latentmesh-air-core/src/semantic.rs:225-237 | Sorting and comparing neighbours finds exactly the repeated keys |
| DeltaCodec.ValidIff | crates/latentmesh-air-core/src/semantic.rs:221-248 | validate succeeds exactly on deltas with distinct ids and slots within the limits |
| DeltaCodec.ValidateAnswers | crates/latentmesh-air-core/src/semantic.rs:221-247 | Which error an invalid delta gets, in the order of the checks, with the limits as numbers |
| DeltaCodec.Encode | crates/latentmesh-air-core/src/semantic.rs:252-295 | Fails exactly on invalid deltas; the result is the bytes of the sorted delta, at most 3444, so the closing size check never fires |
| DeltaCodec.FixedBytes | crates/latentmesh-air-core/src/semantic.rs:252-271 | The bytes of the fixed part by position, followed by the updates and residuals in order of id and slot |
| DeltaCodec.ItemBytes | crates/latentmesh-air-core/src/semantic.rs:271-290 | The bytes of each update and each residual, negative numbers in two's complement |
| DeltaDecoder.UpdateParses | crates/latentmesh-air-core/src/semantic.rs:336-356 | The next update of a written list is the one written |
| DeltaDecoder.ParsedUpdateBytes | crates/latentmesh-air-core/src/semantic.rs:336-356 | An update that parses was written there, in its only form, with a larger id than the one before |
| DeltaDecoder.DecodeDelta | crates/latentmesh-air-core/src/semantic.rs:297-399 | The cursor-driven decoder computes the decoding function, errors and their order included |
| DeltaDecoder.FixedPartRefused | crates/latentmesh-air-core/src/semantic.rs:297-330 | Which error each string gets whose fixed part is refused, in the order of the checks |
| DeltaDecoder.UpdateRefusedBecause | crates/latentmesh-air-core/src/semantic.rs:337-357 | Which error a refused update gets, in the order of the checks |
| DeltaDecoder.TrailingRefused | crates/latentmesh-air-core/src/semantic.rs:385-387 | Nothing may follow an encoded delta |
| DeltaDecoder.DecodeOfEncode | crates/latentmesh-air-core/src/semantic.rs:252-399 | Decoding an encoded valid delta gives the delta with updates and residuals sorted |
| DeltaDecoder.EncodeOfDecode | crates/latentmesh-air-core/src/semantic.rs:252-399 | Every accepted byte string is the encoding of what was read: the codec is canonical |
| DeltaDecoder.ClosingValidationPasses | crates/latentmesh-air-core/src/semantic.rs:388-398 | The validate at the end of decode never refuses what was read |
| DeltaAlgebra.Between | crates/latentmesh-air-core/src/semantic.rs:180-219 | The two loops, the sort and the validation compute the delta function |
| DeltaAlgebra.BetweenLists | crates/latentmesh-air-core/src/semantic.rs:188-205 | The delta lists exactly the differing fields with their new values, each once, by increasing id |
| DeltaAlgebra.BetweenSucceeds | crates/latentmesh-air-core/src/semantic.rs:180-219 | between succeeds exactly when the residuals are valid and at most 64 fields differ |
| DeltaAlgebra.Apply | crates/latentmesh-air-core/src/semantic.rs:404-422 | Applying computes the apply function on a copy; the base state is untouched |
| DeltaAlgebra.WrongBaseRefused | crates/latentmesh-air-core/src/semantic.rs:404-408 | For every state other than the delta's base there is a hash function under which it is refused with BaseStateMismatch |
| DeltaAlgebra.WrongResultRefused | crates/latentmesh-air-core/src/semantic.rs:420-424 | For updates that lead elsewhere there is a hash function under which the announced result is refused with ResultStateMismatch |
| DeltaAlgebra.BetweenNames | crates/latentmesh-air-core/src/semantic.rs:180-219 | The delta names its source, and the hashes of its two states |
| DeltaAlgebra.ApplyMoves | crates/latentmesh-air-core/src/semantic.rs:409-417 | Any run of updates reaches the mix of both states, unless an insertion meets a full state |
| DeltaAlgebra.ApplyInAnyOrder | crates/latentmesh-air-core/src/semantic.rs:404-422 | Applying the delta in every stored order gives the new state exactly when the two states have at most 64 fields together |
| DeltaAlgebra.ApplyAsReturned | crates/latentmesh-air-core/src/semantic.rs:404-422 | Applying the delta in the order between returns gives the new state exactly when each added field fits beside the smaller new and larger old fields |
| DeltaAlgebra.FullStatesDoNotApply | crates/latentmesh-air-core/src/semantic.rs:94-101 | Two full states that differ in two fields: between succeeds and apply fails with LimitExceeded |
| Envelope.Encode | crates/latentmesh-air-core/src/envelope.rs:77-103 | Fails exactly as validate does; otherwise writes header, body and signature |
| Envelope.EncodedBytes | crates/latentmesh-air-core/src/envelope.rs:77-103 | Every byte of an encoded envelope by position |
| Envelope.DecodeOfEncode | crates/latentmesh-air-core/src/envelope.rs:105-173 | Decoding an encoded valid envelope returns it |
| Envelope.EncodeOfDecode | crates/latentmesh-air-core/src/envelope.rs:105-173 | Only the encoder's own output is accepted |
| Envelope.RefusedBecause | crates/latentmesh-air-core/src/envelope.rs:105-173 | Which error each refused string gets, in the order of the checks |
| Envelope.UnwrapRefusedBecause | crates/latentmesh-air-core/src/envelope.rs:188-201 | Which error each envelope gets that carries no delta of its own |
| Envelope.SignatureCoversEverything | crates/latentmesh-air-core/src/envelope.rs:178-184 | Two signed envelopes have the same signed bytes exactly when they agree in everything but the signature |
| Envelope.WrapDelta | crates/latentmesh-air-core/src/envelope.rs:27-46 | Succeeds exactly on valid deltas with priority at most 15 |
| Envelope.UnwrapIff | crates/latentmesh-air-core/src/envelope.rs:188-201 | Exactly the envelopes of ordered valid deltas unwrap, each to its own delta |
| AirReceiver.Receiver.IngestFrame | crates/latentmesh-air-radio/src/receiver.rs:234-280 | State and answer after a frame, for every state, frame and verifier |
| AirReceiver.Receiver.IngestFrameBytes | crates/latentmesh-air-radio/src/receiver.rs:206-220 | The same from wire bytes |
| AirReceiver.Receiver.CommitReplay | crates/latentmesh-air-radio/src/receiver.rs:375-390 | Replay list and answer after a commit |
| AirReceiver.IngestKeeps | crates/latentmesh-air-radio/src/receiver.rs:234-280 | Every call keeps: unique streams within the limit, the table invariant, and no message in flight whose number its stream has seen |
| AirReceiver.RunOk | crates/latentmesh-air-radio/src/receiver.rs:178-280 | That invariant holds in every run |
| AirReceiver.InFlightIsNeverDuplicate | crates/latentmesh-air-radio/src/receiver.rs:252-267 | A message in flight is never classified Duplicate, so the in-flight arm never applies |
| AirReceiver.FailureLeavesWindows | crates/latentmesh-air-radio/src/receiver.rs:268-279 | A call that returns no message leaves all windows as they were; a completed message that is turned away frees its context, and commit fails only with LimitExceeded for a new stream |
| AirReceiver.Delivery | crates/latentmesh-air-radio/src/receiver.rs:273-279 | A delivered message passed admission and belongs to the frame's stream and number; only that window moves, by that number |
| AirReceiver.AdmittedIff | crates/latentmesh-air-radio/src/receiver.rs:145-158 | A signed message is admitted exactly if there is a verifier and the bytes are a signed envelope bound to the header whose signature it accepts, and for a delta that of a valid delta; an unsigned delta exactly if such an unsigned envelope is bound; all else always |
| AirReceiver.RefusedBecause | crates/latentmesh-air-radio/src/receiver.rs:105-158 | Which error a signed message gets, in the order of the checks |
| AirReceiver.DeliveredIsVerified | crates/latentmesh-air-radio/src/receiver.rs:234-280 | No message is delivered that is signed and whose signature the verifier refuses |
| AirReceiver.UnverifiableDropped | crates/latentmesh-air-radio/src/receiver.rs:245-250 | Without a verifier a signed fragment leaves the windows alone and no context of its message behind |
| AirReceiver.StateTells | crates/latentmesh-air-radio/src/receiver.rs:230-280 | The state after a call tells its answer |
| AirReceiver.WindowsRecordDeliveries | crates/latentmesh-air-radio/src/receiver.rs:375-390 | After every run each stream's window is the one made by its deliveries |
| AirReceiver.DeliveredAgainOnlyAfterHalf | crates/latentmesh-air-radio/src/receiver.rs:252-279 | A 16-bit number is delivered again only when its stream's highest is more than 32768 ahead of the earlier delivery |
| AirReceiver.DeliveriesAreDistinct | crates/latentmesh-air-radio/src/receiver.rs:375-390 | Deliveries on a stream have as many distinct unbounded numbers as there are deliveries |
| AirReceiver.DeltaMessageAdmitted | crates/latentmesh-air-radio/src/receiver.rs:68-158 | A delta message bound to its envelope is admitted exactly when its signature, if any, verifies, and yields the delta that was sent |
| AirReceiver.StatesTravel | crates/latentmesh-air-radio/src/receiver.rs:80-99 | The delta between two states, enveloped, carried and applied to the base, gives the new state exactly when every added field fits |
| BurstCodec.NewCodec | crates/latentmesh-air-radio/src/phy.rs:19-26 | Accepts exactly the column counts 1 to 256 |
| BurstCodec.Encode | crates/latentmesh-air-radio/src/phy.rs:34-48 | Fails exactly on frames above 256 bytes; otherwise sync word, tripled length and interleaved codeword; the length overflow exit is unreachable |
| BurstCodec.BurstBegins | crates/latentmesh-air-radio/src/phy.rs:34-50 | A burst begins with 0xd391c5a7 written out, then each bit of 16n + 12 three times |
| BurstCodec.DecodeRepeatedLength | crates/latentmesh-air-radio/src/phy.rs:83-93 | Majority of each triplet, most significant bit first |
| BurstCodec.DecodeAligned | crates/latentmesh-air-radio/src/phy.rs:52-80 | The aligned decoder, errors and their order included |
| BurstCodec.AlignedAnswers | crates/latentmesh-air-radio/src/phy.rs:52-74 | Which error each burst gets: InvalidMarker exactly if four or more of the first 32 signs differ from 0xd391c5a7 written out, and the lengths as numbers |
| BurstCodec.DecodedIffThreeErrors | crates/latentmesh-air-radio/src/phy.rs:52-81 | A burst with correctable length and payload gives its frame if and only if at most three sync signs are wrong |
| BurstCodec.SoftCorrects | crates/latentmesh-air-radio/src/phy.rs:76-80 | The soft decoder returns the message under at most e wrong signs of magnitudes lo..hi whenever e*hi < (10-e)*lo |
| BurstCodec.FourOfOneMagnitude | crates/latentmesh-air-radio/src/phy.rs:52-80 | Four wrong signs among values of one nonzero magnitude are such a pattern |
| BurstCodec.AlignedRoundTrip | crates/latentmesh-air-radio/src/phy.rs:50-74 | The frame comes back under at most 3 sync errors, one error in each length triplet and a correctable payload |
| BurstCodec.CleanBurstReceived | crates/latentmesh-air-radio/src/phy.rs:34-74 | An encoded burst read at any nonzero payload magnitudes is such a burst |
| BitStrings.DeinterleavedDistance | crates/latentmesh-air-core/src/fec.rs:164-184 | Deinterleaving does not increase the Hamming distance of two words |
| SoftBurst.SoftBurstReceiver.PushLlr | crates/latentmesh-air-radio/src/phy.rs:148-186 | State and answer after one soft value; the header length error is unreachable |
| SoftBurst.SoftBurstReceiver.PushSlice | crates/latentmesh-air-radio/src/phy.rs:188-196 | A slice stops at its first error; the state is that after the values looked at |
| SoftBurst.PushBounded | crates/latentmesh-air-radio/src/phy.rs:148-186 | Every push keeps the header below 48 values and the payload below its expected length, which is legal and at most MAX_CODED_BITS |
| SoftBurst.StateReported | crates/latentmesh-air-radio/src/phy.rs:125-138 | In every run the reported state is what the receiver is reading |
| SoftBurst.ChunkingLosesOnly | crates/latentmesh-air-radio/src/phy.rs:188-196 | In any slices a stream ends in the same state with the same error as value by value, and the frames handed out are all but those the failing slice had completed |
| SoftBurst.NoFrameLostIff | crates/latentmesh-air-radio/src/phy.rs:188-196 | For every slice bound: no stream in slices of at most that many values loses a frame, from any bounded state, exactly when the bound is at most 80, a sync word and a length field |
| SoftBurst.FrameThenError | crates/latentmesh-air-radio/src/phy.rs:148-186 | A frame and a later error, from any bounded state, take at least 81 values |
| SoftBurst.LateSliceLoses | crates/latentmesh-air-radio/src/phy.rs:188-196 | For every frame: its burst value by value, but for the last value in one slice of 81 with a bad burst, loses the frame |
| SoftBurst.ShortSlicesAgree | crates/latentmesh-air-radio/src/phy.rs:188-196 | Two cuts of one stream into slices of at most 80 values give the same frames, state and error, those of pushing value by value |
| SoftBurst.ChunkingIsIrrelevant | crates/latentmesh-air-radio/src/phy.rs:188-196 | A stream on which no slice fails gives the same frames and state in any other slices |
| SoftBurst.FrameLostWithSlice | crates/latentmesh-air-radio/src/phy.rs:188-196 | For every frame: its burst and a bad one in one slice give the error and no frame, in two slices the frame and then the error |
| SoftBurst.SearchStep | crates/latentmesh-air-radio/src/phy.rs:158-168 | The 32-bit shift register finds the sync word exactly when the newest 32 signs are it |
| SoftBurst.AgreesWithAligned | crates/latentmesh-air-radio/src/phy.rs:148-186 | After noise without an earlier sync word, the stream receiver gives a burst the answer of the aligned decoder and is searching again |
| SoftBurst.StreamYieldsFrames | crates/latentmesh-air-radio/src/phy.rs:148-196 | Any list of noise-and-burst segments, in any slices, yields exactly the frames in order and ends in Searching |
| SoftBurst.ReceivedStreams | crates/latentmesh-air-radio/src/phy.rs:148-186 | A received burst with an exact sync word and no sentinel in front of its length is such a segment |
| SoftBurst.SentinelMisreads | crates/latentmesh-air-radio/src/phy.rs:165-184 | What becomes of a clean burst whose length field starts with k values of -128: the header is read k values late, its length comes out shifted left by (k + 1) / 3 bits, and at the last value the receiver has refused that length or waits for more |
| SoftBurst.SentinelBurst | crates/latentmesh-air-radio/src/phy.rs:165-184 | For every frame: its clean burst with the first length value set to -128 hands out nothing and leaves the receiver waiting for one value more |
| SoftBurst.DeliveredIffNoSentinel | crates/latentmesh-air-radio/src/phy.rs:165-173 | A clean burst behind noise is delivered at its last value exactly when its length field does not begin with -128 |
| CMessage.SameBytes | c/src/air.c:179-211 | C and Rust write the same envelope bytes |
| CMessage.LanguagesAcceptAlike | c/src/air.c:522-569 | On every assembled message the C receiver accepts exactly when the Rust decoder and binding checks do, and reads the same message |
| CMessage.RefusedBecause | c/src/air.c:522-557 | Exactly which assembled messages are refused with ERR_FORMAT; all other refusals are ERR_AUTH |
| CMessage.UnverifiedIsAuthError | c/src/air.c:541-557 | A sendable signed message with a missing flag, verifier or valid signature is refused with ERR_AUTH |
| CMessage.ParseOfEnvelope | c/src/air.c:522-569 | A message comes back from its own envelope, every field and body byte |
| CTransmitter.DefaultsNeverWrap | c/src/air.c:44-117 | The default profiles are valid and need at most 120 fragments, far from the eight-bit wrap |
| CTransmitter.DefaultsAre | c/src/air.c:44-116 | The ten profiles as a table of numbers; there are no others |
| CTransmitter.CountCoversIff | c/src/air.c:215-217 | The cast fragment count covers the envelope exactly when the true count is at most 255 |
| CTransmitter.Transmitter.Begin | c/src/air.c:152-229 | Exact status and phase for every phase, hook and message; on success the envelope and all fields of the message to send |
| CTransmitter.BeginAnswers | c/src/air.c:152-225 | Which status each message gets, in the order of the checks, with the limits as numbers |
| CTransmitter.EmitFrame | c/src/air.c:272-307 | Frame encoding, coding and interleaving never fail on a valid frame and produce its channel bits |
| CTransmitter.Transmitter.Poll | c/src/air.c:231-316 | Each poll emits the block of the next frame; the last one completes and advances the sequence number |
| CTransmitter.Transmitter.Send | c/src/air.c:318-343 | Blocks emitted are those of the frames in order, up to the first the sink refuses; OK exactly when all were accepted |
| CTransmitter.PayloadsArePrefix | c/src/air.c:250-271 | The first n frames carry the first n payloads' worth of the envelope |
| CTransmitter.WholeEnvelopeIff | c/src/air.c:215-217 | All frames together carry the whole envelope exactly when the fragment count fits eight bits |
| CTransmitter.CountWraps | c/src/air.c:215-217 | A message that begins with OK and goes out short: 265 fragments taken for 9 |
| CReceiver.VictimIs | c/src/air.c:474-482 | A used entry is reused only when all are used, and then one of the oldest; otherwise the first unused |
| CReceiver.IngestKeeps | c/src/air.c:577-614 | For any number of slots and replay entries every call keeps: used slots have distinct keys and are strictly incomplete, and the replay table has distinct streams |
| CReceiver.IngestAnswers | c/src/air.c:577-614 | Which status a frame gets: a replay, another header, a repeated index, or MORE exactly while another fragment is missing |
| CReceiver.CallbackAnswers | c/src/air.c:566-575 | Exactly the calls that hand a message on answer COMPLETE or ERR_CALLBACK, by what the callback reported |
| CReceiverRuns.CommitsIffDelivers | c/src/air.c:571-575 | A call commits a number exactly when it delivers, and then its own frame's |
| CReceiverRuns.CommitWindows | c/src/air.c:420-460 | What a commit leaves in every stream's window, and that only a full table forgets, the least recently committed stream |
| CReceiverRuns.FullTableForgets | c/src/air.c:427-445 | In a full table a new stream costs the least recently committed one its memory: all its numbers are accepted again |
| CReceiverRuns.WindowsRecordDeliveries | c/src/air.c:420-460 | After every run: every window is the one made by its stream's deliveries exactly when no more streams have had a delivery than the table has entries |
| CReceiverRuns.RefusesAllDeliveredIff | c/src/air.c:402-460 | After every run: everything delivered is refused while its stream's highest is at most 32768 ahead, exactly when no more streams have had a delivery than the table has entries |
| CReceiverRuns.DeliveredAgainOnlyAfterHalf | c/src/air.c:402-418 | With no more delivering streams than entries a number in a stream's history is delivered again only when the highest is more than 32768 ahead |
| CReceiverRuns.DeliveriesAreDistinct | c/src/air.c:402-460 | With no more delivering streams than entries the history holds every delivery, as many distinct unbounded numbers as deliveries |
| CReceiverRuns.ClockIsTicks | c/src/air.c:420-498 | The clock is the number of slots taken, payloads stored and numbers remembered in the run, modulo 2^32 |
| CReceiverRuns.StampsFollowFills | c/src/air.c:598-604 | In every run with fewer than 2^32 clock ticks the order of slot stamps is the order of last fills |
| CReceiverRuns.EvictsLeastRecentlyFilled | c/src/air.c:474-486 | In every run with fewer than 2^32 clock ticks an eviction takes the slot filled longest ago, and only when all are in use |
| CLink.BlockSurvives | c/src/air.c:637-704 | A block with at most four flipped data bits under FEC, or none without, still gives its frame |
| CLink.BlockRefusedBecause | c/src/air.c:637-700 | Which status each block gets that gives no frame bytes, with the lengths as numbers |
| CLink.NextFrameStored | c/src/air.c:577-614 | The next frame of a message is stored, or, if it is the last, handed to delivery |
| CLink.LastFrame | c/src/air.c:500-575 | The last frame delivers exactly the message and makes its number a replay; a wrapped count is refused with ERR_FORMAT and nothing is remembered |
| CLink.AllButLastWait | c/src/air.c:577-610 | At every block of the message but the last the receiver answers MORE and delivers nothing |
| CLink.SentIsDelivered | c/src/air.c:318-343 | One tx_send through the damaged channel into any receiver that has not seen the message delivers it, every field and byte equal, exactly when the fragment count did not wrap |
| CLink.CopyIsRefused | c/src/air.c:583-586 | Every further copy of any of its blocks is refused with ERR_REPLAY and changes nothing |
| CLink.FreshIsReady | c/src/air.c:345-360 | A fresh receiver has seen no message |
| CRedelivery.ForgottenIsDeliveredAgain | c/src/air.c:402-460 | Any message of a stream the table has forgotten is delivered from its damaged blocks, delivered before or not |
| CRedelivery.OneStreamTooMany | c/src/air.c:420-445 | One message sent once on each of one more streams than the table has entries is delivered once on each, and then a second time on one of them |
| CReceiverObjects.SlotBuffer.Store | c/src/air.c:598-604 | Copying a payload in sets its part and stamp and changes no other payload |
| CReceiverObjects.SlotBuffer.Compact | c/src/air.c:514-521 | The in-place compaction never overwrites an unread payload: the front of the buffer is the payloads in order |
| CReceiverObjects.MaskTest | c/src/air.c:605-609 | The bitmap equals the mask exactly when every fragment is present |
| CReceiverObjects.Receiver.FindOrAllocate | c/src/air.c:462-498 | Finds the message's slot or reuses the right one |
| CReceiverObjects.Receiver.CommitReplay | c/src/air.c:420-460 | Replay table and clock after a commit |
| CReceiverObjects.Receiver.DeliverSlot | c/src/air.c:500-575 | Assembles, checks, commits, then hands on; the slot is wiped last, in every case |
| CReceiverObjects.Receiver.IngestFrame | c/src/air.c:577-614 | The receiver on its own memory computes the ingest function |
| CReceiverObjects.Receiver.IngestBlock | c/src/air.c:637-704 | The same from a block, through deinterleaver and hard decoder |
| MeshFraming.WriteFrame | crates/latentmesh-meshtastic/src/framing.rs:32-45 | Writes header and body, or refuses exactly bodies above 512 bytes |
| MeshFraming.FramedBytes | crates/latentmesh-meshtastic/src/framing.rs:32-45 | The four header bytes and the body |
| MeshFraming.ByteReader.ReadNext | crates/latentmesh-meshtastic/src/framing.rs:50-83 | The blocking reader with its resynchronising loops returns the first frame of the stream and stops right behind it |
| MeshFraming.FirstBytesDecide | crates/latentmesh-meshtastic/src/framing.rs:50-83 | What the first bytes of a stream make the reader do: skip garbage, take a repeated start as a new one, distrust a length above 512, or return a frame |
| MeshFraming.FrameDecoder.Push | crates/latentmesh-meshtastic/src/framing.rs:123-175 | State after any chunk; between frames nothing is buffered, within one less than its length |
| MeshFraming.DecoderEmitsAllReads | crates/latentmesh-meshtastic/src/framing.rs:50-175 | On every byte stream the push decoder emits exactly the frames of repeated read_frame, in order |
| MeshFraming.StreamIsRead | crates/latentmesh-meshtastic/src/framing.rs:32-83 | Frames written one after the other are read back one after the other |
| MeshFraming.SingleFrameIff | crates/latentmesh-meshtastic/src/framing.rs:188-200 | decode_single_frame accepts exactly what write_frame writes |
| Protobuf.EncodeVarint | crates/latentmesh-meshtastic/src/protobuf.rs:15-25 | The shifting loop writes the base-128 form |
| Protobuf.ReadVarint | crates/latentmesh-meshtastic/src/protobuf.rs:29-38 | The loop over at most ten groups, with its 64-bit shifts and bitwise or |
| Protobuf.VarintRoundTrip | crates/latentmesh-meshtastic/src/protobuf.rs:15-38 | Every 64-bit value takes at most ten bytes and is read back, whatever follows |
| Protobuf.BytesFieldReads | crates/latentmesh-meshtastic/src/protobuf.rs:61-123 | A bytes field is read back with its number and length, whatever follows |
| Protobuf.Fixed32FieldReads | crates/latentmesh-meshtastic/src/protobuf.rs:55-123 | A fixed32 field is read back |
| Protobuf.VarintFieldReads | crates/latentmesh-meshtastic/src/protobuf.rs:46-123 | A varint field is read back |
| Protobuf.FieldRefusedBecause | crates/latentmesh-meshtastic/src/protobuf.rs:83-123 | Which fields are refused, and why, for each of the eight wire types |
| Protobuf.ForEachField | crates/latentmesh-meshtastic/src/protobuf.rs:129-140 | Visits every field in order and stops at the first error |
| MeshData.DataFitsMesh | crates/latentmesh-meshtastic/src/data.rs:113-118 | A payload of at most 227 bytes makes a Data message of at most 233, and 227 makes exactly 233 |
| MeshData.EncodeToRadioData | crates/latentmesh-meshtastic/src/data.rs:146-157 | Writes the nested messages, for payloads of any length memory can hold |
| MeshData.ToRadioBytes | crates/latentmesh-meshtastic/src/data.rs:113-157 | The nested messages byte by byte, destination low byte first |
| MeshData.DecodeFromRadio | crates/latentmesh-meshtastic/src/data.rs:175-217 | The two field loops compute the extraction of the carried data |
| MeshData.EchoRoundTrip | crates/latentmesh-meshtastic/src/data.rs:146-247 | What is sent, echoed by the node, is read back with its port and payload |
| MeshData.ReceivedFromSender | crates/latentmesh-meshtastic/src/data.rs:175-217 | A packet from another node is read back with its sender, port and payload |
| MeshData.EncryptedRefused | crates/latentmesh-meshtastic/src/data.rs:191-211 | An encrypted packet is an error, not silence |
| MeshAdapter.EncodeMessage | crates/latentmesh-meshtastic/src/adapter.rs:86-110 | Succeeds exactly on messages that fragment into valid frames; one packet per fragment, Data at most 233 bytes, FrameTooLarge unreachable |
| MeshAdapter.AcceptableIff | crates/latentmesh-meshtastic/src/adapter.rs:86-110 | The messages that can be sent, as numbers |
| MeshAdapter.HeadersAre | crates/latentmesh-meshtastic/src/adapter.rs:86-110 | The header of each fragment is that of the message |
| MeshAdapter.StreamingReceiver.Push | crates/latentmesh-meshtastic/src/adapter.rs:166-174 | State and answer after a chunk; bodies behind an error stay queued |
| MeshAdapter.StreamingReceiver.NextMessage | crates/latentmesh-meshtastic/src/adapter.rs:176-178 | Takes the oldest waiting message, if there is one |
| MeshAdapter.GarbageReported | crates/latentmesh-meshtastic/src/adapter.rs:118-142 | A body on the private port that is no frame is an error and leaves the table alone |
| MeshAdapter.PushesIngestReads | crates/latentmesh-meshtastic/src/adapter.rs:166-174 | However the stream is cut and whatever errs: the bodies of the whole stream have been ingested in order up to some point, each error was returned by one push, the bodies behind it are queued, and none is after a push without an error |
| MeshAdapter.ChunksIngestReads | crates/latentmesh-meshtastic/src/adapter.rs:166-174 | A stream none of whose bodies errs is ingested whole, however it is cut |
| MeshAdapter.EchoesCounted | crates/latentmesh-meshtastic/src/adapter.rs:86-178 | A message's packets, echoed in any order and number among other traffic, in any chunks: no push fails, and the message comes out exactly as often as all its packets have arrived since it last did |
| MeshAdapter.EchoedMessageArrives | crates/latentmesh-meshtastic/src/adapter.rs:86-178 | Once all packets have arrived the message has come out, and it comes out exactly once if and only if what arrives behind the last missing packet does not hold all of them again |
| MeshAdapter.EchoedTwiceArrivesTwice | crates/latentmesh-meshtastic/src/adapter.rs:112-147 | A message all of whose packets arrive twice comes out twice, with no error |

## Left out

- Modems, channel simulation and LLR assists: floating-point signal processing. Soft values are given integers in -128..127.
- `soft_metric` in c/src/fec.c: its float formula; only its range 0..544 is used, by letting the metric be any function into it.
- Ed25519, SHA-256 and the sign, verify, receive and emit callbacks: parameters of the model, as pure functions; a callback that re-enters the receiver or transmitter is not modelled.
- NULL-pointer argument checks and the optional `path_metric` pointer of the C functions: the model has no null buffers.
- Statistics counters of the C receiver, `lm_air_rx_reset` and `lm_air_rx_ingest_wire`: bookkeeping and a shorter path through the same functions.
- Policy and receiver circuit breakers, clocks and time budgets of c/src/runtime.c: easy counters around uninterpreted callbacks.
- ObserverQueue.EveryRunIsSafe: loads may be stale but each thread sees the other's counter only move forward; weaker hardware orders are not modelled, because the acquire and release operations of the code rule them out.
- Timestamp.NextDay: does not model 64-bit overflow of the day count, because the promise is about dates a 64-bit second count can name.
- SoftBurst.StreamYieldsFrames: buffers are sequences, so reserving and reusing their storage is not modelled; their bounds are (`SoftBurst.PushBounded`).
- AirReceiver.Receiver.IngestFrame: replay windows are values in a list that the method reassigns, where the source updates each window in place; `Replay.ReplayWindow` is the window as an object.
- `AirReceiver` entry points that take IQ or PCM samples or soft streams: demodulation in front of `IngestFrameBytes`.
- CFrame.FrameEncode: for a payload length of 241 to 255 the bytes behind the 240-byte buffer are a parameter; that reading them is undefined in C is not modelled.
- CReceiverObjects.Receiver.DeliverSlot: the callback is a pure function of the message, so that it runs between the commit and the wipe shows only in the method's own order of steps.
- SoftBurst.ChunkingLosesOnly: follows a stream up to its first error; values behind an error in the same slice are not looked at by the code either.
- MeshAdapter.PushesIngestReads: messages taken with `next_message` between pushes are not part of the run.
- DeltaAlgebra.Apply: equality of 128-bit hashes is taken as the code takes it; that unequal states may collide is not modelled.
- MeshData.EchoRoundTrip: the handshake messages of crates/latentmesh-meshtastic/src/data.rs are not part of this model; they carry no message data.
- MeshAdapter.StreamingReceiver.Push: the adapter's reassembler is a field of the receiver itself, and reader and writer are byte strings, so partial writes and I/O errors other than the end of the stream are not modelled.
- Allocation failure, `reserve` and capacity of vectors: not modelled.
- HTTP, MCP and agent bridges, JSON, firmware, benches, statistics and linear algebra of the repository: I/O and numeric code outside the protocol stack.
