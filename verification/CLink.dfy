/** From `tx_send` to the message callback over a channel that flips bits. */
module CLink {
  import opened Words
  import opened Common
  import opened BigEndian
  import opened BitBuffers
  import opened BitStrings
  import opened CStatus
  import opened CMessage
  import opened CTransmitter
  import opened CReceiver
  import AirErrors
  import CFec
  import CFrame
  import Envelope
  import Interleaver
  import Replay
  import Trellis
  import Viterbi

  // ----- one block ---------------------------------------------------------------------------

  datatype BlockFrame = Got(frame: CFrame.Frame) | Bad(status: Status)

  predicate ArgumentError(b: Block) {
    b.rawLen < 16 || b.rawLen > MAX_WIRE_BYTES || b.bitLen == 0 || b.bitLen > FEC_MAX_CODED_BITS
    || b.interleaveRows > 64 || b.interleaveRows == 1 || b.fec > 1
  }

  /** The block's bits in coded order. */
  function CodedWord(b: Block): (bits: seq<bool>)
    requires |b.data| == FEC_MAX_CODED_BYTES && 0 < b.bitLen <= FEC_MAX_CODED_BITS
    ensures |bits| == b.bitLen
  {
    hide BitsOf, Interleaver.Columns, Interleaver.Deinterleaved;
    var bits := BitsOf(b.data)[..b.bitLen];
    if b.interleaveRows == 0 then bits
    else
      Interleaver.Deinterleaved(bits, Interleaver.Columns(|bits|, b.interleaveRows))
  }

  datatype RawBlock = Raw(bytes: seq<byte>) | NoRaw(status: Status)

  /** The frame bytes of a block: undo the interleaver, then the code. */
  function RawOfBlock(b: Block): RawBlock
    requires |b.data| == FEC_MAX_CODED_BYTES
  {
    hide BitsOf, Viterbi.Decoded, CodedWord;
    if ArgumentError(b) then NoRaw(ERR_ARGUMENT)
    else if b.fec != 0 && b.bitLen != CFec.EncodedBits(b.rawLen) then NoRaw(ERR_FEC)
    else if b.fec == 0 && b.bitLen != b.rawLen * 8 then NoRaw(ERR_FORMAT)
    else if b.fec != 0 then Raw(BytesOf(Viterbi.Decoded(Viterbi.Hard(CodedWord(b)), 8 * b.rawLen + FEC_TAIL_BITS)))
    else Raw(BytesOf(CodedWord(b)))
  }

  /** What `ingest_block` makes of a block before it looks at its own state. */
  function FrameOfBlock(b: Block): (r: BlockFrame)
    requires |b.data| == FEC_MAX_CODED_BYTES
    ensures r.Got? ==> CFrame.Valid(r.frame)
  {
    hide CFrame.Valid, CFrame.Decode, RawOfBlock;
    match RawOfBlock(b)
    case NoRaw(status) => Bad(status)
    case Raw(raw) =>
      match CFrame.Decode(raw)
      case Rejected(status) => Bad(status)
      case Decoded(f) =>
        CFrame.Canonical(raw);
        if (f.flags / CFrame.FLAG_FEC % 2 == 1) != (b.fec != 0) then Bad(ERR_FORMAT) else Got(f)
  }

  function IngestedBlock(rx: Rx, hooks: Hooks, b: Block): Outcome
    requires Shaped(rx) && |b.data| == FEC_MAX_CODED_BYTES
  {
    match FrameOfBlock(b)
    case Bad(status) => Outcome(rx, status, AirErrors.None)
    case Got(f) => Ingested(rx, hooks, f)
  }

  /** The channel may flip up to four data bits of a block with error correction,
    * and none of one without. */
  ghost predicate Damaged(r: Block, b: Block) {
    && r.rawLen == b.rawLen && r.bitLen == b.bitLen && r.fec == b.fec && r.interleaveRows == b.interleaveRows
    && |r.data| == |b.data| == FEC_MAX_CODED_BYTES && b.bitLen <= FEC_MAX_CODED_BITS
    && Trellis.Distance(BitsOf(r.data)[..r.bitLen], BitsOf(b.data)[..b.bitLen]) <= if b.fec != 0 then 4 else 0
  }

  lemma {:induction false} DistanceZero(a: seq<bool>, b: seq<bool>)
    requires |a| == |b| && Trellis.Distance(a, b) == 0
    ensures a == b
  {
    if a != [] { DistanceZero(Trellis.Front(a), Trellis.Front(b)); }
  }

  lemma WordDistance(r: Block, b: Block, p: ProfileConfig, f: CFrame.Frame)
    requires ValidProfile(p) && CFrame.Valid(f) && Carries(b, p, f) && Damaged(r, b) && 0 < b.bitLen
    ensures |CodedWord(r)| == |CodedBits(p, f)|
    ensures Trellis.Distance(CodedWord(r), CodedBits(p, f)) <= if p.useFec != 0 then 4 else 0
  {
    hide BitsOf, CodedBits, Trellis.Distance, Interleaver.Interleaved, Interleaver.Deinterleaved, CFrame.Valid;
    hide CFrame.Encoded, Interleaver.Columns;
    if p.interleaveRows != 0 {
      var bits := CodedBits(p, f);
      var c := Interleaver.Columns(|bits|, p.interleaveRows);
      Interleaver.RoundTrip(bits, c);
      DeinterleavedDistance(BitsOf(r.data)[..r.bitLen], BitsOf(b.data)[..b.bitLen], c);
    }
  }

  /** The damaged block still holds its frame. */
  lemma BlockSurvives(r: Block, b: Block, p: ProfileConfig, f: CFrame.Frame)
    requires ValidProfile(p) && CFrame.Valid(f) && Carries(b, p, f) && Damaged(r, b)
    requires (f.flags / CFrame.FLAG_FEC % 2 == 1) == (p.useFec != 0)
    ensures FrameOfBlock(r) == Got(f)
  {
    hide BitsOf, CodedWord, Trellis.Distance, CFrame.Valid, CFrame.Encoded, CFrame.Decode, Viterbi.Decoded;
    hide Viterbi.Hard, Trellis.Codeword, ChannelBits;
    var wire := CFrame.Encoded(f);
    EncodedSize(f);
    WordDistance(r, b, p, f);
    if p.useFec != 0 {
      Viterbi.CorrectsFourErrors(BitsOf(wire), CodedWord(r));
    } else {
      DistanceZero(CodedWord(r), BitsOf(wire));
    }
    BytesAre(wire, BitsOf(wire));
    CFrame.RoundTrip(f);
  }

  // ----- one message in progress ----------------------------------------------------------------

  /** The parts after the first `n` frames. */
  ghost function PartsUpTo(s: Sending, n: nat): (ps: seq<Part>)
    requires SendingOk(s) && n <= s.count
    ensures |ps| == MAX_FRAGMENTS
  {
    seq(MAX_FRAGMENTS, i requires 0 <= i < MAX_FRAGMENTS =>
      if i < n then AirErrors.Some(FrameAt(s, i).payload) else AirErrors.None)
  }

  function KeyOfSending(s: Sending): Key { (s.streamId, s.sequence) }

  /** The receiver has stored exactly the first `n` frames of the message. */
  ghost predicate Holding(rx: Rx, s: Sending, n: nat)
    requires SendingOk(s) && n <= s.count
  {
    RxOk(rx) && !Replay.IsReplay(WindowOf(rx.replay, s.streamId), s.sequence)
    && var k := FindSlot(rx.slots, KeyOfSending(s));
       if n == 0 then k == |rx.slots|
       else k < |rx.slots| && SameMessage(rx.slots[k], FrameAt(s, 0)) && rx.slots[k].parts == PartsUpTo(s, n)
  }

  lemma FramesAlike(s: Sending, i: nat, f: Slot)
    requires SendingOk(s) && i < s.count && s.count > 0
    ensures SameMessage(f, FrameAt(s, 0)) == SameMessage(f, FrameAt(s, i)) && FrameKey(FrameAt(s, i)) == KeyOfSending(s)
    ensures FrameAt(s, i).fragmentIndex == i && FrameAt(s, i).fragmentCount == s.count
  {
    hide CastCount;
  }

  lemma NextPart(s: Sending, n: nat)
    requires SendingOk(s) && n < s.count
    ensures PartsUpTo(s, n)[n := AirErrors.Some(FrameAt(s, n).payload)] == PartsUpTo(s, n + 1)
    ensures Complete(PartsUpTo(s, n + 1), s.count) <==> n + 1 == s.count
  {
    hide CastCount, FrameAt;
    if n + 1 < s.count { assert PartsUpTo(s, n + 1)[n + 1].None?; }
  }

  /** The slot the frame goes to, before it is stored. */
  lemma SlotForFrame(rx: Rx, s: Sending, n: nat)
    requires SendingOk(s) && n < s.count && Holding(rx, s, n)
    ensures var a := Allocated(rx, FrameAt(s, n));
            && RxOk(a.rx) && Shaped(a.rx) && a.rx.slots[a.index].used && KeyOf(a.rx.slots[a.index]) == KeyOfSending(s)
            && SameMessage(a.rx.slots[a.index], FrameAt(s, n)) && a.rx.slots[a.index].parts == PartsUpTo(s, n)
  {
    hide CastCount, FrameAt, SlotOk, DistinctSlots, DistinctStreams, Victim;
    FramesAlike(s, n, EmptySlot());
    assert PartsUpTo(s, 0) == NoParts();
    hide SendingOk, PartsUpTo;
    var f := FrameAt(s, n);
    AllocatedOk(rx, f);
    OkShaped(Allocated(rx, f).rx);
    if n > 0 {
      FramesAlike(s, n, rx.slots[FindSlot(rx.slots, KeyOfSending(s))]);
    }
  }

  /** The next frame of the message: stored, or, if it is the last, handed on. */
  lemma NextFrameStored(rx: Rx, hooks: Hooks, s: Sending, n: nat)
    requires SendingOk(s) && n < s.count && Holding(rx, s, n)
    ensures Shaped(rx)
    ensures var f, a := FrameAt(s, n), Allocated(rx, FrameAt(s, n));
            var o := Ingested(rx, hooks, f);
            if n + 1 < s.count
            then o.status == MORE && o.delivered.None? && Holding(o.rx, s, n + 1)
            else o == Delivered(Filled(a.rx, a.index, f), hooks, a.index, f)
  {
    assert PartsUpTo(s, n)[n].None?;
    hide CastCount, FrameAt, SlotOk, DistinctStreams, Victim, Parse, Assembled, Complete, SendingOk, PartsUpTo;
    hide Allocated, SameMessage, Delivered;
    var f, a := FrameAt(s, n), Allocated(rx, FrameAt(s, n));
    OkShaped(rx);
    SlotForFrame(rx, s, n);
    FramesAlike(s, n, a.rx.slots[a.index]);
    NextPart(s, n);
    var filled := Filled(a.rx, a.index, f);
    if n + 1 < s.count {
      IngestKeeps(rx, hooks, f);
    }
  }

  lemma {:induction false} AssembledIsPayloads(s: Sending, n: nat)
    requires SendingOk(s) && n <= s.count
    ensures Assembled(PartsUpTo(s, s.count)[..n]) == Payloads(s, n)
  {
    hide CastCount, FrameAt;
    if n > 0 {
      AssembledIsPayloads(s, n - 1);
      assert PartsUpTo(s, s.count)[..n][..n - 1] == PartsUpTo(s, s.count)[..n - 1];
    }
  }

  // ----- the end of the message -----------------------------------------------------------------------

  /** An envelope cut short is never taken for a message. */
  lemma ShortEnvelope(m: Message, tail: seq<byte>, k: nat, outer: Outer, verify: Verify)
    requires |m.body| <= 0xffff && |tail| == SignatureLen(m) && k < EnvelopeLen(m)
    ensures Parse((Canonical(m) + tail)[..k], outer, verify) == Refused(ERR_FORMAT)
  {
    var e := Canonical(m) + tail;
    var a := e[..k];
    if k >= SEMANTIC_HEADER_BYTES {
      CountsInHeader(m);
      assert a[46] == Header(m)[46];
      assert a[28..30] == Header(m)[28..30];
      hide Header, FromBe;
    }
  }

  lemma CountsInHeader(m: Message)
    requires |m.body| <= 0xffff
    ensures Header(m)[46] == SignatureLen(m) && Get16(Header(m), 28) == |m.body|
  {
    Pow256Values();
    FromBeOfBe(|m.body|, 2);
    hide Be, FromBe;
    assert Header(m)[28..30] == Be(|m.body|, 2);
  }

  lemma SignatureTail(sign: Sign, m: Message)
    requires |m.body| <= 0xffff && BeginError(Idle, sign, m).OK?
    ensures Sendable(m) && m.authenticated == SignatureOf(sign, m).Some?
    ensures EnvelopeOf(sign, m) == Canonical(m) + Envelope.SignatureBytes(AsEnvelope(m, SignatureOf(sign, m)))
  {
    hide Canonical;
  }

  /** The receiver's signature check accepts what the transmitter signed. */
  predicate HooksMatch(hooks: Hooks, sign: Sign, m: Message)
    requires |m.body| <= 0xffff && BeginError(Idle, sign, m).OK?
  {
    m.authenticated ==> hooks.verify.Some? && hooks.verify.value(Canonical(m), SignatureOf(sign, m).value)
  }

  /** What the assembled parts are taken for: the message exactly when the
    * fragment count did not wrap. */
  lemma ParseOfSent(hooks: Hooks, p: ProfileConfig, sign: Sign, streamId: u16, m: Message, sequence: u16)
    requires ValidProfile(p) && |m.body| <= 0xffff && BeginError(Idle, sign, m).OK? && HooksMatch(hooks, sign, m)
    requires SendingOk(SendingFor(p, sign, streamId, m, sequence))
    ensures var s := SendingFor(p, sign, streamId, m, sequence);
            Parse(Payloads(s, s.count), Outer(m.classId, m.priority, StateTag(m), m.authenticated), hooks.verify)
            == if DivCeil(EnvelopeLen(m), p.fragmentPayloadBytes) <= 255 then Accepted(m) else Refused(ERR_FORMAT)
  {
    hide CastCount, FrameAt, Payloads, DivCeil, SendingOk, Parse, Canonical, Envelope.SignatureBytes, AsEnvelope;
    var s := SendingFor(p, sign, streamId, m, sequence);
    SignatureTail(sign, m);
    WholeEnvelopeIff(s);
    if DivCeil(EnvelopeLen(m), p.fragmentPayloadBytes) <= 255 {
      ParseOfEnvelope(m, SignatureOf(sign, m), hooks.verify);
    } else {
      PayloadsArePrefix(s, s.count);
      CountCoversIff(|s.envelope|, p.fragmentPayloadBytes);
      var k := Least(s.count * p.fragmentPayloadBytes, |s.envelope|);
      ShortEnvelope(m, Envelope.SignatureBytes(AsEnvelope(m, SignatureOf(sign, m))), k,
                    Outer(m.classId, m.priority, StateTag(m), m.authenticated), hooks.verify);
    }
  }

  lemma OuterFlag(s: Sending, i: nat)
    requires SendingOk(s) && i < s.count
    ensures (FrameAt(s, i).flags / CFrame.FLAG_AUTHENTICATED % 2 == 1) == s.authenticated
    ensures (FrameAt(s, i).flags / CFrame.FLAG_FEC % 2 == 1) == (s.profile.useFec != 0)
  {
    hide CastCount;
  }

  /** A number just committed is a replay from then on. */
  lemma CommittedIsReplay(w: Replay.Window, sequence: u16)
    requires !Replay.IsReplay(w, sequence)
    ensures Replay.IsReplay(Replay.CommitReplay(w, sequence), sequence)
  {
    hide Bit, SetBit, ShiftLeft;
    Replay.OneBits(0);
    if w.initialized {
      var delta := Replay.SequenceDelta(sequence, w.highest);
      if 0 < delta < 64 { BitOfSetBit(ShiftLeft(w.bitmap, delta, 64), 0, 0); }
      if delta <= 0 { BitOfSetBit(w.bitmap, -delta, -delta); }
    }
  }

  /** The last frame: the message is handed on once and remembered, or, if the
    * count wrapped, refused. */
  lemma LastFrame(rx: Rx, hooks: Hooks, p: ProfileConfig, sign: Sign, streamId: u16, m: Message, sequence: u16)
    requires ValidProfile(p) && |m.body| <= 0xffff && BeginError(Idle, sign, m).OK? && HooksMatch(hooks, sign, m)
    requires var s := SendingFor(p, sign, streamId, m, sequence);
             SendingOk(s) && Holding(rx, s, s.count - 1)
    ensures Shaped(rx)
    ensures var s := SendingFor(p, sign, streamId, m, sequence);
            var o := Ingested(rx, hooks, FrameAt(s, s.count - 1));
            if DivCeil(EnvelopeLen(m), p.fragmentPayloadBytes) <= 255
            then o.delivered == AirErrors.Some(m) && o.status == (if hooks.receive(m) then COMPLETE else ERR_CALLBACK)
                 && Replay.IsReplay(WindowOf(o.rx.replay, streamId), sequence)
            else o.delivered.None? && o.status == ERR_FORMAT && o.rx.replay == rx.replay
  {
    var s := SendingFor(p, sign, streamId, m, sequence);
    assert s.count > 0;
    hide CastCount, FrameAt, DivCeil, SendingOk, Parse, Payloads, Canonical, Allocated, Assembled, PartsUpTo;
    hide Replay.IsReplay, Remembered, Complete, RxOk;
    var n := s.count - 1;
    var f, a := FrameAt(s, n), Allocated(rx, FrameAt(s, n));
    NextFrameStored(rx, hooks, s, n);
    SlotForFrame(rx, s, n);
    NextPart(s, n);
    AssembledIsPayloads(s, s.count);
    OuterFlag(s, n);
    FramesAlike(s, n, a.rx.slots[a.index]);
    ParseOfSent(hooks, p, sign, streamId, m, sequence);
    var filled := Filled(a.rx, a.index, f);
    assert OuterOf(filled.slots[a.index], f) == Outer(m.classId, m.priority, StateTag(m), m.authenticated);
    OkTables(rx);
    RememberedWindow(filled.(slots := filled.slots[a.index := EmptySlot()]), streamId, sequence);
    CommittedIsReplay(WindowOf(rx.replay, streamId), sequence);
  }

  lemma RememberedWindow(rx: Rx, streamId: u16, sequence: u16)
    requires |rx.replay| == REPLAY_STREAMS && DistinctStreams(rx.replay)
    ensures WindowOf(Remembered(rx, streamId, sequence).replay, streamId)
            == Replay.CommitReplay(WindowOf(rx.replay, streamId), sequence)
  {
    hide Victim, Replay.CommitReplay;
    CommitInitialized(WindowOf(rx.replay, streamId), sequence);
    var after := Remembered(rx, streamId, sequence).replay;
    var i := FindReplay(rx.replay, streamId);
    var at := if i < |rx.replay| then i else Victim(EntryUses(rx.replay));
    assert after[at] == ReplayEntry(streamId, Replay.CommitReplay(WindowOf(rx.replay, streamId), sequence),
        Tick(rx.clock));
    assert FindReplay(after, streamId) == at by {
      forall j | 0 <= j < |after| && j != at ensures !(after[j].window.initialized && after[j].streamId == streamId) {
        assert after[j] == rx.replay[j];
        if i < |rx.replay| { assert rx.replay[i].window.initialized; }
      }
    }
  }

  // ----- the whole message ---------------------------------------------------------------------------

  ghost predicate WellFormed(blocks: seq<Block>) {
    forall i :: 0 <= i < |blocks| ==> |blocks[i].data| == FEC_MAX_CODED_BYTES
  }

  lemma BlockKeeps(rx: Rx, hooks: Hooks, b: Block)
    requires RxOk(rx) && |b.data| == FEC_MAX_CODED_BYTES
    ensures Shaped(rx) && RxOk(IngestedBlock(rx, hooks, b).rx)
  {
    hide RxOk, Ingested, FrameOfBlock, Shaped;
    OkShaped(rx);
    if FrameOfBlock(b).Got? { IngestKeeps(rx, hooks, FrameOfBlock(b).frame); }
  }

  /** The receiver after a list of blocks. */
  ghost function RxAfterBlocks(rx: Rx, hooks: Hooks, blocks: seq<Block>): (after: Rx)
    requires RxOk(rx) && WellFormed(blocks)
    ensures RxOk(after) && Shaped(after)
  {
    if blocks == [] then
      OkShaped(rx);
      rx
    else
      var before := RxAfterBlocks(rx, hooks, blocks[..|blocks| - 1]);
      BlockKeeps(before, hooks, blocks[|blocks| - 1]);
      OkShaped(IngestedBlock(before, hooks, blocks[|blocks| - 1]).rx);
      IngestedBlock(before, hooks, blocks[|blocks| - 1]).rx
  }

  /** What block number `i` of the list led to. */
  ghost function OutcomeOf(rx: Rx, hooks: Hooks, blocks: seq<Block>, i: nat): Outcome
    requires RxOk(rx) && WellFormed(blocks) && i < |blocks|
  {
    IngestedBlock(RxAfterBlocks(rx, hooks, blocks[..i]), hooks, blocks[i])
  }

  /** The blocks of the message, one for each frame, each damaged at most as much
    * as its code repairs. */
  ghost predicate Received(received: seq<Block>, sent: seq<Block>, s: Sending)
    requires SendingOk(s)
  {
    CarryAll(sent, s) && |sent| == |received| == s.count
    && forall i :: 0 <= i < |sent| ==> Damaged(received[i], sent[i])
  }

  lemma ReceivedFrame(received: seq<Block>, sent: seq<Block>, s: Sending, i: nat)
    requires SendingOk(s) && Received(received, sent, s) && i < s.count
    ensures |received[i].data| == FEC_MAX_CODED_BYTES && FrameOfBlock(received[i]) == Got(FrameAt(s, i))
  {
    hide CastCount, FrameAt, Carries, FrameOfBlock;
    assert Damaged(received[i], sent[i]);
    OuterFlag(s, i);
    BlockSurvives(received[i], sent[i], s.profile, FrameAt(s, i));
  }

  lemma ReceivedWellFormed(received: seq<Block>, sent: seq<Block>, s: Sending)
    requires SendingOk(s) && Received(received, sent, s)
    ensures WellFormed(received)
  {
    hide SendingOk, CarryAll;
    forall i | 0 <= i < |received| ensures |received[i].data| == FEC_MAX_CODED_BYTES {
      assert Damaged(received[i], sent[i]);
    }
  }

  /** One block more. */
  lemma AfterNext(rx: Rx, hooks: Hooks, blocks: seq<Block>, n: nat)
    requires RxOk(rx) && WellFormed(blocks) && n < |blocks|
    ensures RxAfterBlocks(rx, hooks, blocks[..n + 1]) == OutcomeOf(rx, hooks, blocks, n).rx
  {
    hide RxOk, Shaped, IngestedBlock;
    assert blocks[..n + 1][..n] == blocks[..n];
  }

  lemma BlockOfFrame(rx: Rx, hooks: Hooks, received: seq<Block>, sent: seq<Block>, s: Sending, n: nat)
    requires SendingOk(s) && Received(received, sent, s) && WellFormed(received) && RxOk(rx) && n < s.count
    ensures n < |received| && OutcomeOf(rx, hooks, received, n)
            == Ingested(RxAfterBlocks(rx, hooks, received[..n]), hooks, FrameAt(s, n))
  {
    ReceivedFrame(received, sent, s, n);
    hide SendingOk, RxOk, Shaped, FrameOfBlock, Ingested, RxAfterBlocks, FrameAt;
  }

  lemma {:induction false} HoldsAfter(rx: Rx, hooks: Hooks, received: seq<Block>, sent: seq<Block>, s: Sending, n: nat)
    requires SendingOk(s) && Received(received, sent, s) && Holding(rx, s, 0) && n < s.count && WellFormed(received)
    requires n <= |received| && RxOk(rx)
    ensures Holding(RxAfterBlocks(rx, hooks, received[..n]), s, n)
    ensures n > 0 ==>
              OutcomeOf(rx, hooks, received, n - 1).status == MORE
              && OutcomeOf(rx, hooks, received, n - 1).delivered.None?
  {
    hide SendingOk, FrameAt, Holding, RxOk, Ingested, Received, Shaped, OutcomeOf;
    if n == 0 {
      assert received[..0] == [];
    } else {
      hide RxAfterBlocks;
      HoldsAfter(rx, hooks, received, sent, s, n - 1);
      AfterNext(rx, hooks, received, n - 1);
      BlockOfFrame(rx, hooks, received, sent, s, n - 1);
      NextFrameStored(RxAfterBlocks(rx, hooks, received[..n - 1]), hooks, s, n - 1);
    }
  }

  /** The receiver waits at every block but the last. */
  lemma AllButLastWait(rx: Rx, hooks: Hooks, received: seq<Block>, sent: seq<Block>, s: Sending)
    requires SendingOk(s) && Received(received, sent, s) && Holding(rx, s, 0)
    ensures RxOk(rx) && WellFormed(received)
    ensures forall i :: 0 <= i < |received| - 1 ==>
              OutcomeOf(rx, hooks, received, i).status == MORE && OutcomeOf(rx, hooks, received, i).delivered.None?
  {
    ReceivedWellFormed(received, sent, s);
    assert |received| == s.count && RxOk(rx);
    hide SendingOk, Received, RxOk, Holding, OutcomeOf, RxAfterBlocks;
    forall i | 0 <= i < |received| - 1
      ensures OutcomeOf(rx, hooks, received, i).status == MORE && OutcomeOf(rx, hooks, received, i).delivered.None?
    {
      HoldsAfter(rx, hooks, received, sent, s, i + 1);
    }
  }

  /** What the last block leads to. */
  lemma LastBlock(rx: Rx, hooks: Hooks, received: seq<Block>, sent: seq<Block>, s: Sending)
    requires SendingOk(s) && Received(received, sent, s) && Holding(rx, s, 0) && RxOk(rx) && WellFormed(received)
    ensures s.count > 0 && |received| == s.count
    ensures var before := RxAfterBlocks(rx, hooks, received[..s.count - 1]);
            && Holding(before, s, s.count - 1)
            && OutcomeOf(rx, hooks, received, s.count - 1) == Ingested(before, hooks, FrameAt(s, s.count - 1))
            && RxAfterBlocks(rx, hooks, received) == Ingested(before, hooks, FrameAt(s, s.count - 1)).rx
  {
    assert s.count > 0 && |received| == s.count;
    var n := s.count - 1;
    assert received[..n + 1] == received;
    hide SendingOk, Received, RxOk, Holding, OutcomeOf, RxAfterBlocks, FrameAt, Ingested, Shaped;
    HoldsAfter(rx, hooks, received, sent, s, n);
    BlockOfFrame(rx, hooks, received, sent, s, n);
    AfterNext(rx, hooks, received, n);
  }

  /** End to end.  Whatever the receiver holds already, if it has not seen this
    * message, then the damaged blocks of one `tx_send`, in order, make it wait
    * at every block but the last (`AllButLastWait`), and at the last hand on
    * exactly the message that was sent, and remember it.  If the fragment count
    * wrapped, nothing is handed on. */
  lemma SentIsDelivered(rx: Rx, hooks: Hooks, p: ProfileConfig, sign: Sign, streamId: u16, m: Message, sequence: u16,
                        sent: seq<Block>, received: seq<Block>)
    requires ValidProfile(p) && |m.body| <= 0xffff && BeginError(Idle, sign, m).OK? && HooksMatch(hooks, sign, m)
    requires var s := SendingFor(p, sign, streamId, m, sequence);
             SendingOk(s) && Received(received, sent, s) && Holding(rx, s, 0)
    ensures RxOk(rx) && WellFormed(received) && received != []
    ensures var last, after := OutcomeOf(rx, hooks, received, |received| - 1), RxAfterBlocks(rx, hooks, received);
            if DivCeil(EnvelopeLen(m), p.fragmentPayloadBytes) <= 255
            then last.delivered == AirErrors.Some(m)
                && last.status == (if hooks.receive(m) then COMPLETE else ERR_CALLBACK)
                 && Replay.IsReplay(WindowOf(after.replay, streamId), sequence)
            else last.delivered.None? && last.status == ERR_FORMAT
  {
    var s := SendingFor(p, sign, streamId, m, sequence);
    assert RxOk(rx);
    ReceivedWellFormed(received, sent, s);
    hide SendingOk, FrameAt, Ingested, Received, RxOk, Shaped, DivCeil, CastCount, Replay.IsReplay, HooksMatch;
    hide WellFormed;
    hide Holding, OutcomeOf, RxAfterBlocks, WindowOf;
    LastBlock(rx, hooks, received, sent, s);
    LastFrame(RxAfterBlocks(rx, hooks, received[..s.count - 1]), hooks, p, sign, streamId, m, sequence);
  }

  /** Once remembered, every further copy of any of its frames is refused and
    * changes nothing. */
  lemma CopyIsRefused(rx: Rx, hooks: Hooks, s: Sending, i: nat, sent: Block, received: Block)
    requires SendingOk(s) && i < s.count && RxOk(rx) && Replay.IsReplay(WindowOf(rx.replay, s.streamId), s.sequence)
    requires Carries(sent, s.profile, FrameAt(s, i)) && Damaged(received, sent)
    ensures Shaped(rx) && IngestedBlock(rx, hooks, received) == Outcome(rx, ERR_REPLAY, AirErrors.None)
  {
    hide CastCount, Carries, FrameOfBlock, Replay.IsReplay, RxOk, FrameAt;
    OkShaped(rx);
    FramesAlike(s, i, EmptySlot());
    OuterFlag(s, i);
    BlockSurvives(received, sent, s.profile, FrameAt(s, i));
  }

  /** A fresh receiver has seen no message. */
  lemma FreshIsReady(s: Sending)
    requires SendingOk(s)
    ensures Holding(FreshRx(), s, 0)
  {
    hide SendingOk, SlotOk, DistinctSlots, DistinctStreams;
    FreshOk();
    var rx := FreshRx();
    assert forall j :: 0 <= j < |rx.slots| ==> !rx.slots[j].used;
    assert forall j :: 0 <= j < |rx.replay| ==> !rx.replay[j].window.initialized;
    assert !WindowOf(rx.replay, s.streamId).initialized;
  }

  // ----- what is refused ---------------------------------------------------------------------

  /** Which blocks give no frame bytes, and which status they get. */
  lemma BlockRefusedBecause(b: Block)
    requires |b.data| == 514
    ensures RawOfBlock(b) == NoRaw(ERR_ARGUMENT)
       <==> !(16 <= b.rawLen <= 256) || !(1 <= b.bitLen <= 4108) || b.interleaveRows > 64 || b.interleaveRows == 1
            || b.fec > 1
    ensures RawOfBlock(b) != NoRaw(ERR_ARGUMENT) ==>
              && (RawOfBlock(b) == NoRaw(ERR_FEC) <==> b.fec == 1 && b.bitLen != 16 * b.rawLen + 12)
              && (RawOfBlock(b) == NoRaw(ERR_FORMAT) <==> b.fec == 0 && b.bitLen != 8 * b.rawLen)
              && (RawOfBlock(b).Raw? <==> b.bitLen == if b.fec == 1 then 16 * b.rawLen + 12 else 8 * b.rawLen)
  {
    hide BitsOf, Viterbi.Decoded, CodedWord;
  }

  /** What the frame bytes say of error correction must agree with the block. */
  lemma FlagMustAgree(b: Block)
    requires |b.data| == 514 && RawOfBlock(b).Raw?
    ensures match CFrame.Decode(RawOfBlock(b).bytes)
            case Rejected(status) => FrameOfBlock(b) == Bad(status)
            case Decoded(f) =>
              FrameOfBlock(b) == if f.flags / 2 % 2 == b.fec then Got(f) else Bad(ERR_FORMAT)
  {
    hide CFrame.Valid, CFrame.Decode, RawOfBlock;
    BlockRefusedBecause(b);
  }
}
