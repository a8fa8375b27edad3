/** The Rust receive path: windows per stream, reassembly, admission checks. */
module AirReceiver {
  import opened Words
  import opened BigEndian
  import opened AirErrors
  import opened Wire
  import opened Fragments
  import opened Replay
  import Envelope
  import DeltaCodec
  import CriticalStates
  import DeltaAlgebra
  import Sorting

  type Signature = Envelope.Signature

  /** The caller's signature check; uninterpreted. */
  type Verifier = (seq<byte>, Signature) -> bool

  // ----- admission ----------------------------------------------------------------

  /** The envelope, bound to the outer frame header. */
  function EnvelopeOf(m: ReassembledMessage): Result<Envelope.SemanticEnvelope> {
    var e :- Envelope.Decode(m.bytes);
    if e.class_ != m.meta.class_ || e.priority != m.meta.priority || Get16(e.stateHash, 0) != m.meta.stateTag
       || Contains(m.meta.flags, FLAG_SIGNED_ENVELOPE) != e.signature.Some? then Err(ResultStateMismatch)
    else Ok(e)
  }

  function DeltaFrom(m: ReassembledMessage, e: Envelope.SemanticEnvelope): Result<DeltaCodec.SemanticDelta> {
    if m.meta.class_ != StateDelta then Err(InvalidClass)
    else
      var delta :- Envelope.UnwrapDelta(e);
      if Get16(delta.resultHash, 0) != m.meta.stateTag then Err(ResultStateMismatch) else Ok(delta)
  }

  function VerifiedEnvelope(m: ReassembledMessage, verify: Verifier): Result<Envelope.SemanticEnvelope> {
    var e :- EnvelopeOf(m);
    if e.signature.None? then Err(AuthenticationRequired)
    else
      var signed :- Envelope.AuthenticationBytes(e);
      if verify(signed, e.signature.value) then Ok(e) else Err(AuthenticationFailed)
  }

  /** `semantic_delta`: the path for unsigned messages. */
  function UnsignedDelta(m: ReassembledMessage): Result<DeltaCodec.SemanticDelta> {
    var e :- EnvelopeOf(m);
    if e.signature.Some? then Err(AuthenticationRequired) else DeltaFrom(m, e)
  }

  function VerifiedDelta(m: ReassembledMessage, verify: Verifier): Result<DeltaCodec.SemanticDelta> {
    var e :- VerifiedEnvelope(m, verify);
    DeltaFrom(m, e)
  }

  function Admission(m: ReassembledMessage, verifier: Option<Verifier>): Result<()> {
    if Contains(m.meta.flags, FLAG_SIGNED_ENVELOPE) then
      if verifier.None? then Err(AuthenticationRequired)
      else
        var e :- VerifiedEnvelope(m, verifier.value);
        if m.meta.class_ == StateDelta then
          var _ :- DeltaFrom(m, e);
          Ok(())
        else Ok(())
    else if m.meta.class_ == StateDelta then
      var e :- EnvelopeOf(m);
      var _ :- DeltaFrom(m, e);
      Ok(())
    else Ok(())
  }

  // ----- state ---------------------------------------------------------------------

  datatype ReceiverState = Listening | Reassembling | MessageReady

  datatype StreamReplay = StreamReplay(streamId: u16, window: Window)

  datatype Config = Config(profile: WireProfile, flags: byte, reassembly: ReassemblerConfig, maxStreams: nat)

  function CheckConfig(c: Config): Result<()> {
    if c.maxStreams == 0 || c.maxStreams > 256 then Err(InvalidLength)
    else if !Fragments.ConfigOk(c.reassembly) then Err(InvalidLength)
    else Ok(())
  }

  datatype Rx = Rx(contexts: seq<Context>, replay: seq<StreamReplay>, state: ReceiverState)

  datatype RxOutcome = RxOutcome(rx: Rx, result: Result<Option<ReassembledMessage>>)

  /** The first entry of the stream, or the length if there is none. */
  function FindStream(replay: seq<StreamReplay>, streamId: u16): (i: nat)
    ensures i <= |replay|
    ensures i < |replay| ==> replay[i].streamId == streamId
    ensures forall j :: 0 <= j < i ==> replay[j].streamId != streamId
  {
    if replay == [] then 0 else if replay[0].streamId == streamId then 0 else 1 + FindStream(replay[1..], streamId)
  }

  /** The stream's window; a stream without an entry has the empty one. */
  function WindowOf(replay: seq<StreamReplay>, streamId: u16): Window {
    var i := FindStream(replay, streamId);
    if i < |replay| then replay[i].window else EMPTY
  }

  /** Why a frame is refused before it reaches the reassembler. */
  function Refusal(contexts: seq<Context>, replay: seq<StreamReplay>, frame: SparseRadioFrame): Option<AirError> {
    var i := FindStream(replay, frame.streamId);
    if i == |replay| then None
    else match Classify(replay[i].window, frame.sequence)
      case Accept => None
      case Duplicate => if Lookup(contexts, KeyOf(MetaOf(frame))).Some? then None else Some(AirError.Replay)
      case TooOld => Some(AirError.TooOld)
  }

  datatype CommitOutcome = CommitOutcome(replay: seq<StreamReplay>, result: Result<()>)

  function CommitError(w: Window, sequence: u16): Result<()> {
    match Classify(w, sequence)
    case Duplicate => Err(AirError.Replay) case TooOld => Err(AirError.TooOld) case Accept => Ok(())
  }

  function Commit(config: Config, replay: seq<StreamReplay>, streamId: u16, sequence: u16): CommitOutcome {
    var i := FindStream(replay, streamId);
    if i < |replay| then
      CommitOutcome(replay[i := StreamReplay(streamId, Committed(replay[i].window, sequence))],
                    CommitError(replay[i].window, sequence))
    else if |replay| == config.maxStreams then CommitOutcome(replay, Err(LimitExceeded))
    else CommitOutcome(replay + [StreamReplay(streamId, Committed(EMPTY, sequence))], Ok(()))
  }

  /** Admission, then commit, then delivery. */
  function Finished(config: Config, verifier: Option<Verifier>, rx: Rx, m: ReassembledMessage): RxOutcome {
    if Admission(m, verifier).Err? then RxOutcome(rx, Err(Admission(m, verifier).error))
    else
      var c := Commit(config, rx.replay, m.meta.streamId, m.meta.sequence);
      if c.result.Err? then RxOutcome(rx.(replay := c.replay), Err(c.result.error))
      else RxOutcome(Rx(rx.contexts, c.replay, MessageReady), Ok(Some(m)))
  }

  function Ingested(config: Config, verifier: Option<Verifier>, before: Rx, frame: SparseRadioFrame): RxOutcome {
    var rx := before.(state := Listening);
    if frame.profile != config.profile then RxOutcome(rx, Err(InvalidProfile))
    else if Contains(config.flags, FLAG_FEC) != Contains(frame.flags, FLAG_FEC) then RxOutcome(rx, Err(InvalidFlags))
    else if Contains(frame.flags, FLAG_SIGNED_ENVELOPE) && verifier.None? then
      RxOutcome(rx.(contexts := Cleared(rx.contexts, KeyOf(MetaOf(frame)))), Err(AuthenticationRequired))
    else if Refusal(rx.contexts, rx.replay, frame).Some? then
      RxOutcome(rx, Err(Refusal(rx.contexts, rx.replay, frame).value))
    else
      var p := Pushed(config.reassembly, rx.contexts, frame);
      if p.result.Err? then RxOutcome(rx.(contexts := p.contexts), Err(p.result.error))
      else if p.result.value.None? then RxOutcome(Rx(p.contexts, rx.replay, Reassembling), Ok(None))
      else Finished(config, verifier, rx.(contexts := p.contexts), p.result.value.value)
  }

  function IngestedBytes(config: Config, verifier: Option<Verifier>, before: Rx, bytes: seq<byte>): RxOutcome {
    var frame := Wire.Decode(bytes);
    if frame.Err? then RxOutcome(before.(state := Listening), Err(frame.error))
    else Ingested(config, verifier, before, frame.value)
  }

  class Receiver {
    const config: Config
    const reassembler: Reassembler
    var replay: seq<StreamReplay>
    var state: ReceiverState

    predicate Wired()
      reads this, reassembler
    {
      reassembler.config == config.reassembly
    }

    function View(): Rx
      reads this, reassembler
    {
      Rx(reassembler.contexts, replay, state)
    }

    constructor (config: Config)
      requires CheckConfig(config).Ok?
      ensures fresh(reassembler) && this.config == config && Wired() && View() == Rx([], [], Listening)
    {
      this.config := config;
      reassembler := new Reassembler(config.reassembly);
      replay := [];
      state := Listening;
    }

    method CommitReplay(streamId: u16, sequence: u16) returns (r: Result<()>)
      modifies this
      ensures CommitOutcome(replay, r) == Commit(config, old(replay), streamId, sequence)
      ensures state == old(state)
    {
      assert Classify(EMPTY, sequence) == Accept;
      hide Classify, Committed;
      var i := FindStream(replay, streamId);
      if i < |replay| {
        r := CommitError(replay[i].window, sequence);
        replay := replay[i := StreamReplay(streamId, Committed(replay[i].window, sequence))];
        return;
      }
      if |replay| == config.maxStreams { return Err(LimitExceeded); }
      var window := new ReplayWindow();
      r := window.Commit(sequence);
      if r.Err? { return; }
      replay := replay + [StreamReplay(streamId, window.State())];
      return Ok(());
    }

    method IngestFrame(frame: SparseRadioFrame, verifier: Option<Verifier>)
        returns (r: Result<Option<ReassembledMessage>>)
      requires Wired()
      modifies this, reassembler
      ensures Wired()
      ensures RxOutcome(View(), r) == Ingested(config, verifier, old(View()), frame)
    {
      hide Contains, Pushed, Admission, Commit, Classify, Cleared, Find;
      state := Listening;
      if frame.profile != config.profile { return Err(InvalidProfile); }
      if Contains(config.flags, FLAG_FEC) != Contains(frame.flags, FLAG_FEC) { return Err(InvalidFlags); }
      if Contains(frame.flags, FLAG_SIGNED_ENVELOPE) && verifier.None? {
        reassembler.Clear(frame.streamId, frame.sequence);
        return Err(AuthenticationRequired);
      }
      var i := FindStream(replay, frame.streamId);
      if i < |replay| {
        match Classify(replay[i].window, frame.sequence) {
          case Accept =>
          case Duplicate =>
            if !reassembler.HasInFlight(frame.streamId, frame.sequence) { return Err(AirError.Replay); }
          case TooOld => return Err(AirError.TooOld);
        }
      }
      var complete :- reassembler.Push(frame);
      if complete.None? {
        state := Reassembling;
        return Ok(None);
      }
      var message := complete.value;
      var _ :- Admission(message, verifier);
      var _ :- CommitReplay(message.meta.streamId, message.meta.sequence);
      state := MessageReady;
      return Ok(Some(message));
    }

    method IngestFrameBytes(bytes: seq<byte>, verifier: Option<Verifier>)
        returns (r: Result<Option<ReassembledMessage>>)
      requires Wired()
      modifies this, reassembler
      ensures Wired()
      ensures RxOutcome(View(), r) == IngestedBytes(config, verifier, old(View()), bytes)
    {
      hide Ingested, Wire.Decode;
      state := Listening;
      var frame :- Wire.Decode(bytes);
      r := IngestFrame(frame, verifier);
      IngestIgnoresState(config, verifier, old(View()), frame);
    }
  }

  lemma IngestIgnoresState(config: Config, verifier: Option<Verifier>, rx: Rx, frame: SparseRadioFrame)
    ensures Ingested(config, verifier, rx.(state := Listening), frame) == Ingested(config, verifier, rx, frame)
  {}

  // ----- the invariant -------------------------------------------------------------

  predicate UniqueStreams(replay: seq<StreamReplay>) {
    forall i, j :: 0 <= i < j < |replay| ==> replay[i].streamId != replay[j].streamId
  }

  /** No message under reassembly has a sequence number its stream has seen. */
  ghost predicate NoneSeen(contexts: seq<Context>, replay: seq<StreamReplay>) {
    forall key: Key :: Lookup(contexts, key).Some? ==> !Classify(WindowOf(replay, key.0), key.1).Duplicate?
  }

  ghost predicate RxOk(config: Config, rx: Rx) {
    TableOk(config.reassembly, rx.contexts) && UniqueStreams(rx.replay) && |rx.replay| <= config.maxStreams
    && NoneSeen(rx.contexts, rx.replay)
  }

  /** A commit makes only the committed number a duplicate. */
  lemma DuplicatesGrowByOne(w: Window, s: u16, x: u16)
    requires Classify(w, s).Accept? && Classify(Committed(w, s), x).Duplicate?
    ensures x == s || Classify(w, x).Duplicate?
  {
    hide Bit, SetBit, ShiftLeft;
    if !w.initialized {
      OneBits(WrappingSub(s, x));
    } else if 0 < WrappingSub(s, w.highest) < 0x8000 {
      DuplicateAfterAdvance(w, s, x);
    } else {
      BitOfSetBit(w.bitmap, WrappingSub(w.highest, s), WrappingSub(w.highest, x));
    }
  }

  lemma DuplicateAfterAdvance(w: Window, s: u16, x: u16)
    requires w.initialized && 0 < WrappingSub(s, w.highest) < 0x8000 && Classify(Committed(w, s), x).Duplicate?
    ensures x == s || Classify(w, x).Duplicate?
  {
    hide Bit, SetBit, ShiftLeft;
    var forward, behind := WrappingSub(s, w.highest), WrappingSub(s, x);
    OneBits(behind);
    if x != s && x != w.highest && forward < 64 {
      BitOfSetBit(ShiftLeft(w.bitmap, forward, 64), 0, behind);
      BitOfShiftLeft(w.bitmap, forward, 64, behind);
      assert behind >= forward ==> WrappingSub(w.highest, x) == behind - forward;
    }
  }

  lemma WindowAt(replay: seq<StreamReplay>, i: nat)
    requires UniqueStreams(replay) && i < |replay|
    ensures FindStream(replay, replay[i].streamId) == i
  {}

  lemma WindowMissing(replay: seq<StreamReplay>, streamId: u16)
    requires forall i :: 0 <= i < |replay| ==> replay[i].streamId != streamId
    ensures WindowOf(replay, streamId) == EMPTY
  {}

  /** What a commit leaves in the windows. */
  lemma CommitWindows(config: Config, replay: seq<StreamReplay>, streamId: u16, sequence: u16, other: u16)
    requires UniqueStreams(replay) && |replay| <= config.maxStreams
             && Classify(WindowOf(replay, streamId), sequence).Accept?
    ensures var c := Commit(config, replay, streamId, sequence);
            && UniqueStreams(c.replay) && |c.replay| <= config.maxStreams
            && (c.result.Err? ==> c.result == Err(LimitExceeded) && c.replay == replay
                                  && FindStream(replay, streamId) == |replay| == config.maxStreams)
            && (c.result.Ok? ==> WindowOf(c.replay, other)
                                 == if other == streamId then Committed(WindowOf(replay, streamId), sequence)
                                    else WindowOf(replay, other))
  {
    hide Classify, Committed;
    var i := FindStream(replay, streamId);
    if i < |replay| {
      UpdatedWindows(replay, i, Committed(replay[i].window, sequence), other);
    } else if |replay| < config.maxStreams {
      AppendedWindows(replay, StreamReplay(streamId, Committed(EMPTY, sequence)), other);
    }
  }

  lemma UpdatedWindows(replay: seq<StreamReplay>, i: nat, window: Window, other: u16)
    requires UniqueStreams(replay) && i < |replay|
    ensures var r := replay[i := StreamReplay(replay[i].streamId, window)];
            UniqueStreams(r) && WindowOf(r, other)
            == if other == replay[i].streamId then window else WindowOf(replay, other)
  {
    var r := replay[i := StreamReplay(replay[i].streamId, window)];
    WindowAt(r, i);
    var k := FindStream(replay, other);
    if k < |replay| { WindowAt(r, k); } else { WindowMissing(r, other); }
  }

  lemma AppendedWindows(replay: seq<StreamReplay>, entry: StreamReplay, other: u16)
    requires UniqueStreams(replay) && forall i :: 0 <= i < |replay| ==> replay[i].streamId != entry.streamId
    ensures var r := replay + [entry];
            UniqueStreams(r) && WindowOf(r, other)
            == if other == entry.streamId then entry.window else WindowOf(replay, other)
  {
    var r := replay + [entry];
    WindowAt(r, |replay|);
    if other != entry.streamId {
      var k := FindStream(replay, other);
      if k < |replay| { WindowAt(r, k); } else { WindowMissing(r, other); }
    }
  }

  /** A push that completes a message returns that frame's own message and frees its context. */
  lemma CompletedIsOwn(config: ReassemblerConfig, contexts: seq<Context>, frame: SparseRadioFrame)
    requires TableOk(config, contexts)
    requires Pushed(config, contexts, frame).result.Ok? && Pushed(config, contexts, frame).result.value.Some?
    ensures var p := Pushed(config, contexts, frame);
            p.result.value.value.meta == MetaOf(frame) && Lookup(p.contexts, KeyOf(MetaOf(frame))).None?
  {
    hide Stored, Lookup, ContextOk, FreshContext;
    var key := KeyOf(MetaOf(frame));
    var index := Find(contexts, key);
    if index < |contexts| {
      StoredOwn(config, contexts, index, frame);
    } else {
      var c := FreshContext(frame);
      FreshOk(config, frame);
      FreshMeta(frame);
      LookupNone(contexts, key);
      AppendLookup(contexts, c, key);
      StoredOwn(config, contexts + [c], index, frame);
    }
  }

  lemma StoredOwn(config: ReassemblerConfig, contexts: seq<Context>, index: nat, frame: SparseRadioFrame)
    requires TableOk(config, contexts) && index < |contexts| && frame.fragmentIndex < frame.fragmentCount
    requires Stored(config, contexts, index, frame).result.Ok?
             && Stored(config, contexts, index, frame).result.value.Some?
    ensures var p := Stored(config, contexts, index, frame);
            p.result.value.value.meta == MetaOf(frame) && Lookup(p.contexts, KeyOf(MetaOf(frame))).None?
  {
    hide Lookup, Concat, Incomplete;
    StoredKeeps(config, contexts, index, frame, (0, 0));
    SwapRemoveLookup(contexts, index, KeyOf(MetaOf(frame)));
  }

  lemma ClearedKeeps(config: ReassemblerConfig, contexts: seq<Context>, key: Key, other: Key)
    requires TableOk(config, contexts)
    ensures TableOk(config, Cleared(contexts, key))
    ensures Lookup(Cleared(contexts, key), other) == if other == key then None else Lookup(contexts, other)
  {
    hide ContextOk;
    var index := Find(contexts, key);
    if index < |contexts| {
      SwapRemoveLookup(contexts, index, other);
      var r := SwapRemove(contexts, index);
      assert forall j :: 0 <= j < |r| ==> r[j] == if j == index then contexts[|contexts| - 1] else contexts[j];
    }
  }

  /** The arm for duplicates with a message in flight never applies. */
  lemma InFlightIsNeverDuplicate(config: Config, rx: Rx, frame: SparseRadioFrame)
    requires RxOk(config, rx)
    ensures Lookup(rx.contexts, KeyOf(MetaOf(frame))).Some?
            ==> !Classify(WindowOf(rx.replay, frame.streamId), frame.sequence).Duplicate?
    ensures Refusal(rx.contexts, rx.replay, frame)
            == match Classify(WindowOf(rx.replay, frame.streamId), frame.sequence)
                                  case Accept => None
                                  case Duplicate => Some(AirError.Replay)
                                  case TooOld => Some(AirError.TooOld)
  {
    assert Classify(EMPTY, frame.sequence) == Accept;
    hide Classify, Lookup;
    assert KeyOf(MetaOf(frame)) == (frame.streamId, frame.sequence);
  }

  lemma PushNoneSeen(config: Config, rx: Rx, frame: SparseRadioFrame)
    requires RxOk(config, rx) && Classify(WindowOf(rx.replay, frame.streamId), frame.sequence).Accept?
    ensures NoneSeen(Pushed(config.reassembly, rx.contexts, frame).contexts, rx.replay)
  {
    hide Pushed, Lookup, Classify, WindowOf, TableOk;
    forall key: Key | Lookup(Pushed(config.reassembly, rx.contexts, frame).contexts, key).Some?
      ensures !Classify(WindowOf(rx.replay, key.0), key.1).Duplicate?
    {
      PushKeeps(config.reassembly, rx.contexts, frame, key);
      assert KeyOf(MetaOf(frame)) == (frame.streamId, frame.sequence);
    }
  }

  lemma CommitNoneSeen(config: Config, contexts: seq<Context>, replay: seq<StreamReplay>, streamId: u16, sequence: u16)
    requires UniqueStreams(replay) && |replay| <= config.maxStreams && NoneSeen(contexts, replay)
    requires Classify(WindowOf(replay, streamId), sequence).Accept? && Lookup(contexts, (streamId, sequence)).None?
    ensures NoneSeen(contexts, Commit(config, replay, streamId, sequence).replay)
  {
    hide Lookup, Classify, WindowOf, Commit, Committed;
    var c := Commit(config, replay, streamId, sequence);
    forall key: Key | Lookup(contexts, key).Some? ensures !Classify(WindowOf(c.replay, key.0), key.1).Duplicate? {
      CommitWindows(config, replay, streamId, sequence, key.0);
      if c.result.Ok? && key.0 == streamId && Classify(WindowOf(c.replay, key.0), key.1).Duplicate? {
        DuplicatesGrowByOne(WindowOf(replay, streamId), sequence, key.1);
      }
    }
  }

  /** The frame reached the reassembler. */
  predicate Admissible(config: Config, verifier: Option<Verifier>, rx: Rx, frame: SparseRadioFrame) {
    frame.profile == config.profile
    && Contains(config.flags, FLAG_FEC) == Contains(frame.flags, FLAG_FEC)
    && !(Contains(frame.flags, FLAG_SIGNED_ENVELOPE) && verifier.None?)
    && Refusal(rx.contexts, rx.replay, frame).None?
  }

  /** Every call keeps the invariant, whatever the frame and the verifier. */
  lemma IngestKeeps(config: Config, verifier: Option<Verifier>, rx: Rx, frame: SparseRadioFrame)
    requires RxOk(config, rx)
    ensures RxOk(config, Ingested(config, verifier, rx, frame).rx)
  {
    hide Pushed, Lookup, Classify, WindowOf, TableOk, Commit, Contains, Admission, NoneSeen, Cleared, Refusal;
    var key := KeyOf(MetaOf(frame));
    ClearNoneSeen(config, rx, key);
    if Admissible(config, verifier, rx, frame) {
      RefusalNoneAccepts(config, rx, frame);
      PushKeeps(config.reassembly, rx.contexts, frame, (0, 0));
      PushNoneSeen(config, rx, frame);
      var p := Pushed(config.reassembly, rx.contexts, frame);
      if p.result.Ok? && p.result.value.Some? {
        CompletedIsOwn(config.reassembly, rx.contexts, frame);
        CommitWindows(config, rx.replay, frame.streamId, frame.sequence, 0);
        CommitNoneSeen(config, p.contexts, rx.replay, frame.streamId, frame.sequence);
      }
    }
  }

  lemma RefusalNoneAccepts(config: Config, rx: Rx, frame: SparseRadioFrame)
    requires RxOk(config, rx) && Refusal(rx.contexts, rx.replay, frame).None?
    ensures Classify(WindowOf(rx.replay, frame.streamId), frame.sequence).Accept?
  {
    hide Classify, Lookup, WindowOf;
    InFlightIsNeverDuplicate(config, rx, frame);
  }

  lemma ClearNoneSeen(config: Config, rx: Rx, key: Key)
    requires RxOk(config, rx)
    ensures TableOk(config.reassembly, Cleared(rx.contexts, key)) && NoneSeen(Cleared(rx.contexts, key), rx.replay)
  {
    hide Lookup, Classify, WindowOf, TableOk, Cleared;
    ClearedKeeps(config.reassembly, rx.contexts, key, key);
    forall other: Key | Lookup(Cleared(rx.contexts, key), other).Some?
      ensures !Classify(WindowOf(rx.replay, other.0), other.1).Duplicate?
    {
      ClearedKeeps(config.reassembly, rx.contexts, key, other);
    }
  }

  // ----- what a call can do ------------------------------------------------------------

  /** A call that returns no message leaves every replay window as it was.  If a
    * completed message was turned away, its context is free again, and it was
    * turned away by admission or because a new stream had no room. */
  lemma FailureLeavesWindows(config: Config, verifier: Option<Verifier>, rx: Rx, frame: SparseRadioFrame)
    requires RxOk(config, rx)
    ensures var o := Ingested(config, verifier, rx, frame);
            && (!(o.result.Ok? && o.result.value.Some?) ==> o.rx.replay == rx.replay)
            && (Admissible(config, verifier, rx, frame)
                && Pushed(config.reassembly, rx.contexts, frame).result.Ok?
                && Pushed(config.reassembly, rx.contexts, frame).result.value.Some? ==>
                  var m := Pushed(config.reassembly, rx.contexts, frame).result.value.value;
                  && Lookup(o.rx.contexts, KeyOf(MetaOf(frame))).None?
                  && o.result == if Admission(m, verifier).Err? then Err(Admission(m, verifier).error)
                                 else if FindStream(rx.replay, frame.streamId) == |rx.replay| == config.maxStreams
                                 then Err(LimitExceeded)
                                 else Ok(Some(m)))
  {
    hide Pushed, Lookup, Classify, WindowOf, TableOk, Commit, Contains, Admission, NoneSeen, Cleared, Refusal;
    if Admissible(config, verifier, rx, frame) {
      RefusalNoneAccepts(config, rx, frame);
      var p := Pushed(config.reassembly, rx.contexts, frame);
      if p.result.Ok? && p.result.value.Some? {
        CompletedIsOwn(config.reassembly, rx.contexts, frame);
        CommitWindows(config, rx.replay, frame.streamId, frame.sequence, 0);
        CommitErrIff(config, rx, frame);
      }
    }
  }

  lemma CommitErrIff(config: Config, rx: Rx, frame: SparseRadioFrame)
    requires RxOk(config, rx) && Classify(WindowOf(rx.replay, frame.streamId), frame.sequence).Accept?
    ensures Commit(config, rx.replay, frame.streamId, frame.sequence).result.Err?
       <==> FindStream(rx.replay, frame.streamId) == |rx.replay| == config.maxStreams
  {
    hide Classify, Committed;
  }

  /** The only way to a delivery. */
  lemma DeliveryPath(config: Config, verifier: Option<Verifier>, rx: Rx, frame: SparseRadioFrame)
    requires Ingested(config, verifier, rx, frame).result.Ok?
             && Ingested(config, verifier, rx, frame).result.value.Some?
    ensures var o := Ingested(config, verifier, rx, frame);
            var m := o.result.value.value;
            && Refusal(rx.contexts, rx.replay, frame).None?
            && Pushed(config.reassembly, rx.contexts, frame).result == Ok(Some(m))
            && Admission(m, verifier).Ok?
            && Commit(config, rx.replay, m.meta.streamId, m.meta.sequence).result.Ok?
            && Commit(config, rx.replay, m.meta.streamId, m.meta.sequence).replay == o.rx.replay
  {
    hide Pushed, Commit, Contains, Admission, Cleared, Refusal;
  }

  /** A delivered message passed admission, belongs to this frame's stream and
    * sequence number, and only that stream's window moved, by that number. */
  lemma Delivery(config: Config, verifier: Option<Verifier>, rx: Rx, frame: SparseRadioFrame, other: u16)
    requires RxOk(config, rx)
    requires Ingested(config, verifier, rx, frame).result.Ok?
             && Ingested(config, verifier, rx, frame).result.value.Some?
    ensures var o := Ingested(config, verifier, rx, frame);
            var m := o.result.value.value;
            && m.meta == MetaOf(frame) && Admission(m, verifier).Ok?
            && Classify(WindowOf(rx.replay, frame.streamId), frame.sequence).Accept?
            && WindowOf(o.rx.replay, other) == if other == frame.streamId
                                               then Committed(WindowOf(rx.replay, other), frame.sequence)
                                               else WindowOf(rx.replay, other)
  {
    hide Pushed, Lookup, Classify, WindowOf, TableOk, Commit, Contains, Admission, NoneSeen, Cleared, Refusal;
    hide Committed;
    DeliveryPath(config, verifier, rx, frame);
    hide Ingested;
    RefusalNoneAccepts(config, rx, frame);
    CompletedIsOwn(config.reassembly, rx.contexts, frame);
    CommitWindows(config, rx.replay, frame.streamId, frame.sequence, other);
  }

  // ----- every run -------------------------------------------------------------------------

  datatype Event = Event(frame: SparseRadioFrame, verifier: Option<Verifier>)

  ghost function RxAfter(config: Config, events: seq<Event>): Rx {
    if events == [] then Rx([], [], Listening)
    else
      var e := events[|events| - 1];
      Ingested(config, e.verifier, RxAfter(config, events[..|events| - 1]), e.frame).rx
  }

  /** The sequence numbers delivered on one stream, in order. */
  ghost function DeliveredOn(config: Config, events: seq<Event>, streamId: u16): seq<u16> {
    if events == [] then []
    else
      var before, e := events[..|events| - 1], events[|events| - 1];
      DeliveredOn(config, before, streamId)
      + match Ingested(config, e.verifier, RxAfter(config, before), e.frame).result
        case Ok(Some(m)) => if m.meta.streamId == streamId then [m.meta.sequence] else []
        case _ => []
  }

  lemma {:induction false} RunOk(config: Config, events: seq<Event>)
    ensures RxOk(config, RxAfter(config, events))
  {
    hide RxOk, Ingested;
    if events == [] {
      StartOk(config);
    } else {
      var e := events[|events| - 1];
      RunOk(config, events[..|events| - 1]);
      IngestKeeps(config, e.verifier, RxAfter(config, events[..|events| - 1]), e.frame);
    }
  }

  lemma StartOk(config: Config)
    ensures RxOk(config, Rx([], [], Listening))
  {}

  /** After every run each stream's window is the one its deliveries make. */
  lemma {:induction false} WindowsRecordDeliveries(config: Config, events: seq<Event>, streamId: u16)
    ensures WindowOf(RxAfter(config, events).replay, streamId) == RustRun(DeliveredOn(config, events, streamId))
  {
    hide RxOk, Ingested, WindowOf, Classify, Committed;
    if events == [] {
      WindowMissing([], streamId);
    } else {
      var before, e := events[..|events| - 1], events[|events| - 1];
      var rx, done := RxAfter(config, before), DeliveredOn(config, before, streamId);
      RunOk(config, before);
      WindowsRecordDeliveries(config, before, streamId);
      var o := Ingested(config, e.verifier, rx, e.frame);
      if o.result.Ok? && o.result.value.Some? {
        Delivery(config, e.verifier, rx, e.frame, streamId);
        var s := e.frame.sequence;
        assert (done + [s])[..|done|] == done;
        assert done + [] == done;
      } else {
        FailureLeavesWindows(config, e.verifier, rx, e.frame);
        assert done + [] == done;
      }
    }
  }

  /** Exactly once: when a message is delivered, every earlier delivery on its
    * stream with the same 16-bit sequence number lies more than half the number
    * space behind the highest one delivered there. */
  lemma DeliveredAgainOnlyAfterHalf(config: Config, events: seq<Event>, frame: SparseRadioFrame,
      verifier: Option<Verifier>, c: int)
    requires var o := Ingested(config, verifier, RxAfter(config, events), frame);
             o.result.Ok? && o.result.value.Some?
    requires var h := RunHistory(DeliveredOn(config, events, frame.streamId));
             c in h.committed && c % 0x1_0000 == frame.sequence
    ensures RunHistory(DeliveredOn(config, events, frame.streamId)).highest - c > 0x8000
  {
    hide RxOk, Ingested, WindowOf, Classify, Committed, RunHistory, RustRun, DeliveredOn, RxAfter, Refines;
    var done := DeliveredOn(config, events, frame.streamId);
    RunOk(config, events);
    Delivery(config, verifier, RxAfter(config, events), frame, 0);
    WindowsRecordDeliveries(config, events, frame.streamId);
    RunRefines(done);
    if RunHistory(done).highest - c < 0x1_0000 {
      RejectedWhileWithinHalf(RustRun(done), RunHistory(done), c);
    }
  }

  /** All deliveries of a run were accepted by the window, so each of them has an
    * unbounded sequence number of its own. */
  lemma {:induction false} DeliveriesAreDistinct(config: Config, events: seq<Event>, streamId: u16)
    ensures |RunHistory(DeliveredOn(config, events, streamId)).committed| == |DeliveredOn(config, events, streamId)|
  {
    hide RxOk, Ingested, WindowOf, Classify, Committed, Recorded, RustRun, Refines;
    if events != [] {
      var before, e := events[..|events| - 1], events[|events| - 1];
      var rx, done := RxAfter(config, before), DeliveredOn(config, before, streamId);
      DeliveriesAreDistinct(config, before, streamId);
      assert done + [] == done;
      var o := Ingested(config, e.verifier, rx, e.frame);
      if o.result.Ok? && o.result.value.Some? {
        RunOk(config, before);
        Delivery(config, e.verifier, rx, e.frame, streamId);
        if e.frame.streamId == streamId {
          var s := e.frame.sequence;
          WindowsRecordDeliveries(config, before, streamId);
          RunRefines(done);
          AcceptedIsNew(RustRun(done), RunHistory(done), s);
          assert (done + [s])[..|done|] == done;
        }
      }
    }
  }

  // ----- from the sender's states to the receiver's --------------------------------------------

  /** The message whose outer header is bound to the envelope it carries. */
  ghost predicate Binds(m: ReassembledMessage, e: Envelope.SemanticEnvelope)
    requires Envelope.Valid(e)
  {
    && m.bytes == Envelope.Encoded(e) && m.meta.class_ == e.class_ && m.meta.priority == e.priority
    && m.meta.stateTag == Get16(e.stateHash, 0)
    && Contains(m.meta.flags, FLAG_SIGNED_ENVELOPE) == e.signature.Some?
  }

  /** The verifier accepts the envelope, if it is signed at all. */
  predicate Accepts(e: Envelope.SemanticEnvelope, verifier: Option<Verifier>) {
    e.signature.Some? ==>
      verifier.Some? && Envelope.AuthenticationBytes(e).Ok?
      && verifier.value(Envelope.AuthenticationBytes(e).value, e.signature.value)
  }

  lemma SameEnvelope(d: DeltaCodec.SemanticDelta, priority: byte, logicalSequence: u64, signature: Option<Signature>)
    requires DeltaCodec.Valid(d)
    ensures var c := DeltaCodec.Canonical(d);
            && DeltaCodec.Valid(c) && DeltaCodec.InOrder(c)
            && Envelope.DeltaEnvelope(d, priority, logicalSequence, signature)
               == Envelope.DeltaEnvelope(c, priority, logicalSequence, signature)
  {
    hide DeltaCodec.Valid, DeltaCodec.InOrder, DeltaCodec.OrderedBytes;
    var c := DeltaCodec.Canonical(d);
    DeltaCodec.CanonicalValid(d);
    DeltaCodec.CanonicalOfOrdered(c);
  }

  /** The receiver admits a delta message bound to its envelope exactly when the
    * signature, if there is one, verifies; and reads the delta that was sent,
    * with its lists in order. */
  lemma DeltaMessageAdmitted(d: DeltaCodec.SemanticDelta, priority: byte, logicalSequence: u64,
                             signature: Option<Signature>, m: ReassembledMessage, verifier: Option<Verifier>)
    requires DeltaCodec.Valid(d)
    requires var e := Envelope.DeltaEnvelope(d, priority, logicalSequence, signature);
             Envelope.Valid(e) && Binds(m, e)
    ensures var e := Envelope.DeltaEnvelope(d, priority, logicalSequence, signature);
            && (Admission(m, verifier).Ok? <==> Accepts(e, verifier))
            && (signature.None? ==> UnsignedDelta(m) == Ok(DeltaCodec.Canonical(d)))
            && (signature.Some? && Accepts(e, verifier)
                ==> VerifiedDelta(m, verifier.value) == Ok(DeltaCodec.Canonical(d)))
  {
    assert DeltaCodec.Canonical(d).resultHash == d.resultHash;
    hide DeltaCodec.Valid, DeltaCodec.InOrder, DeltaCodec.Canonical, DeltaCodec.Encoded;
    hide Envelope.Decode, Envelope.Encoded, Envelope.Valid, Envelope.Validate, Envelope.UnwrapDelta, Contains;
    var e := Envelope.DeltaEnvelope(d, priority, logicalSequence, signature);
    var c := DeltaCodec.Canonical(d);
    SameEnvelope(d, priority, logicalSequence, signature);
    Envelope.DecodeOfEncode(e);
    Envelope.UnwrapIff(e, c);
    assert EnvelopeOf(m) == Ok(e);
    assert DeltaFrom(m, e) == Ok(c);
  }

  /** Learned residuals and their order play no part in applying a delta. */
  lemma AppliedIgnoresResiduals(sha: CriticalStates.Sha256, d: DeltaCodec.SemanticDelta, m: CriticalStates.State)
    requires CriticalStates.StateOk(m) && DeltaCodec.Valid(d)
    requires DeltaCodec.Canonical(d).updates == d.updates
    ensures DeltaAlgebra.Applied(sha, DeltaCodec.Canonical(d), m) == DeltaAlgebra.Applied(sha, d, m)
  {
    hide DeltaCodec.Valid, DeltaCodec.Validate, DeltaAlgebra.ApplyUpdates, CriticalStates.CriticalHashOf;
    DeltaCodec.CanonicalValid(d);
    DeltaCodec.ValidIff(d);
    DeltaCodec.ValidIff(DeltaCodec.Canonical(d));
  }

  /** The whole semantic path: the delta between two states, enveloped, carried
    * as a message and applied by the receiver to the same base state, gives the
    * sender's new state exactly when every added field fits on the way. */
  lemma StatesTravel(
      sha: CriticalStates.Sha256, src: DeltaAlgebra.Source, a: CriticalStates.State, b: CriticalStates.State,
      residuals: seq<DeltaCodec.Residual>, priority: byte, logicalSequence: u64, m: ReassembledMessage)
    requires CriticalStates.StateOk(a) && CriticalStates.StateOk(b)
    requires DeltaAlgebra.BetweenOf(sha, src, a, b, residuals).Ok?
    requires var d := DeltaAlgebra.BetweenOf(sha, src, a, b, residuals).value;
             && DeltaCodec.Valid(d)
             && var e := Envelope.DeltaEnvelope(d, priority, logicalSequence, None);
                Envelope.Valid(e) && Binds(m, e)
    ensures UnsignedDelta(m).Ok? && Admission(m, None).Ok?
    ensures var applied := DeltaAlgebra.Applied(sha, UnsignedDelta(m).value, a);
            && (applied.Ok? <==> forall id :: id in b && id !in a ==> DeltaAlgebra.Fits(a, b, id))
            && (applied.Ok? ==> applied.value == b)
  {
    var d := DeltaAlgebra.BetweenOf(sha, src, a, b, residuals).value;
    assert Accepts(Envelope.DeltaEnvelope(d, priority, logicalSequence, None), None);
    hide DeltaCodec.Valid, DeltaCodec.Validate, DeltaCodec.Canonical, DeltaAlgebra.Applied, DeltaAlgebra.Fits;
    hide UnsignedDelta, Admission, Binds, Envelope.Valid, Envelope.DeltaEnvelope, CriticalStates.StateOk;
    DeltaMessageAdmitted(d, priority, logicalSequence, None, m, None);
    DeltaAlgebra.BetweenLists(sha, src, a, b, residuals);
    UpdatesStay(d);
    AppliedIgnoresResiduals(sha, d, a);
    DeltaAlgebra.ApplyAsReturned(sha, src, a, b, residuals);
  }

  lemma UpdatesStay(d: DeltaCodec.SemanticDelta)
    requires Sorting.StrictlySorted(d.updates, DeltaCodec.UpdateId)
    ensures DeltaCodec.Canonical(d).updates == d.updates
  {
    Sorting.StrictIsDistinct(d.updates, DeltaCodec.UpdateId);
  }

  // ----- who is admitted ---------------------------------------------------------------------------

  /** The first two bytes of the state hash, the high one first. */
  function TagOf(e: Envelope.SemanticEnvelope): nat {
    var high: nat, low: nat := e.stateHash[0], e.stateHash[1];
    0x100 * high + low
  }

  /** The message is exactly this envelope, bound to its outer header; for a delta
    * the body is an ordered valid delta that agrees with the envelope. */
  ghost predicate Holds(m: ReassembledMessage, e: Envelope.SemanticEnvelope) {
    && Envelope.Valid(e) && m.bytes == Envelope.Encoded(e)
    && m.meta.class_ == e.class_ && m.meta.priority == e.priority
    && m.meta.stateTag == TagOf(e)
    && (m.meta.class_ == StateDelta ==> exists d :: IsDelta(e, d))
  }

  ghost predicate IsDelta(e: Envelope.SemanticEnvelope, d: DeltaCodec.SemanticDelta) {
    DeltaCodec.Valid(d) && DeltaCodec.InOrder(d)
    && e == Envelope.DeltaEnvelope(d, e.priority, e.logicalSequence, e.signature)
  }

  /** The highest flag bit announces a signature. */
  predicate Signed(m: ReassembledMessage) { m.meta.flags >= 0x80 }

  /** An envelope whose signature the verifier accepts over all of its bytes but
    * the signature. */
  ghost predicate SignedBy(m: ReassembledMessage, e: Envelope.SemanticEnvelope, verify: Verifier) {
    Holds(m, e) && e.signature.Some? && verify(m.bytes[..|m.bytes| - 64], e.signature.value)
  }

  lemma SignedFlag(m: ReassembledMessage)
    ensures Signed(m) <==> Contains(m.meta.flags, FLAG_SIGNED_ENVELOPE)
  {}

  lemma TagIs(e: Envelope.SemanticEnvelope)
    ensures Get16(e.stateHash, 0) == TagOf(e)
  {
    var h := e.stateHash[0..2];
    assert FromBe(h[..1]) == h[0];
    assert FromBe(h) == 0x100 * FromBe(h[..1]) + h[1];
  }

  /** The envelope found in a message is the one it is the encoding of. */
  lemma EnvelopeFound(m: ReassembledMessage, e: Envelope.SemanticEnvelope)
    ensures EnvelopeOf(m) == Ok(e)
       <==> Envelope.Valid(e) && m.bytes == Envelope.Encoded(e) && m.meta.class_ == e.class_
            && m.meta.priority == e.priority && m.meta.stateTag == TagOf(e)
            && (Signed(m) <==> e.signature.Some?)
  {
    hide Envelope.Decode, Envelope.Encoded, Envelope.Validate, Contains, Get16;
    SignedFlag(m);
    hide Signed;
    TagIs(e);
    if Envelope.Decode(m.bytes) == Ok(e) { Envelope.EncodeOfDecode(m.bytes, e); }
    if Envelope.Valid(e) { Envelope.DecodeOfEncode(e); }
  }

  lemma DeltaFound(m: ReassembledMessage, e: Envelope.SemanticEnvelope)
    requires EnvelopeOf(m) == Ok(e) && m.meta.class_ == StateDelta
    ensures DeltaFrom(m, e).Ok? <==> exists d :: IsDelta(e, d)
  {
    hide Envelope.Decode, Envelope.Encoded, Envelope.Validate, Envelope.UnwrapDelta, Contains, Get16, IsDelta;
    EnvelopeFound(m, e);
    if Envelope.UnwrapDelta(e).Ok? {
      var d := Envelope.UnwrapDelta(e).value;
      DeltaUnwraps(e, d);
      SameTag(e, d);
    }
    forall d | IsDelta(e, d) ensures DeltaFrom(m, e).Ok? {
      DeltaUnwraps(e, d);
      SameTag(e, d);
    }
  }

  lemma DeltaUnwraps(e: Envelope.SemanticEnvelope, d: DeltaCodec.SemanticDelta)
    ensures Envelope.UnwrapDelta(e) == Ok(d) <==> IsDelta(e, d)
  {
    hide Envelope.UnwrapDelta, DeltaCodec.Valid, DeltaCodec.InOrder;
    Envelope.UnwrapIff(e, d);
  }

  lemma SameTag(e: Envelope.SemanticEnvelope, d: DeltaCodec.SemanticDelta)
    requires IsDelta(e, d)
    ensures d.resultHash == e.stateHash
  {
    hide DeltaCodec.Valid, DeltaCodec.InOrder;
  }

  lemma SignedBytes(e: Envelope.SemanticEnvelope)
    requires Envelope.Valid(e) && e.signature.Some?
    ensures Envelope.AuthenticationBytes(e) == Ok(Envelope.Encoded(e)[..|Envelope.Encoded(e)| - 64])
  {}

  /** Who is admitted.  A signed message: exactly with a verifier that accepts the
    * signature of the envelope it holds.  An unsigned delta: exactly if it holds
    * an unsigned delta envelope.  Everything else. */
  lemma AdmittedIff(m: ReassembledMessage, verifier: Option<Verifier>)
    ensures Signed(m) ==> (Admission(m, verifier).Ok? <==>
                             verifier.Some? && exists e :: SignedBy(m, e, verifier.value))
    ensures !Signed(m) && m.meta.class_ == StateDelta ==>
              (Admission(m, verifier).Ok? <==> exists e :: Holds(m, e) && e.signature.None?)
    ensures !Signed(m) && m.meta.class_ != StateDelta ==> Admission(m, verifier).Ok?
  {
    SignedFlag(m);
    hide Signed, Contains, EnvelopeOf, DeltaFrom;
    if Signed(m) && verifier.Some? {
      SignedAdmitted(m, verifier.value);
    } else if !Signed(m) && m.meta.class_ == StateDelta {
      UnsignedAdmitted(m);
    }
  }

  lemma SignedAdmitted(m: ReassembledMessage, verify: Verifier)
    requires Signed(m)
    ensures Admission(m, Some(verify)).Ok? <==> exists e :: SignedBy(m, e, verify)
  {
    SignedFlag(m);
    hide Signed, Contains, EnvelopeOf, DeltaFrom, IsDelta, Envelope.Encoded, Envelope.Validate;
    hide Envelope.AuthenticationBytes;
    if EnvelopeOf(m).Ok? {
      var e := EnvelopeOf(m).value;
      EnvelopeFound(m, e);
      SignedBytes(e);
      if m.meta.class_ == StateDelta { DeltaFound(m, e); }
      if Admission(m, Some(verify)).Ok? { assert SignedBy(m, e, verify); }
    }
    forall e | SignedBy(m, e, verify) ensures Admission(m, Some(verify)).Ok? {
      EnvelopeFound(m, e);
      SignedBytes(e);
      if m.meta.class_ == StateDelta { DeltaFound(m, e); }
    }
  }

  lemma UnsignedAdmitted(m: ReassembledMessage)
    requires !Signed(m) && m.meta.class_ == StateDelta
    ensures forall v :: Admission(m, v).Ok? <==> exists e :: Holds(m, e) && e.signature.None?
  {
    SignedFlag(m);
    hide Signed, Contains, EnvelopeOf, DeltaFrom, IsDelta, Envelope.Encoded, Envelope.Validate;
    if EnvelopeOf(m).Ok? {
      var e := EnvelopeOf(m).value;
      EnvelopeFound(m, e);
      DeltaFound(m, e);
      if DeltaFrom(m, e).Ok? { assert Holds(m, e); }
    }
    forall e | Holds(m, e) && e.signature.None? ensures EnvelopeOf(m) == Ok(e) && DeltaFrom(m, e).Ok? {
      EnvelopeFound(m, e);
      DeltaFound(m, e);
    }
  }

  /** Why a signed message is turned away. */
  lemma RefusedBecause(m: ReassembledMessage, verifier: Option<Verifier>)
    requires Signed(m) && Admission(m, verifier).Err?
    ensures var error := Admission(m, verifier).error;
            if verifier.None? then error == AuthenticationRequired
            else match Envelope.Decode(m.bytes)
                 case Err(why) => error == why
                 case Ok(e) =>
                   if EnvelopeOf(m) != Ok(e) then error == ResultStateMismatch
                   else if !verifier.value(m.bytes[..|m.bytes| - 64], e.signature.value) then
                     error == AuthenticationFailed
                   else m.meta.class_ == StateDelta && !exists d :: IsDelta(e, d)
  {
    SignedFlag(m);
    hide Signed, Contains, DeltaFrom, IsDelta, Envelope.Encoded, Envelope.Validate, Envelope.AuthenticationBytes;
    hide Envelope.Decode, Get16;
    if verifier.Some? && EnvelopeOf(m).Ok? {
      var e := EnvelopeOf(m).value;
      EnvelopeFound(m, e);
      SignedBytes(e);
      if m.meta.class_ == StateDelta { DeltaFound(m, e); }
    }
  }

  /** Nothing signed is delivered without a verifier that accepts it. */
  lemma DeliveredIsVerified(config: Config, verifier: Option<Verifier>, rx: Rx, frame: SparseRadioFrame)
    requires Ingested(config, verifier, rx, frame).result.Ok?
             && Ingested(config, verifier, rx, frame).result.value.Some?
    ensures var m := Ingested(config, verifier, rx, frame).result.value.value;
            && (Signed(m) ==> verifier.Some? && exists e :: SignedBy(m, e, verifier.value))
            && (!Signed(m) && m.meta.class_ == StateDelta ==> exists e :: Holds(m, e) && e.signature.None?)
  {
    DeliveryPath(config, verifier, rx, frame);
    hide Ingested, Admission, Signed, SignedBy, Holds;
    AdmittedIff(Ingested(config, verifier, rx, frame).result.value.value, verifier);
  }

  /** The receiver's state says what the last call led to. */
  lemma StateTells(config: Config, verifier: Option<Verifier>, rx: Rx, frame: SparseRadioFrame)
    ensures var o := Ingested(config, verifier, rx, frame);
            && (o.rx.state == MessageReady <==> o.result.Ok? && o.result.value.Some?)
            && (o.rx.state == Reassembling <==> o.result == Ok(None))
            && (o.rx.state == Listening <==> o.result.Err?)
  {
    hide Pushed, Commit, Contains, Admission, Cleared, Refusal;
  }

  /** Frames of another profile, or with another use of error correction than the
    * receiver's (flag 32), are turned away first, and change nothing. */
  lemma OtherLinksRefused(config: Config, verifier: Option<Verifier>, rx: Rx, frame: SparseRadioFrame)
    ensures frame.profile != config.profile ==>
              Ingested(config, verifier, rx, frame) == RxOutcome(rx.(state := Listening), Err(InvalidProfile))
    ensures frame.profile == config.profile && config.flags / 32 % 2 != frame.flags / 32 % 2 ==>
              Ingested(config, verifier, rx, frame) == RxOutcome(rx.(state := Listening), Err(InvalidFlags))
  {
    hide Pushed, Commit, Admission, Cleared, Refusal;
  }

  /** A signed fragment without a verifier never enters the table, and what was
    * there of its message is dropped. */
  lemma UnverifiableDropped(config: Config, rx: Rx, frame: SparseRadioFrame)
    requires RxOk(config, rx) && frame.profile == config.profile && config.flags / 32 % 2 == frame.flags / 32 % 2
    requires frame.flags >= 0x80
    ensures var o := Ingested(config, None, rx, frame);
            && o.result == Err(AuthenticationRequired) && o.rx.replay == rx.replay
            && Lookup(o.rx.contexts, KeyOf(MetaOf(frame))).None?
  {
    hide Pushed, Commit, Admission, Refusal, TableOk, NoneSeen, UniqueStreams, Classify;
    assert Contains(frame.flags, FLAG_SIGNED_ENVELOPE);
    assert Contains(config.flags, FLAG_FEC) == Contains(frame.flags, FLAG_FEC);
    hide Contains;
    ClearedForgets(config.reassembly, rx.contexts, KeyOf(MetaOf(frame)));
  }

  lemma ClearedForgets(config: ReassemblerConfig, contexts: seq<Context>, key: Key)
    requires TableOk(config, contexts)
    ensures Lookup(Cleared(contexts, key), key).None?
  {
    hide ContextOk;
    var index, after := Find(contexts, key), Cleared(contexts, key);
    if index < |contexts| {
      forall i | 0 <= i < |after| ensures KeyOf(after[i].meta) != key {
        assert after[i] == if i == index then contexts[|contexts| - 1] else contexts[i];
      }
    }
    LookupNone(after, key);
  }

  /** A receiver is made for 1 to 256 streams and a table within its own limits. */
  lemma ConfigChecked(c: Config)
    ensures CheckConfig(c)
         == if 1 <= c.maxStreams <= 256 && c.reassembly.maxContexts >= 1 && 1 <= c.reassembly.maxMessageBytes <= 7680
               && 1 <= c.reassembly.maxFragments <= 32
            then Ok(()) else Err(InvalidLength)
  {
    Fragments.ConfigOkIff(c.reassembly);
  }

  /** The accessor for unsigned deltas refuses what is signed, and what is no
    * delta. */
  lemma UnsignedDeltaRefused(m: ReassembledMessage)
    requires EnvelopeOf(m).Ok?
    ensures Signed(m) ==> UnsignedDelta(m) == Err(AuthenticationRequired)
    ensures !Signed(m) && m.meta.class_ != StateDelta ==> UnsignedDelta(m) == Err(InvalidClass)
  {
    hide Envelope.Decode;
  }

  /** Which answer a commit gives. */
  lemma CommitAnswers(config: Config, replay: seq<StreamReplay>, streamId: u16, sequence: u16)
    requires |replay| <= config.maxStreams
    ensures var w, c := WindowOf(replay, streamId), Commit(config, replay, streamId, sequence);
            if FindStream(replay, streamId) == |replay| == config.maxStreams then c.result == Err(LimitExceeded)
            else if !Classify(w, sequence).Accept? then
              c == CommitOutcome(replay, Err(if Classify(w, sequence).Duplicate? then AirError.Replay
                                             else AirError.TooOld))
            else c.result == Ok(())
  {}
}
