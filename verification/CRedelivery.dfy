/** What the C receiver delivers twice: messages of a stream its replay table
  * has had to forget.
  */
module CRedelivery {
  import opened Words
  import opened Common
  import opened CMessage
  import opened CTransmitter
  import opened CReceiver
  import opened CReceiverRuns
  import opened CLink
  import AirErrors
  import CFrame
  import Replay

  /** Any message of a forgotten stream comes again, whole, although it has been
    * delivered before: the receiver is as ready for it as a fresh one. */
  lemma ForgottenIsDeliveredAgain(
    events: seq<Event>, hooks: Hooks, p: ProfileConfig, sign: Sign, streamId: u16, m: Message, sequence: u16,
    sent: seq<Block>, received: seq<Block>)
    requires ValidEvents(events) && WindowOf(RxAfter(events).replay, streamId) == Replay.EMPTY
    requires FindSlot(RxAfter(events).slots, (streamId, sequence)) == REASSEMBLY_SLOTS
    requires ValidProfile(p) && |m.body| <= 0xffff && BeginError(Idle, sign, m).OK? && HooksMatch(hooks, sign, m)
    requires DivCeil(EnvelopeLen(m), p.fragmentPayloadBytes) <= 255
    requires var s := SendingFor(p, sign, streamId, m, sequence);
             SendingOk(s) && Received(received, sent, s)
    ensures WellFormed(received) && received != []
    ensures OutcomeOf(RxAfter(events), hooks, received, |received| - 1).delivered == AirErrors.Some(m)
  {
    hide SendingOk, RxOk, Received, OutcomeOf, RxAfter, HooksMatch, DivCeil, CastCount;
    EmptyAcceptsAll(sequence);
    OkTables(RxAfter(events));
    SentIsDelivered(RxAfter(events), hooks, p, sign, streamId, m, sequence, sent, received);
  }

  // ----- one message on stream after stream -------------------------------------------------

  /** A message of a single frame, and everything needed to send it. */
  datatype Single = Single(hooks: Hooks, p: ProfileConfig, sign: Sign, m: Message, sequence: u16)

  predicate SingleOk(x: Single) {
    ValidProfile(x.p) && |x.m.body| <= 0xffff && BeginError(Idle, x.sign, x.m).OK? && HooksMatch(x.hooks, x.sign, x.m)
    && DivCeil(EnvelopeLen(x.m), x.p.fragmentPayloadBytes) == 1
  }

  lemma SingleSends(x: Single, streamId: u16)
    requires SingleOk(x)
    ensures var s := SendingFor(x.p, x.sign, streamId, x.m, x.sequence);
            SendingOk(s) && s.count == 1
  {
    hide DivCeil, Canonical;
  }

  ghost function FrameOn(x: Single, streamId: u16): (f: CFrame.Frame)
    requires SingleOk(x)
    ensures CFrame.Valid(f) && f.streamId == streamId && f.sequence == x.sequence
  {
    SingleSends(x, streamId);
    FrameAt(SendingFor(x.p, x.sign, streamId, x.m, x.sequence), 0)
  }

  ghost predicate NoSlotUsed(rx: Rx) { forall i :: 0 <= i < |rx.slots| ==> !rx.slots[i].used }

  /** With nothing in flight and no memory of the stream it is delivered, and
    * nothing is in flight again. */
  lemma SingleDelivered(rx: Rx, x: Single, streamId: u16)
    requires SingleOk(x) && RxOk(rx) && NoSlotUsed(rx) && WindowOf(rx.replay, streamId) == Replay.EMPTY
    ensures Shaped(rx)
    ensures var o := Ingested(rx, x.hooks, FrameOn(x, streamId));
            o.delivered == AirErrors.Some(x.m) && NoSlotUsed(o.rx)
  {
    SingleSends(x, streamId);
    var s := SendingFor(x.p, x.sign, streamId, x.m, x.sequence);
    hide SendingOk, FrameAt, DivCeil, CastCount, HooksMatch, Ingested, Delivered, SlotOk, DistinctSlots;
    hide DistinctStreams, Victim;
    EmptyAcceptsAll(x.sequence);
    assert Holding(rx, s, 0);
    LastFrame(rx, x.hooks, x.p, x.sign, streamId, x.m, x.sequence);
    NextFrameStored(rx, x.hooks, s, 0);
    var f := FrameAt(s, 0);
    var a := Allocated(rx, f);
    SlotForFrame(rx, s, 0);
    AllocatedSlots(rx, f);
    FramesAlike(s, 0, EmptySlot());
    DeliveredSlots(Filled(a.rx, a.index, f), x.hooks, a.index, f);
  }

  /** The message sent on the streams 0 to `n - 1`, each in turn. */
  ghost function Round(x: Single, n: nat): (events: seq<Event>)
    requires SingleOk(x) && n <= 0x1_0000
    ensures |events| == n && ValidEvents(events)
  {
    if n == 0 then [] else Round(x, n - 1) + [Event(FrameOn(x, n - 1), x.hooks)]
  }

  lemma NextInRound(x: Single, n: nat)
    requires SingleOk(x) && n < 0x1_0000
    ensures var events := Round(x, n + 1);
            events[..n] == Round(x, n) && events[n] == Event(FrameOn(x, n), x.hooks) && |events| == n + 1
  {
    hide FrameOn;
  }

  /** The message was delivered once on each of the streams below `n`, and
    * nothing is in flight. */
  ghost predicate DeliveredBelow(events: seq<Event>, sequence: u16, n: nat)
    requires ValidEvents(events)
  {
    && NoSlotUsed(RxAfter(events)) && |Delivering(events)| == n
    && (forall s: u16 :: s in Delivering(events) <==> s < n)
    && forall s: u16 :: DeliveredOn(events, s) == if s < n then [sequence] else []
  }

  lemma {:induction false} RoundDelivers(x: Single, n: nat)
    requires SingleOk(x) && n <= 0x1_0000
    ensures DeliveredBelow(Round(x, n), x.sequence, n)
  {
    hide FrameOn, SingleOk, DeliveredBelow, Round;
    if n == 0 {
      NothingDelivered(x);
    } else {
      RoundDelivers(x, n - 1);
      NextInRound(x, n - 1);
      OneMoreStream(x, Round(x, n), n - 1);
    }
  }

  lemma NothingDelivered(x: Single)
    requires SingleOk(x)
    ensures DeliveredBelow(Round(x, 0), x.sequence, 0)
  {
    hide SingleOk;
  }

  lemma OneMoreStream(x: Single, events: seq<Event>, k: nat)
    requires SingleOk(x) && k < 0x1_0000 && ValidEvents(events) && |events| > 0
    requires events[|events| - 1] == Event(FrameOn(x, k), x.hooks)
    requires DeliveredBelow(events[..|events| - 1], x.sequence, k)
    ensures DeliveredBelow(events, x.sequence, k + 1)
  {
    hide FrameOn, RxOk, Shaped, SingleOk, Ingested, RxAfter, Delivering, DeliveredOn, NoSlotUsed;
    var before := events[..|events| - 1];
    NotYetSeen(before, k);
    SingleDelivered(RxAfter(before), x, k);
    AfterDelivery(events);
  }

  /** What one more delivery adds. */
  lemma AfterDelivery(events: seq<Event>)
    requires ValidEvents(events) && events != [] && LastOutcome(events).delivered.Some?
    ensures var before, f := events[..|events| - 1], events[|events| - 1].frame;
            && RxAfter(events) == LastOutcome(events).rx
            && Delivering(events) == Delivering(before) + {f.streamId}
            && forall s: u16 ::
                 DeliveredOn(events, s) == DeliveredOn(before, s) + if s == f.streamId then [f.sequence] else []
  {
    hide Ingested, RxOk, Shaped;
  }

  lemma NotYetSeen(events: seq<Event>, streamId: u16)
    requires ValidEvents(events) && streamId !in Delivering(events)
    ensures WindowOf(RxAfter(events).replay, streamId) == Replay.EMPTY
  {
    hide RxAfter, RxOk, Shaped, Delivering;
    EntriesHaveDelivered(events);
    OkTables(RxAfter(events));
    EntryMissing(RxAfter(events).replay, streamId);
  }

  /** One stream more than the replay table has entries: every message of the
    * round was delivered once, and then on some stream the same frame makes the
    * receiver deliver it a second time, its number still the newest there. */
  lemma OneStreamTooMany(x: Single) returns (streamId: u16)
    requires SingleOk(x) && REPLAY_STREAMS < 0x1_0000
    ensures var events := Round(x, REPLAY_STREAMS + 1);
            && (forall s: u16 :: DeliveredOn(events, s) == if s <= REPLAY_STREAMS then [x.sequence] else [])
            && streamId <= REPLAY_STREAMS
            && Ingested(RxAfter(events), x.hooks, FrameOn(x, streamId)).delivered == AirErrors.Some(x.m)
  {
    hide FrameOn, RxOk, Shaped, SingleOk, Ingested, Round, DeliveredOn, Delivering, RxAfter;
    RoundDelivers(x, REPLAY_STREAMS + 1);
    var events := Round(x, REPLAY_STREAMS + 1);
    streamId := SomeStreamForgotten(events);
    SingleDelivered(RxAfter(events), x, streamId);
  }

  /** Such a message: no body, no signature, the first default profile. */
  lemma SingleExists(stateHash: Hash16, receive: Message -> bool)
    ensures SingleOk(Single(Hooks(AirErrors.None, receive), ProfileConfig(0, 240, 0, 0), AirErrors.None,
                            Message(0, 0, 0, 0, 0, 0, stateHash, [], false), 0))
  {}
}
