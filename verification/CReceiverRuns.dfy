/** Whole runs of the C receiver: what its replay table remembers, and which
  * slot it gives up.
  */
module CReceiverRuns {
  import opened Words
  import opened Common
  import opened CMessage
  import opened Replay
  import opened CReceiver
  import CFrame

  datatype Event = Event(frame: CFrame.Frame, hooks: Hooks)

  ghost predicate ValidEvents(events: seq<Event>) {
    forall i :: 0 <= i < |events| ==> CFrame.Valid(events[i].frame)
  }

  /** The receiver after a list of frames, from a fresh one. */
  ghost function RxAfter(events: seq<Event>): (rx: Rx)
    requires ValidEvents(events)
    ensures RxOk(rx) && Shaped(rx)
  {
    if events == [] then
      FreshOk();
      OkShaped(FreshRx());
      FreshRx()
    else
      var e := events[|events| - 1];
      var before := RxAfter(events[..|events| - 1]);
      IngestKeeps(before, e.hooks, e.frame);
      OkShaped(Ingested(before, e.hooks, e.frame).rx);
      Ingested(before, e.hooks, e.frame).rx
  }

  /** What the last frame of the list led to. */
  ghost function LastOutcome(events: seq<Event>): Outcome
    requires events != [] && ValidEvents(events)
  {
    Ingested(RxAfter(events[..|events| - 1]), events[|events| - 1].hooks, events[|events| - 1].frame)
  }

  /** Sequence numbers delivered on one stream, in order. */
  ghost function DeliveredOn(events: seq<Event>, streamId: u16): seq<u16>
    requires ValidEvents(events)
  {
    if events == [] then []
    else
      var f := events[|events| - 1].frame;
      DeliveredOn(events[..|events| - 1], streamId)
      + if LastOutcome(events).delivered.Some? && f.streamId == streamId then [f.sequence] else []
  }

  // ----- the replay table -------------------------------------------------------------------

  /** A call commits exactly when it delivers, and then its frame's own number. */
  lemma CommitsIffDelivers(rx: Rx, hooks: Hooks, f: CFrame.Frame)
    requires RxOk(rx) && Shaped(rx) && CFrame.Valid(f)
    ensures var o := Ingested(rx, hooks, f);
            && (o.delivered.None? ==> o.rx.replay == rx.replay)
            && (o.delivered.Some? ==> !IsReplay(WindowOf(rx.replay, f.streamId), f.sequence)
                                      && exists r: Rx :: r.replay == rx.replay
                                           && o.rx.replay == Remembered(r, f.streamId, f.sequence).replay)
  {
    hide SlotOk, DistinctSlots, DistinctStreams, IsReplay, Parse, CFrame.Valid, Complete, Assembled, Victim, Remembered;
    AllocatedOk(rx, f);
    ValidIndex(f);
    var a := Allocated(rx, f);
    hide Allocated;
    OkShaped(a.rx);
    var s := a.rx.slots[a.index];
    if SameMessage(s, f) && s.parts[f.fragmentIndex].None? {
      var filled := Filled(a.rx, a.index, f);
      var wiped := filled.(slots := filled.slots[a.index := EmptySlot()]);
      assert wiped.replay == rx.replay;
    }
  }

  lemma EntryFound(replay: seq<ReplayEntry>, i: nat)
    requires DistinctStreams(replay) && i < |replay| && replay[i].window.initialized
    ensures FindReplay(replay, replay[i].streamId) == i
  {}

  lemma EntryMissing(replay: seq<ReplayEntry>, streamId: u16)
    requires forall i :: 0 <= i < |replay| ==> !(replay[i].window.initialized && replay[i].streamId == streamId)
    ensures WindowOf(replay, streamId) == EMPTY
  {}

  /** A commit changes the window of its own stream; when the table is full of
    * other streams it also forgets one of them, the least recently committed. */
  lemma CommitWindows(rx: Rx, streamId: u16, sequence: u16, other: u16)
    requires |rx.replay| == REPLAY_STREAMS && DistinctStreams(rx.replay)
    ensures var after, v := Remembered(rx, streamId, sequence).replay, Victim(EntryUses(rx.replay));
            var forgets := FindReplay(rx.replay, streamId) == |rx.replay| && rx.replay[v].window.initialized;
            && (forgets ==>
                  forall j :: 0 <= j < REPLAY_STREAMS ==>
                    rx.replay[j].window.initialized && rx.replay[v].age <= rx.replay[j].age)
            && WindowOf(after, other) == if other == streamId then CommitReplay(WindowOf(rx.replay, streamId), sequence)
                                         else if forgets && other == rx.replay[v].streamId then EMPTY
                                         else WindowOf(rx.replay, other)
  {
    hide Victim, CommitReplay;
    var i, v := FindReplay(rx.replay, streamId), Victim(EntryUses(rx.replay));
    EntryVictim(rx.replay);
    var at := if i < |rx.replay| then i else v;
    CommitInitialized(WindowOf(rx.replay, streamId), sequence);
    PlacedWindows(rx.replay, at, ReplayEntry(streamId, CommitReplay(WindowOf(rx.replay, streamId), sequence),
        Tick(rx.clock)), other);
  }

  lemma PlacedWindows(replay: seq<ReplayEntry>, at: nat, e: ReplayEntry, other: u16)
    requires DistinctStreams(replay) && at < |replay| && e.window.initialized
    requires forall j :: 0 <= j < |replay| && j != at && replay[j].window.initialized ==>
               replay[j].streamId != e.streamId
    ensures DistinctStreams(replay[at := e])
    ensures WindowOf(replay[at := e], other)
         == if other == e.streamId then e.window
            else if replay[at].window.initialized && other == replay[at].streamId then EMPTY
            else WindowOf(replay, other)
  {
    var r := replay[at := e];
    if other == e.streamId {
      EntryFound(r, at);
    } else if replay[at].window.initialized && other == replay[at].streamId {
      EntryMissing(r, other);
    } else {
      var k := FindReplay(replay, other);
      if k < |replay| { EntryFound(r, k); } else { EntryMissing(r, other); }
    }
  }

  /** In a full table a new stream costs the least recently committed one its
    * memory: every number of that stream is accepted again. */
  lemma FullTableForgets(rx: Rx, streamId: u16, sequence: u16, x: u16)
    requires |rx.replay| == REPLAY_STREAMS && DistinctStreams(rx.replay)
    requires forall j :: 0 <= j < REPLAY_STREAMS ==>
               rx.replay[j].window.initialized && rx.replay[j].streamId != streamId
    ensures var v := Victim(EntryUses(rx.replay));
            && (forall j :: 0 <= j < REPLAY_STREAMS ==> rx.replay[v].age <= rx.replay[j].age)
            && !IsReplay(WindowOf(Remembered(rx, streamId, sequence).replay, rx.replay[v].streamId), x)
  {
    hide Victim, Remembered;
    CommitWindows(rx, streamId, sequence, rx.replay[Victim(EntryUses(rx.replay))].streamId);
  }

  /** Streams on which something was delivered. */
  ghost function Delivering(events: seq<Event>): set<u16>
    requires ValidEvents(events)
  {
    if events == [] then {}
    else Delivering(events[..|events| - 1])
         + if LastOutcome(events).delivered.Some? then {events[|events| - 1].frame.streamId} else {}
  }

  /** Exactly the streams with a delivery have a non-empty list of them. */
  lemma {:induction false} DeliveringHasDelivered(events: seq<Event>, streamId: u16)
    requires ValidEvents(events)
    ensures streamId in Delivering(events) <==> DeliveredOn(events, streamId) != []
  {
    hide Ingested, RxAfter;
    if events != [] { DeliveringHasDelivered(events[..|events| - 1], streamId); }
  }

  /** Only streams with a delivery are in the table. */
  lemma {:induction false} EntriesHaveDelivered(events: seq<Event>)
    requires ValidEvents(events)
    ensures forall j :: 0 <= j < REPLAY_STREAMS && RxAfter(events).replay[j].window.initialized ==>
              RxAfter(events).replay[j].streamId in Delivering(events)
  {
    hide RxOk, Shaped, Ingested, Remembered;
    if events != [] {
      var before, e := events[..|events| - 1], events[|events| - 1];
      var rx := RxAfter(before);
      EntriesHaveDelivered(before);
      CommitsIffDelivers(rx, e.hooks, e.frame);
      OkTables(rx);
      if LastOutcome(events).delivered.Some? {
        var r: Rx :| r.replay == rx.replay
                     && RxAfter(events).replay == Remembered(r, e.frame.streamId, e.frame.sequence).replay;
        CommittedEntries(r, e.frame.streamId, e.frame.sequence);
      }
    }
  }

  lemma CommittedEntries(rx: Rx, streamId: u16, sequence: u16)
    requires |rx.replay| == REPLAY_STREAMS
    ensures var after := Remembered(rx, streamId, sequence).replay;
            |after| == REPLAY_STREAMS
            && forall j :: 0 <= j < REPLAY_STREAMS ==> after[j] == rx.replay[j] || after[j].streamId == streamId
  {}

  function StreamIds(replay: seq<ReplayEntry>): set<u16> {
    if replay == [] then {} else StreamIds(replay[..|replay| - 1]) + {replay[|replay| - 1].streamId}
  }

  lemma {:induction false} StreamIdsMember(replay: seq<ReplayEntry>, s: u16)
    ensures s in StreamIds(replay) <==> exists j :: 0 <= j < |replay| && replay[j].streamId == s
  {
    if replay != [] {
      var n := |replay| - 1;
      StreamIdsMember(replay[..n], s);
      if s in StreamIds(replay[..n]) {
        var j :| 0 <= j < n && replay[..n][j].streamId == s;
        assert replay[j].streamId == s;
      }
      forall j | 0 <= j < |replay| && replay[j].streamId == s ensures s in StreamIds(replay) {
        if j < n { assert replay[..n][j].streamId == s; }
      }
    }
  }

  lemma {:induction false} StreamIdsCount(replay: seq<ReplayEntry>)
    requires DistinctStreams(replay) && forall j :: 0 <= j < |replay| ==> replay[j].window.initialized
    ensures |StreamIds(replay)| == |replay|
  {
    if replay != [] {
      var n := |replay| - 1;
      StreamIdsCount(replay[..n]);
      StreamIdsMember(replay[..n], replay[n].streamId);
      forall j | 0 <= j < n ensures replay[..n][j].streamId != replay[n].streamId {}
    }
  }

  /** As long as there are entries enough a new stream finds an unused one. */
  lemma RoomForStream(replay: seq<ReplayEntry>, streams: set<u16>, streamId: u16)
    requires |replay| == REPLAY_STREAMS && DistinctStreams(replay) && |streams| <= REPLAY_STREAMS && streamId in streams
    requires forall j :: 0 <= j < REPLAY_STREAMS && replay[j].window.initialized ==> replay[j].streamId in streams
    requires FindReplay(replay, streamId) == |replay|
    ensures !replay[Victim(EntryUses(replay))].window.initialized
  {
    hide Victim;
    EntryVictim(replay);
    if forall j :: 0 <= j < REPLAY_STREAMS ==> replay[j].window.initialized {
      StreamIdsCount(replay);
      forall s | s in StreamIds(replay) ensures s in streams && s != streamId { StreamIdsMember(replay, s); }
      SubsetSize(StreamIds(replay) + {streamId}, streams);
    }
  }

  lemma {:induction false} WindowRecordsDeliveries(events: seq<Event>, streamId: u16)
    requires ValidEvents(events) && |Delivering(events)| <= REPLAY_STREAMS
    ensures WindowOf(RxAfter(events).replay, streamId) == CRun(DeliveredOn(events, streamId))
  {
    hide RxOk, Shaped, Ingested, Remembered, IsReplay, CommitReplay, Victim;
    if events == [] {
    } else {
      var before, e := events[..|events| - 1], events[|events| - 1];
      var rx, done := RxAfter(before), DeliveredOn(before, streamId);
      SubsetSize(Delivering(before), Delivering(events));
      WindowRecordsDeliveries(before, streamId);
      CommitsIffDelivers(rx, e.hooks, e.frame);
      EntriesHaveDelivered(before);
      OkTables(rx);
      hide WindowOf, DistinctSlots, DistinctStreams, SlotOk;
      var s := e.frame.sequence;
      if LastOutcome(events).delivered.Some? {
        var r: Rx :| r.replay == rx.replay && RxAfter(events).replay == Remembered(r, e.frame.streamId, s).replay;
        CommitWindows(r, e.frame.streamId, s, streamId);
        if FindReplay(rx.replay, e.frame.streamId) == |rx.replay| {
          RoomForStream(rx.replay, Delivering(events), e.frame.streamId);
        }
        assert (done + [s])[..|done|] == done;
      }
      assert done + [] == done;
    }
  }

  lemma {:induction false} StreamIdsAtMost(replay: seq<ReplayEntry>)
    ensures |StreamIds(replay)| <= |replay|
  {
    if replay != [] { StreamIdsAtMost(replay[..|replay| - 1]); }
  }

  lemma CommittedRun(offered: seq<u16>)
    requires offered != []
    ensures CRun(offered).initialized
  {
    hide IsReplay, CommitReplay;
    var before, s := CRun(offered[..|offered| - 1]), offered[|offered| - 1];
    CommitInitialized(before, s);
    FirstIsNew(before, s);
  }

  lemma FirstIsNew(w: Window, sequence: u16)
    ensures IsReplay(w, sequence) ==> w.initialized
  {}

  /** With more delivering streams than entries one of them is in no entry. */
  lemma SomeStreamForgotten(events: seq<Event>) returns (streamId: u16)
    requires ValidEvents(events) && |Delivering(events)| > REPLAY_STREAMS
    ensures streamId in Delivering(events) && WindowOf(RxAfter(events).replay, streamId) == EMPTY
  {
    hide Delivering, RxAfter, Shaped;
    var replay := RxAfter(events).replay;
    OkTables(RxAfter(events));
    hide RxOk;
    StreamIdsAtMost(replay);
    if Delivering(events) <= StreamIds(replay) { SubsetSize(Delivering(events), StreamIds(replay)); }
    streamId :| streamId in Delivering(events) && streamId !in StreamIds(replay);
    StreamIdsMember(replay, streamId);
    EntryMissing(replay, streamId);
  }

  /** The table remembers every delivery of every stream exactly as long as no
    * more streams have had one than it has entries. */
  lemma WindowsRecordDeliveries(events: seq<Event>)
    requires ValidEvents(events)
    ensures (forall s: u16 :: WindowOf(RxAfter(events).replay, s) == CRun(DeliveredOn(events, s)))
       <==> |Delivering(events)| <= REPLAY_STREAMS
  {
    hide RxAfter, CRun, WindowOf, DeliveredOn, Delivering, RxOk, Shaped;
    if |Delivering(events)| <= REPLAY_STREAMS {
      forall s: u16 ensures WindowOf(RxAfter(events).replay, s) == CRun(DeliveredOn(events, s)) {
        WindowRecordsDeliveries(events, s);
      }
    } else {
      var s := SomeStreamForgotten(events);
      DeliveringHasDelivered(events, s);
      CommittedRun(DeliveredOn(events, s));
    }
  }

  /** The numbers delivered on a stream, without wrap-around. */
  ghost function HistoryOf(events: seq<Event>, streamId: u16): History
    requires ValidEvents(events)
  {
    RunHistory(DeliveredOn(events, streamId))
  }

  /** Another frame of a message delivered on the stream is refused. */
  ghost predicate Refuses(events: seq<Event>, streamId: u16, c: int)
    requires ValidEvents(events)
  {
    IsReplay(WindowOf(RxAfter(events).replay, streamId), c % 0x1_0000)
  }

  /** What the window is for: everything delivered is refused while the highest
    * number of its stream is at most half the number space ahead. */
  ghost predicate RefusesAllDelivered(events: seq<Event>)
    requires ValidEvents(events)
  {
    forall s: u16, c: int :: c in HistoryOf(events, s).committed && HistoryOf(events, s).highest - c <= 0x8000 ==>
      Refuses(events, s, c)
  }

  /** That holds exactly as long as no more streams have had a delivery than the
    * table has entries. */
  lemma RefusesAllDeliveredIff(events: seq<Event>)
    requires ValidEvents(events)
    ensures RefusesAllDelivered(events) <==> |Delivering(events)| <= REPLAY_STREAMS
  {
    hide RxAfter, DeliveredOn, Delivering, RxOk, Shaped, RunHistory, IsReplay, WindowOf, CRun, Refines;
    if |Delivering(events)| <= REPLAY_STREAMS {
      forall s: u16, c: int | c in HistoryOf(events, s).committed && HistoryOf(events, s).highest - c <= 0x8000
        ensures Refuses(events, s, c)
      {
        RefusedIffWithinHalf(events, s, c);
      }
    } else {
      var s := SomeStreamForgotten(events);
      DeliveringHasDelivered(events, s);
      var h := HistoryOf(events, s);
      HighestCommitted(DeliveredOn(events, s));
      EmptyAcceptsAll(h.highest % 0x1_0000);
      assert !Refuses(events, s, h.highest);
    }
  }

  lemma EmptyAcceptsAll(sequence: u16)
    ensures !IsReplay(EMPTY, sequence)
  {}

  lemma HighestCommitted(offered: seq<u16>)
    requires offered != []
    ensures RunHistory(offered).highest in RunHistory(offered).committed
  {
    hide RunHistory, RustRun, CRun;
    RunRefines(offered);
    LanguagesAgree(offered);
    CommittedRun(offered);
  }

  lemma RefusedIffWithinHalf(events: seq<Event>, streamId: u16, c: int)
    requires ValidEvents(events) && |Delivering(events)| <= REPLAY_STREAMS
    requires c in HistoryOf(events, streamId).committed && HistoryOf(events, streamId).highest - c < 0x1_0000
    ensures Refuses(events, streamId, c) <==> HistoryOf(events, streamId).highest - c <= 0x8000
  {
    hide RxOk, Shaped, IsReplay, RunHistory, RustRun, CRun, DeliveredOn, RxAfter, Refines, Classify, WindowOf;
    hide Delivering;
    var done := DeliveredOn(events, streamId);
    WindowRecordsDeliveries(events, streamId);
    LanguagesAgree(done);
    RunRefines(done);
    NewestBit(RustRun(done), RunHistory(done));
    SameTest(RustRun(done), c % 0x1_0000);
    RejectedWhileWithinHalf(RustRun(done), RunHistory(done), c);
  }

  /** A delivered number is not delivered again until the highest number of its
    * stream is more than half the number space ahead. */
  lemma DeliveredAgainOnlyAfterHalf(events: seq<Event>, hooks: Hooks, f: CFrame.Frame, c: int)
    requires ValidEvents(events) && CFrame.Valid(f) && |Delivering(events)| <= REPLAY_STREAMS
    requires Ingested(RxAfter(events), hooks, f).delivered.Some?
    requires c in HistoryOf(events, f.streamId).committed && c % 0x1_0000 == f.sequence
    ensures HistoryOf(events, f.streamId).highest - c > 0x8000
  {
    hide RxOk, Shaped, Ingested, Remembered, IsReplay, HistoryOf, RxAfter, WindowOf, Delivering;
    CommitsIffDelivers(RxAfter(events), hooks, f);
    if HistoryOf(events, f.streamId).highest - c < 0x1_0000 { RefusedIffWithinHalf(events, f.streamId, c); }
  }

  /** The history holds every delivery, and each under a number of its own: as
    * many distinct unbounded numbers as deliveries. */
  lemma {:induction false} DeliveriesAreDistinct(events: seq<Event>, streamId: u16)
    requires ValidEvents(events) && |Delivering(events)| <= REPLAY_STREAMS
    ensures |HistoryOf(events, streamId).committed| == |DeliveredOn(events, streamId)|
    ensures forall i :: 0 <= i < |DeliveredOn(events, streamId)| ==>
              exists c :: c in HistoryOf(events, streamId).committed && c % 0x1_0000 == DeliveredOn(events, streamId)[i]
  {
    hide RxOk, Shaped, Ingested, Remembered, IsReplay, RustRun, CRun, RxAfter, Refines, Classify, WindowOf, Recorded;
    if events != [] {
      var before, e := events[..|events| - 1], events[|events| - 1];
      var done := DeliveredOn(before, streamId);
      SubsetSize(Delivering(before), Delivering(events));
      DeliveriesAreDistinct(before, streamId);
      if LastOutcome(events).delivered.Some? && e.frame.streamId == streamId {
        hide DeliveredOn, Delivering;
        DeliveredIsNew(before, e);
        assert (done + [e.frame.sequence])[..|done|] == done;
        RecordedHolds(RunHistory(done), e.frame.sequence);
      } else {
        assert done + [] == done;
      }
    }
  }

  /** What is delivered is accepted by the Rust window of the same history. */
  lemma DeliveredIsNew(events: seq<Event>, e: Event)
    requires ValidEvents(events) && CFrame.Valid(e.frame) && |Delivering(events)| <= REPLAY_STREAMS
    requires Ingested(RxAfter(events), e.hooks, e.frame).delivered.Some?
    ensures var done, s := DeliveredOn(events, e.frame.streamId), e.frame.sequence;
            && Classify(RustRun(done), s).Accept?
            && |Recorded(RunHistory(done), s).committed| == |RunHistory(done).committed| + 1
  {
    hide RxOk, Shaped, Ingested, Remembered, IsReplay, RunHistory, RustRun, CRun, DeliveredOn, RxAfter, Refines;
    hide Classify;
    hide WindowOf, Delivering, Recorded;
    var done, s := DeliveredOn(events, e.frame.streamId), e.frame.sequence;
    CommitsIffDelivers(RxAfter(events), e.hooks, e.frame);
    WindowRecordsDeliveries(events, e.frame.streamId);
    LanguagesAgree(done);
    RunRefines(done);
    NewestBit(RustRun(done), RunHistory(done));
    SameTest(RustRun(done), s);
    AcceptedIsNew(RustRun(done), RunHistory(done), s);
  }

  lemma RecordedHolds(h: History, sequence: u16)
    ensures h.committed <= Recorded(h, sequence).committed
    ensures exists c :: c in Recorded(h, sequence).committed && c % 0x1_0000 == sequence
  {
    hide Extended;
    ExtendedFacts(h, sequence);
    var c := if h.committed == {} then sequence else Extended(h, sequence);
    assert c in Recorded(h, sequence).committed;
  }

  lemma NewestBit(w: Window, h: History)
    requires Refines(w, h)
    ensures w.initialized ==> Bit(w.bitmap, 0)
  {
    hide Bit;
    if w.initialized { assert Bit(w.bitmap, 0) <==> h.highest - 0 in h.committed; }
  }

  // ----- eviction --------------------------------------------------------------------------------

  /** The frame's payload was stored. */
  predicate Stores(rx: Rx, f: CFrame.Frame)
    requires Shaped(rx) && CFrame.Valid(f)
  {
    !IsReplay(WindowOf(rx.replay, f.streamId), f.sequence)
    && var a := Allocated(rx, f);
       SameMessage(a.rx.slots[a.index], f) && a.rx.slots[a.index].parts[f.fragmentIndex].None?
  }

  /** When a part of the message was last stored: the number of frames up to
    * then, 0 for never. */
  ghost function LastFill(events: seq<Event>, key: Key): (n: nat)
    requires ValidEvents(events)
    ensures n <= |events|
  {
    if events == [] then 0
    else
      var before, f := events[..|events| - 1], events[|events| - 1].frame;
      if Stores(RxAfter(before), f) && FrameKey(f) == key then |events| else LastFill(before, key)
  }

  /** How often one call ticks the clock: for a slot taken, for a payload stored
    * and for a message remembered. */
  function TicksOf(rx: Rx, hooks: Hooks, f: CFrame.Frame): nat
    requires Shaped(rx) && CFrame.Valid(f)
  {
    if IsReplay(WindowOf(rx.replay, f.streamId), f.sequence) then 0
    else (if FindSlot(rx.slots, FrameKey(f)) == |rx.slots| then 1 else 0)
         + (if Stores(rx, f) then 1 else 0)
         + (if Ingested(rx, hooks, f).delivered.Some? then 1 else 0)
  }

  /** The ticks of a run, without wrap-around. */
  ghost function Ticks(events: seq<Event>): nat
    requires ValidEvents(events)
  {
    if events == [] then 0
    else
      var before, e := events[..|events| - 1], events[|events| - 1];
      Ticks(before) + TicksOf(RxAfter(before), e.hooks, e.frame)
  }

  lemma ClockAdvances(rx: Rx, hooks: Hooks, f: CFrame.Frame)
    requires Shaped(rx) && CFrame.Valid(f)
    ensures Ingested(rx, hooks, f).rx.clock == (rx.clock + TicksOf(rx, hooks, f)) % 0x1_0000_0000
  {
    hide CFrame.Valid, Complete, WindowOf, IsReplay, Victim, Delivered, SameMessage, Tick;
    ValidIndex(f);
    UpToThree(rx.clock);
    if Stores(rx, f) {
      var a := Allocated(rx, f);
      var filled := Filled(a.rx, a.index, f);
      if Complete(filled.slots[a.index].parts, f.fragmentCount) { DeliveredClock(filled, hooks, a.index, f); }
    }
  }

  lemma UpToThree(clock: u32)
    ensures clock == clock % 0x1_0000_0000 && Tick(clock) == (clock + 1) % 0x1_0000_0000
    ensures Tick(Tick(clock)) == (clock + 2) % 0x1_0000_0000 && Tick(Tick(Tick(clock))) == (clock + 3) % 0x1_0000_0000
  {}

  lemma DeliveredClock(rx: Rx, hooks: Hooks, index: nat, f: CFrame.Frame)
    requires index < |rx.slots| && |rx.replay| == REPLAY_STREAMS
             && rx.slots[index].fragmentCount <= |rx.slots[index].parts|
    ensures var o := Delivered(rx, hooks, index, f);
            o.rx.clock == if o.delivered.Some? then Tick(rx.clock) else rx.clock
  {
    hide Parse, Assembled, Victim, CommitReplay;
  }

  /** The clock is the number of ticks in 32 bits. */
  lemma {:induction false} ClockIsTicks(events: seq<Event>)
    requires ValidEvents(events)
    ensures RxAfter(events).clock == Ticks(events) % 0x1_0000_0000
  {
    hide RxOk, Shaped, Ingested, TicksOf;
    if events != [] {
      var before, e := events[..|events| - 1], events[|events| - 1];
      ClockIsTicks(before);
      ClockAdvances(RxAfter(before), e.hooks, e.frame);
    }
  }

  /** What one call does to the slots and the clock, as long as the clock does
    * not wrap: it leaves the slots alone, or it stores a part, and that slot
    * `k` is then empty again or stamped with the new time. */
  ghost predicate SlotStep(rx: Rx, o: Rx, f: CFrame.Frame, stores: bool, k: nat, ticks: nat) {
    && |rx.slots| == |o.slots| == REASSEMBLY_SLOTS && k < REASSEMBLY_SLOTS && o.clock == rx.clock + ticks
    && (forall i :: 0 <= i < REASSEMBLY_SLOTS && i != k ==> o.slots[i] == rx.slots[i])
    && (!stores ==> o.slots == rx.slots)
    && (stores && o.slots[k].used ==> KeyOf(o.slots[k]) == FrameKey(f) && rx.clock < o.slots[k].age == o.clock)
    && (stores ==>
          forall i :: 0 <= i < REASSEMBLY_SLOTS && i != k && rx.slots[i].used ==> KeyOf(rx.slots[i]) != FrameKey(f))
  }

  lemma SlotsAfter(rx: Rx, hooks: Hooks, f: CFrame.Frame) returns (k: nat)
    requires RxOk(rx) && Shaped(rx) && CFrame.Valid(f) && rx.clock + TicksOf(rx, hooks, f) < 0x1_0000_0000
    ensures SlotStep(rx, Ingested(rx, hooks, f).rx, f, Stores(rx, f), k, TicksOf(rx, hooks, f))
  {
    hide RxOk, Parse, CFrame.Valid, Complete, Assembled, WindowOf, IsReplay, Allocated, Remembered;
    ValidIndex(f);
    ClockAdvances(rx, hooks, f);
    hide TicksOf;
    var a := Allocated(rx, f);
    k := a.index;
    NewlyAllocated(rx, f);
    AllocatedSlots(rx, f);
    if Stores(rx, f) {
      StoreTicks(rx, hooks, f);
      var filled := Filled(a.rx, k, f);
      if Complete(filled.slots[k].parts, f.fragmentCount) { DeliveredSlots(filled, hooks, k, f); }
    }
  }

  lemma StoreTicks(rx: Rx, hooks: Hooks, f: CFrame.Frame)
    requires Shaped(rx) && CFrame.Valid(f) && Stores(rx, f)
    ensures TicksOf(rx, hooks, f) >= 1 && (FindSlot(rx.slots, FrameKey(f)) == |rx.slots| ==> TicksOf(rx, hooks, f) >= 2)
  {
    hide Ingested, Allocated, CFrame.Valid;
  }

  lemma AllocatedSlots(rx: Rx, f: CFrame.Frame)
    requires RxOk(rx) && CFrame.Valid(f)
    ensures var a := Allocated(rx, f);
            && a.rx.clock == (if FindSlot(rx.slots, FrameKey(f)) == |rx.slots| then Tick(rx.clock) else rx.clock)
            && a.rx.slots[a.index].used && KeyOf(a.rx.slots[a.index]) == FrameKey(f)
            && forall i :: 0 <= i < REASSEMBLY_SLOTS && i != a.index ==>
                 a.rx.slots[i] == rx.slots[i] && (rx.slots[i].used ==> KeyOf(rx.slots[i]) != FrameKey(f))
  {
    hide SlotOk, DistinctStreams, Victim, CFrame.Valid;
    AllocatedOk(rx, f);
  }

  lemma DeliveredSlots(rx: Rx, hooks: Hooks, index: nat, f: CFrame.Frame)
    requires index < |rx.slots| && |rx.replay| == REPLAY_STREAMS
             && rx.slots[index].fragmentCount <= |rx.slots[index].parts|
    ensures Delivered(rx, hooks, index, f).rx.slots == rx.slots[index := EmptySlot()]
  {
    hide Parse, Assembled, Victim, CommitReplay;
  }

  /** A slot just allocated fits the frame and holds nothing. */
  lemma NewlyAllocated(rx: Rx, f: CFrame.Frame)
    requires RxOk(rx) && CFrame.Valid(f)
    ensures var a := Allocated(rx, f);
            a.rx != rx ==> SameMessage(a.rx.slots[a.index], f) && a.rx.slots[a.index].parts == NoParts()
  {
    hide SlotOk, Victim;
  }

  /** The order of the stamps of the used slots is the order of their last fills. */
  ghost predicate Recent(events: seq<Event>)
    requires ValidEvents(events)
  {
    var rx := RxAfter(events);
    rx.clock == Ticks(events)
    && forall i, j :: 0 <= i < REASSEMBLY_SLOTS && 0 <= j < REASSEMBLY_SLOTS && rx.slots[i].used && rx.slots[j].used ==>
         rx.slots[i].age <= rx.clock && LastFill(events, KeyOf(rx.slots[i])) > 0
         && (rx.slots[i].age < rx.slots[j].age
             <==> LastFill(events, KeyOf(rx.slots[i])) < LastFill(events, KeyOf(rx.slots[j])))
  }

  lemma {:induction false} StampsFollowFills(events: seq<Event>)
    requires ValidEvents(events) && Ticks(events) < 0x1_0000_0000
    ensures Recent(events)
  {
    hide RxOk, Shaped, Ingested, Stores, SlotStep, TicksOf;
    ClockIsTicks(events);
    if events != [] {
      var before, e := events[..|events| - 1], events[|events| - 1];
      StampsFollowFills(before);
      ClockIsTicks(before);
      var k := SlotsAfter(RxAfter(before), e.hooks, e.frame);
      StampStep(events, k);
    } else {
    }
  }

  lemma StampStep(events: seq<Event>, k: nat)
    requires ValidEvents(events) && events != []
    requires var before, f := events[..|events| - 1], events[|events| - 1].frame;
             Recent(before) && RxAfter(events).clock == Ticks(events)
             && SlotStep(RxAfter(before), RxAfter(events), f, Stores(RxAfter(before), f), k,
                 Ticks(events) - Ticks(before))
    ensures Recent(events)
  {
    hide RxOk, Shaped, RxAfter, Stores;
    var before, f := events[..|events| - 1], events[|events| - 1].frame;
    var rx, o := RxAfter(before), RxAfter(events);
    forall i | 0 <= i < REASSEMBLY_SLOTS && o.slots[i].used
      ensures LastFill(events, KeyOf(o.slots[i]))
           == if Stores(rx, f) && i == k then |events| else LastFill(before, KeyOf(rx.slots[i]))
    {}
  }

  lemma {:induction false} LastFillKey(events: seq<Event>, key: Key)
    requires ValidEvents(events) && LastFill(events, key) > 0
    ensures FrameKey(events[LastFill(events, key) - 1].frame) == key
  {
    hide Stores, RxAfter;
    var before, f := events[..|events| - 1], events[|events| - 1].frame;
    if !(Stores(RxAfter(before), f) && FrameKey(f) == key) { LastFillKey(before, key); }
  }

  /** While the clock has not wrapped, a slot is given up only when all are in
    * use, and it is the one that was filled longest ago. */
  lemma {:induction false} EvictsLeastRecentlyFilled(events: seq<Event>, f: CFrame.Frame, j: nat)
    requires ValidEvents(events) && CFrame.Valid(f) && Ticks(events) < 0x1_0000_0000
    requires FindSlot(RxAfter(events).slots, FrameKey(f)) == REASSEMBLY_SLOTS
    requires var rx := RxAfter(events);
             rx.slots[Allocated(rx, f).index].used && j < REASSEMBLY_SLOTS && j != Allocated(rx, f).index
    ensures var rx := RxAfter(events);
            && rx.slots[j].used
            && LastFill(events, KeyOf(rx.slots[Allocated(rx, f).index])) < LastFill(events, KeyOf(rx.slots[j]))
  {
    hide RxOk, Shaped, RxAfter, Stores, LastFill, Victim;
    var rx := RxAfter(events);
    var v := Allocated(rx, f).index;
    SlotVictim(rx.slots);
    StampsFollowFills(events);
    LastFillKey(events, KeyOf(rx.slots[v]));
    LastFillKey(events, KeyOf(rx.slots[j]));
    OkTables(rx);
  }
}
