/** The C receiver as functions on its state: reassembly slots and replay
  * entries, any number of each, the least recently filled reused first.
  */
module CReceiver {
  import opened Words
  import opened CStatus
  import opened CMessage
  import opened Replay
  import AirErrors
  import CFrame

  /** The header lets a build choose both sizes; 2 and 8 are its defaults. */
  type Size = n: nat | n > 0 witness 1

  const REASSEMBLY_SLOTS: Size
  const REPLAY_STREAMS: Size

  type Part = AirErrors.Option<seq<byte>>

  /** A reassembly slot; a part is present when its bit is set. */
  datatype Slot = Slot(
    used: bool, streamId: u16, sequence: u16, profile: byte, flags: byte, fragmentCount: byte, classId: byte,
    priority: byte, stateTag: u16, parts: seq<Part>, age: u32)

  /** An entry is used when its window is initialised. */
  datatype ReplayEntry = ReplayEntry(streamId: u16, window: Window, age: u32)

  datatype Rx = Rx(clock: u32, slots: seq<Slot>, replay: seq<ReplayEntry>)

  function NoParts(): (ps: seq<Part>)
    ensures |ps| == MAX_FRAGMENTS
  {
    seq(MAX_FRAGMENTS, _ => AirErrors.None)
  }

  function EmptySlot(): Slot { Slot(false, 0, 0, 0, 0, 0, 0, 0, 0, NoParts(), 0) }

  function EmptyEntry(): ReplayEntry { ReplayEntry(0, EMPTY, 0) }

  function FreshRx(): Rx {
    Rx(0, seq(REASSEMBLY_SLOTS, _ => EmptySlot()), seq(REPLAY_STREAMS, _ => EmptyEntry()))
  }

  /** `++clock` in 32 bits */
  function Tick(clock: u32): u32 { (clock + 1) % 0x1_0000_0000 }

  type Key = (u16, u16)

  function KeyOf(s: Slot): Key { (s.streamId, s.sequence) }
  function FrameKey(f: CFrame.Frame): Key { (f.streamId, f.sequence) }

  // ----- choosing an entry to reuse --------------------------------------------------------

  datatype Use = Use(used: bool, age: u32)

  /** The first unused entry, or else the first with the least age; the search
    * stands at `i` and prefers `best` so far. */
  function VictimFrom(uses: seq<Use>, i: nat, best: nat): (v: nat)
    requires i <= |uses| && best < |uses|
    ensures v < |uses|
    decreases |uses| - i
  {
    if i == |uses| then best
    else if !uses[i].used then i
    else VictimFrom(uses, i + 1, if uses[i].age < uses[best].age then i else best)
  }

  function Victim(uses: seq<Use>): (v: nat)
    requires uses != []
    ensures v < |uses|
  {
    VictimFrom(uses, 0, 0)
  }

  lemma {:induction false} VictimFromIs(uses: seq<Use>, i: nat, best: nat)
    requires i <= |uses| && best < |uses| && (i == 0 ==> best == 0)
    requires forall j :: 0 <= j < i ==> uses[j].used && uses[best].age <= uses[j].age
    requires i > 0 ==> best < i
    ensures var v := VictimFrom(uses, i, best);
            if uses[v].used then forall j :: 0 <= j < |uses| ==> uses[j].used && uses[v].age <= uses[j].age
            else forall j :: 0 <= j < v ==> uses[j].used
    decreases |uses| - i
  {
    if i < |uses| && uses[i].used {
      VictimFromIs(uses, i + 1, if uses[i].age < uses[best].age then i else best);
    }
  }

  /** A used entry is reused only when all are used, and then it is one of the oldest. */
  lemma VictimIs(uses: seq<Use>)
    requires uses != []
    ensures var v := Victim(uses);
            if uses[v].used then forall j :: 0 <= j < |uses| ==> uses[j].used && uses[v].age <= uses[j].age
            else forall j :: 0 <= j < v ==> uses[j].used
  {
    VictimFromIs(uses, 0, 0);
  }

  function SlotUses(slots: seq<Slot>): (uses: seq<Use>)
    ensures |uses| == |slots|
  {
    seq(|slots|, i requires 0 <= i < |slots| => Use(slots[i].used, slots[i].age))
  }

  function EntryUses(replay: seq<ReplayEntry>): (uses: seq<Use>)
    ensures |uses| == |replay|
  {
    seq(|replay|, i requires 0 <= i < |replay| => Use(replay[i].window.initialized, replay[i].age))
  }

  lemma EntryVictim(replay: seq<ReplayEntry>)
    requires replay != []
    ensures var v := Victim(EntryUses(replay));
            replay[v].window.initialized ==>
              forall j :: 0 <= j < |replay| ==> replay[j].window.initialized && replay[v].age <= replay[j].age
  {
    hide Victim;
    var uses := EntryUses(replay);
    VictimIs(uses);
    forall j | 0 <= j < |replay| ensures uses[j] == Use(replay[j].window.initialized, replay[j].age) {}
  }

  lemma SlotVictim(slots: seq<Slot>)
    requires slots != []
    ensures var v := Victim(SlotUses(slots));
            slots[v].used ==> forall j :: 0 <= j < |slots| ==> slots[j].used && slots[v].age <= slots[j].age
  {
    hide Victim;
    var uses := SlotUses(slots);
    VictimIs(uses);
    forall j | 0 <= j < |slots| ensures uses[j] == Use(slots[j].used, slots[j].age) {}
  }

  // ----- replay table ------------------------------------------------------------------------

  /** The first used entry of the stream, or the length if there is none. */
  function FindReplay(replay: seq<ReplayEntry>, streamId: u16): (i: nat)
    ensures i <= |replay|
    ensures i < |replay| ==> replay[i].window.initialized && replay[i].streamId == streamId
    ensures forall j :: 0 <= j < i ==> !(replay[j].window.initialized && replay[j].streamId == streamId)
  {
    if replay == [] then 0
    else if replay[0].window.initialized && replay[0].streamId == streamId then 0
    else 1 + FindReplay(replay[1..], streamId)
  }

  function WindowOf(replay: seq<ReplayEntry>, streamId: u16): Window {
    var i := FindReplay(replay, streamId);
    if i < |replay| then replay[i].window else EMPTY
  }

  /** `commit_replay`; every call ticks the clock once. */
  function Remembered(rx: Rx, streamId: u16, sequence: u16): Rx
    requires |rx.replay| == REPLAY_STREAMS
  {
    var i := FindReplay(rx.replay, streamId);
    var at := if i < |rx.replay| then i else Victim(EntryUses(rx.replay));
    var window := CommitReplay(if i < |rx.replay| then rx.replay[i].window else EMPTY, sequence);
    Rx(Tick(rx.clock), rx.slots, rx.replay[at := ReplayEntry(streamId, window, Tick(rx.clock))])
  }

  // ----- slots ----------------------------------------------------------------------------------

  function FindSlot(slots: seq<Slot>, key: Key): (i: nat)
    ensures i <= |slots|
    ensures i < |slots| ==> slots[i].used && KeyOf(slots[i]) == key
    ensures forall j :: 0 <= j < i ==> !(slots[j].used && KeyOf(slots[j]) == key)
  {
    if slots == [] then 0
    else if slots[0].used && KeyOf(slots[0]) == key then 0
    else 1 + FindSlot(slots[1..], key)
  }

  function NewSlot(f: CFrame.Frame, age: u32): Slot {
    Slot(true, f.streamId, f.sequence, f.profile, f.flags, f.fragmentCount, f.classId, f.priority, f.stateTag,
        NoParts(), age)
  }

  datatype Allocation = Allocation(rx: Rx, index: nat)

  function Allocated(rx: Rx, f: CFrame.Frame): (a: Allocation)
    requires |rx.slots| == REASSEMBLY_SLOTS
    ensures a.index < |a.rx.slots| == REASSEMBLY_SLOTS && a.rx.replay == rx.replay
  {
    var i := FindSlot(rx.slots, FrameKey(f));
    if i < |rx.slots| then Allocation(rx, i)
    else
      var v := Victim(SlotUses(rx.slots));
      Allocation(Rx(Tick(rx.clock), rx.slots[v := NewSlot(f, Tick(rx.clock))], rx.replay), v)
  }

  predicate SameMessage(s: Slot, f: CFrame.Frame) {
    s.fragmentCount == f.fragmentCount && s.profile == f.profile && s.flags == f.flags && s.classId == f.classId
    && s.priority == f.priority && s.stateTag == f.stateTag
  }

  predicate Complete(parts: seq<Part>, count: nat)
    requires count <= |parts|
  {
    forall i :: 0 <= i < count ==> parts[i].Some?
  }

  function PartBytes(p: Part): seq<byte> { if p.Some? then p.value else [] }

  function Assembled(parts: seq<Part>): seq<byte> {
    if parts == [] then [] else Assembled(parts[..|parts| - 1]) + PartBytes(parts[|parts| - 1])
  }

  function OuterOf(s: Slot, f: CFrame.Frame): Outer {
    Outer(s.classId, s.priority, s.stateTag, f.flags / CFrame.FLAG_AUTHENTICATED % 2 == 1)
  }

  /** The caller's hooks: signature check, and whether the message callback
    * reported success. */
  datatype Hooks = Hooks(verify: Verify, receive: Message -> bool)

  datatype Outcome = Outcome(rx: Rx, status: Status, delivered: AirErrors.Option<Message>)

  /** `deliver_slot`, then the slot is wiped. */
  function Delivered(rx: Rx, hooks: Hooks, index: nat, f: CFrame.Frame): Outcome
    requires index < |rx.slots| && |rx.replay| == REPLAY_STREAMS
             && rx.slots[index].fragmentCount <= |rx.slots[index].parts|
  {
    var s := rx.slots[index];
    var wiped := rx.(slots := rx.slots[index := EmptySlot()]);
    match Parse(Assembled(s.parts[..s.fragmentCount]), OuterOf(s, f), hooks.verify)
    case Refused(status) => Outcome(wiped, status, AirErrors.None)
    case Accepted(m) =>
      Outcome(Remembered(wiped, s.streamId, s.sequence), if hooks.receive(m) then COMPLETE else ERR_CALLBACK,
              AirErrors.Some(m))
  }

  function Filled(rx: Rx, index: nat, f: CFrame.Frame): Rx
    requires index < |rx.slots| && f.fragmentIndex < |rx.slots[index].parts|
  {
    var s := rx.slots[index];
    Rx(Tick(rx.clock),
       rx.slots[index := s.(parts := s.parts[f.fragmentIndex := AirErrors.Some(f.payload)], age := Tick(rx.clock))],
       rx.replay)
  }

  predicate Shaped(rx: Rx) {
    |rx.slots| == REASSEMBLY_SLOTS && |rx.replay| == REPLAY_STREAMS
    && forall i :: 0 <= i < REASSEMBLY_SLOTS
        ==> |rx.slots[i].parts| == MAX_FRAGMENTS && rx.slots[i].fragmentCount <= MAX_FRAGMENTS
  }

  function Ingested(rx: Rx, hooks: Hooks, f: CFrame.Frame): Outcome
    requires Shaped(rx) && CFrame.Valid(f)
  {
    if IsReplay(WindowOf(rx.replay, f.streamId), f.sequence) then Outcome(rx, ERR_REPLAY, AirErrors.None)
    else
      var a := Allocated(rx, f);
      var s := a.rx.slots[a.index];
      if !SameMessage(s, f) then Outcome(a.rx, ERR_FORMAT, AirErrors.None)
      else if s.parts[f.fragmentIndex].Some? then Outcome(a.rx, ERR_DUPLICATE, AirErrors.None)
      else
        var filled := Filled(a.rx, a.index, f);
        if Complete(filled.slots[a.index].parts, f.fragmentCount) then Delivered(filled, hooks, a.index, f)
        else Outcome(filled, MORE, AirErrors.None)
  }

  // ----- the invariant ------------------------------------------------------------------------------

  /** A slot in use still misses a part, holds no part it should not, and came
    * from valid frames. */
  predicate SlotOk(s: Slot) {
    |s.parts| == MAX_FRAGMENTS && s.fragmentCount <= MAX_FRAGMENTS
    && (s.used ==>
          && s.fragmentCount > 0 && s.classId <= CFrame.CLASS_MAX && s.priority <= 15
          && !Complete(s.parts, s.fragmentCount)
          && (forall i :: s.fragmentCount <= i < MAX_FRAGMENTS ==> s.parts[i].None?)
          && (forall i :: 0 <= i < MAX_FRAGMENTS && s.parts[i].Some? ==> |s.parts[i].value| <= MAX_FRAME_PAYLOAD))
  }

  predicate DistinctSlots(slots: seq<Slot>) {
    forall i, j :: 0 <= i < j < |slots| && slots[i].used && slots[j].used ==> KeyOf(slots[i]) != KeyOf(slots[j])
  }

  predicate DistinctStreams(replay: seq<ReplayEntry>) {
    forall i, j :: 0 <= i < j < |replay| && replay[i].window.initialized && replay[j].window.initialized ==>
      replay[i].streamId != replay[j].streamId
  }

  predicate RxOk(rx: Rx) {
    |rx.slots| == REASSEMBLY_SLOTS && |rx.replay| == REPLAY_STREAMS
    && (forall i :: 0 <= i < REASSEMBLY_SLOTS ==> SlotOk(rx.slots[i]))
    && DistinctSlots(rx.slots) && DistinctStreams(rx.replay)
  }

  lemma FreshOk()
    ensures RxOk(FreshRx())
  {}

  lemma OkShaped(rx: Rx)
    requires RxOk(rx)
    ensures Shaped(rx)
  {}

  lemma OkTables(rx: Rx)
    requires RxOk(rx)
    ensures |rx.slots| == REASSEMBLY_SLOTS && |rx.replay| == REPLAY_STREAMS
    ensures DistinctSlots(rx.slots) && DistinctStreams(rx.replay)
  {}

  lemma NewSlotOk(f: CFrame.Frame, age: u32)
    requires CFrame.Valid(f)
    ensures SlotOk(NewSlot(f, age))
  {
    assert NoParts()[0].None?;
  }

  lemma AllocatedOk(rx: Rx, f: CFrame.Frame)
    requires RxOk(rx) && CFrame.Valid(f)
    ensures RxOk(Allocated(rx, f).rx)
    ensures var a := Allocated(rx, f);
            a.rx.slots[a.index].used && KeyOf(a.rx.slots[a.index]) == FrameKey(f)
  {
    hide SlotOk, Victim, DistinctStreams;
    NewSlotOk(f, Tick(rx.clock));
  }

  lemma WipedOk(rx: Rx, slots: seq<Slot>, index: nat)
    requires RxOk(rx) && index < REASSEMBLY_SLOTS && |slots| == REASSEMBLY_SLOTS
    requires forall i :: 0 <= i < REASSEMBLY_SLOTS && i != index ==> slots[i] == rx.slots[i]
    ensures RxOk(Rx(rx.clock, slots[index := EmptySlot()], rx.replay))
  {
    hide DistinctStreams;
    assert SlotOk(EmptySlot());
  }

  lemma CommitInitialized(w: Window, sequence: u16)
    ensures CommitReplay(w, sequence).initialized
  {}

  /** Every call keeps the invariant: used slots have distinct keys and are
    * strictly incomplete between calls. */
  lemma IngestKeeps(rx: Rx, hooks: Hooks, f: CFrame.Frame)
    requires RxOk(rx) && CFrame.Valid(f)
    ensures Shaped(rx) && RxOk(Ingested(rx, hooks, f).rx)
  {
    OkShaped(rx);
    hide SlotOk, DistinctSlots, DistinctStreams, IsReplay, Parse, Remembered, CFrame.Valid, Complete, Assembled;
    AllocatedOk(rx, f);
    var a := Allocated(rx, f);
    ValidIndex(f);
    hide Allocated;
    OkShaped(a.rx);
    var s := a.rx.slots[a.index];
    if SameMessage(s, f) && s.parts[f.fragmentIndex].None? {
      var filled := Filled(a.rx, a.index, f);
      if Complete(filled.slots[a.index].parts, f.fragmentCount) {
        WipedOk(a.rx.(clock := filled.clock), filled.slots, a.index);
      } else {
      }
    }
  }

  lemma ValidIndex(f: CFrame.Frame)
    requires CFrame.Valid(f)
    ensures f.fragmentIndex < f.fragmentCount <= MAX_FRAGMENTS && |f.payload| <= MAX_FRAME_PAYLOAD
  {}

  // ----- what a frame is answered -------------------------------------------------------------------

  /** The slot was opened by a frame with the same six fields. */
  predicate Alike(s: Slot, f: CFrame.Frame) {
    && s.fragmentCount == f.fragmentCount && s.profile == f.profile && s.flags == f.flags
    && s.classId == f.classId && s.priority == f.priority && s.stateTag == f.stateTag
  }

  /** The status of every frame, by what the receiver holds of its message. */
  lemma IngestAnswers(rx: Rx, hooks: Hooks, f: CFrame.Frame)
    requires RxOk(rx) && CFrame.Valid(f)
    ensures Shaped(rx)
    ensures var o, k := Ingested(rx, hooks, f), FindSlot(rx.slots, FrameKey(f));
            if IsReplay(WindowOf(rx.replay, f.streamId), f.sequence) then
              o == Outcome(rx, ERR_REPLAY, AirErrors.None)
            else if k < |rx.slots| && !Alike(rx.slots[k], f) then
              o == Outcome(rx, ERR_FORMAT, AirErrors.None)
            else if k < |rx.slots| && rx.slots[k].parts[f.fragmentIndex].Some? then
              o == Outcome(rx, ERR_DUPLICATE, AirErrors.None)
            else
              var held := if k < |rx.slots| then rx.slots[k].parts else NoParts();
              o.status == MORE <==> exists j :: 0 <= j < f.fragmentCount && j != f.fragmentIndex && held[j].None?
  {
    OkShaped(rx);
    ValidIndex(f);
    hide SlotOk, DistinctSlots, DistinctStreams, IsReplay, Parse, Remembered, CFrame.Valid, Assembled, Victim;
    var a := Allocated(rx, f);
    AllocatedOk(rx, f);
    OkShaped(a.rx);
    var s := a.rx.slots[a.index];
    if SameMessage(s, f) && s.parts[f.fragmentIndex].None? {
      var filled := Filled(a.rx, a.index, f);
      CompleteIff(s.parts, f.fragmentIndex, f.fragmentCount, f.payload);
      DeliveredNotMore(filled, hooks, a.index, f);
    }
  }

  lemma CompleteIff(parts: seq<Part>, i: nat, count: nat, payload: seq<byte>)
    requires i < count <= |parts|
    ensures Complete(parts[i := AirErrors.Some(payload)], count)
       <==> !exists j :: 0 <= j < count && j != i && parts[j].None?
  {
    var filled := parts[i := AirErrors.Some(payload)];
    assert forall j :: 0 <= j < count ==> filled[j] == if j == i then AirErrors.Some(payload) else parts[j];
    if Complete(filled, count) {
      forall j | 0 <= j < count && j != i ensures parts[j].Some? { assert filled[j].Some?; }
    }
  }

  lemma DeliveredNotMore(rx: Rx, hooks: Hooks, index: nat, f: CFrame.Frame)
    requires index < |rx.slots| && |rx.replay| == REPLAY_STREAMS
             && rx.slots[index].fragmentCount <= |rx.slots[index].parts|
    ensures Delivered(rx, hooks, index, f).status in {COMPLETE, ERR_CALLBACK, ERR_FORMAT, ERR_AUTH}
  {
    hide Remembered, Assembled;
  }

  /** Exactly the calls that hand a message on answer COMPLETE or ERR_CALLBACK, by
    * what the callback reported. */
  lemma CallbackAnswers(rx: Rx, hooks: Hooks, f: CFrame.Frame)
    requires Shaped(rx) && CFrame.Valid(f)
    ensures var o := Ingested(rx, hooks, f);
            match o.delivered
            case Some(m) => o.status == if hooks.receive(m) then COMPLETE else ERR_CALLBACK
            case None => o.status != COMPLETE && o.status != ERR_CALLBACK
  {
    hide Remembered, Allocated, SameMessage, Complete, Assembled, IsReplay;
  }

  /** The frame announces a signature by the highest of its four flags. */
  lemma SignatureAnnounced(s: Slot, f: CFrame.Frame)
    requires CFrame.Valid(f)
    ensures OuterOf(s, f) == Outer(s.classId, s.priority, s.stateTag, f.flags >= 8)
  {}
}
