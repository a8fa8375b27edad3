/** The C receiver on its own memory: fixed slots of 32 payload buffers each,
  * filled by copying and compacted in place when a message is complete.
  */
module CReceiverObjects {
  import opened Words
  import opened BitBuffers
  import opened CStatus
  import opened CMessage
  import opened CReceiver
  import AirErrors
  import BitStrings
  import CFec
  import CFrame
  import CLink
  import CTransmitter
  import Interleaver
  import Replay
  import Trellis
  import Viterbi

  lemma SameTail(a: seq<byte>, b: seq<byte>, m: nat, n: nat)
    requires |a| == |b| && m <= n <= |a| && a[m..] == b[m..]
    ensures a[n..] == b[n..]
  {
    assert a[n..] == a[m..][n - m..] && b[n..] == b[m..][n - m..];
  }

  // ----- payload buffers as values ------------------------------------------------------

  /** Buffer number `i` of the flat memory. */
  function BufferAt(bytes: seq<byte>, i: nat): (b: seq<byte>)
    requires |bytes| == MAX_ASSEMBLED_BYTES && i < MAX_FRAGMENTS
    ensures |b| == MAX_FRAME_PAYLOAD
  {
    bytes[MAX_FRAME_PAYLOAD * i..MAX_FRAME_PAYLOAD * i + MAX_FRAME_PAYLOAD]
  }

  predicate LengthsOk(lens: seq<byte>) {
    |lens| == MAX_FRAGMENTS && forall i :: 0 <= i < MAX_FRAGMENTS ==> lens[i] <= MAX_FRAME_PAYLOAD
  }

  /** Payload `i`: present when its bit is set. */
  function PartIn(bitmap: u32, lens: seq<byte>, bytes: seq<byte>, i: nat): Part
    requires LengthsOk(lens) && |bytes| == MAX_ASSEMBLED_BYTES && i < MAX_FRAGMENTS
  {
    if Bit(bitmap, i) then AirErrors.Some(BufferAt(bytes, i)[..lens[i]]) else AirErrors.None
  }

  function PartsIn(bitmap: u32, lens: seq<byte>, bytes: seq<byte>): (ps: seq<Part>)
    requires LengthsOk(lens) && |bytes| == MAX_ASSEMBLED_BYTES
    ensures |ps| == MAX_FRAGMENTS
  {
    seq(MAX_FRAGMENTS, i requires 0 <= i < MAX_FRAGMENTS => PartIn(bitmap, lens, bytes, i))
  }

  lemma NoPartsIn(lens: seq<byte>, bytes: seq<byte>)
    requires LengthsOk(lens) && |bytes| == MAX_ASSEMBLED_BYTES
    ensures PartsIn(0, lens, bytes) == NoParts()
  {
    NoBits();
    hide Bit, BufferAt;
  }

  lemma NoBits()
    ensures forall i: nat :: !Bit(0, i)
  {
    forall i: nat ensures !Bit(0, i) { ZeroBits(i); }
  }

  /** Writing one payload leaves the other buffers as they are. */
  lemma StoredParts(bitmap: u32, lens: seq<byte>, before: seq<byte>, after: seq<byte>, index: nat, payload: seq<byte>)
    requires LengthsOk(lens) && |before| == |after| == MAX_ASSEMBLED_BYTES
    requires index < MAX_FRAGMENTS && |payload| <= MAX_FRAME_PAYLOAD
    requires var at := MAX_FRAME_PAYLOAD * index;
             after == before[..at] + payload + before[at + |payload|..]
    ensures SetBit(bitmap, index) < 0x1_0000_0000 && LengthsOk(lens[index := |payload|])
    ensures PartsIn(SetBit(bitmap, index), lens[index := |payload|], after)
         == PartsIn(bitmap, lens, before)[index := AirErrors.Some(payload)]
  {
    hide Bit, SetBit, Pow2, BufferAt;
    MarkFits(bitmap, index);
    var left := PartsIn(SetBit(bitmap, index), lens[index := |payload|], after);
    var right := PartsIn(bitmap, lens, before)[index := AirErrors.Some(payload)];
    forall i | 0 <= i < MAX_FRAGMENTS ensures left[i] == right[i] {
      BitOfSetBit(bitmap, index, i);
      BufferAfter(before, after, index, payload, i);
    }
  }

  lemma BufferAfter(before: seq<byte>, after: seq<byte>, index: nat, payload: seq<byte>, i: nat)
    requires |before| == |after| == MAX_ASSEMBLED_BYTES && i < MAX_FRAGMENTS
    requires index < MAX_FRAGMENTS && |payload| <= MAX_FRAME_PAYLOAD
    requires var at := MAX_FRAME_PAYLOAD * index;
             after == before[..at] + payload + before[at + |payload|..]
    ensures if i == index then BufferAt(after, i)[..|payload|] == payload else BufferAt(after, i) == BufferAt(before, i)
  {
    if i != index { PayloadsApart(index, i); }
  }

  class SlotBuffer {
    var used: bool
    var streamId: u16
    var sequence: u16
    var profile: byte
    var flags: byte
    var fragmentCount: byte
    var classId: byte
    var priority: byte
    var stateTag: u16
    var receivedBitmap: u32
    var age: u32
    const fragmentLen: array<byte>
    const fragments: array<byte>

    ghost predicate Valid()
      reads this, fragmentLen, fragments
    {
      fragments.Length == MAX_ASSEMBLED_BYTES && fragmentLen != fragments && LengthsOk(fragmentLen[..])
    }

    ghost function Memory(): set<object> { {this as object, fragmentLen as object, fragments as object} }

    ghost function Parts(): (ps: seq<Part>)
      reads this, fragmentLen, fragments
      requires Valid()
      ensures |ps| == MAX_FRAGMENTS
    {
      PartsIn(receivedBitmap, fragmentLen[..], fragments[..])
    }

    ghost function View(): Slot
      reads this, fragmentLen, fragments
      requires Valid()
    {
      Slot(used, streamId, sequence, profile, flags, fragmentCount, classId, priority, stateTag, Parts(), age)
    }

    constructor ()
      ensures Valid() && View() == EmptySlot() && fresh(Memory())
    {
      used, streamId, sequence, profile, flags, fragmentCount := false, 0, 0, 0, 0, 0;
      classId, priority, stateTag, receivedBitmap, age := 0, 0, 0, 0, 0;
      fragmentLen := new byte[MAX_FRAGMENTS](_ => 0);
      fragments := new byte[MAX_ASSEMBLED_BYTES](_ => 0);
      new;
      hide PartsIn;
      NoPartsIn(fragmentLen[..], fragments[..]);
    }

    /** `memset(slot, 0, sizeof(*slot))` */
    method Wipe()
      requires Valid()
      modifies this, fragmentLen, fragments
      ensures Valid() && View() == EmptySlot()
    {
      used, streamId, sequence, profile, flags, fragmentCount := false, 0, 0, 0, 0, 0;
      classId, priority, stateTag, receivedBitmap, age := 0, 0, 0, 0, 0;
      hide PartsIn, BitsOf, NoParts;
      BitBuffers.Clear(fragmentLen, MAX_FRAGMENTS);
      BitBuffers.Clear(fragments, MAX_ASSEMBLED_BYTES);
      NoPartsIn(fragmentLen[..], fragments[..]);
    }

    /** Claims the slot for the frame's message. */
    method Open(f: CFrame.Frame, now: u32)
      requires Valid()
      modifies this, fragmentLen, fragments
      ensures Valid() && View() == NewSlot(f, now)
    {
      hide PartsIn, NoParts;
      Wipe();
      used, streamId, sequence := true, f.streamId, f.sequence;
      profile, flags, fragmentCount := f.profile, f.flags, f.fragmentCount;
      classId, priority, stateTag, age := f.classId, f.priority, f.stateTag, now;
    }

    /** Copies one payload in and marks it present. */
    method Store(f: CFrame.Frame, now: u32)
      requires Valid() && f.fragmentIndex < MAX_FRAGMENTS && |f.payload| <= MAX_FRAME_PAYLOAD
      modifies this, fragmentLen, fragments
      ensures Valid()
      ensures View() == old(View()).(parts := old(Parts())[f.fragmentIndex := AirErrors.Some(f.payload)], age := now)
    {
      assert fragmentLen.Length == MAX_FRAGMENTS;
      hide PartsIn, SetBit, LengthsOk;
      var index := f.fragmentIndex;
      ghost var lens, before := fragmentLen[..], fragments[..];
      CFrame.Put(fragments, MAX_FRAME_PAYLOAD * index, f.payload);
      StoredParts(receivedBitmap, lens, before, fragments[..], index, f.payload);
      fragmentLen[index] := |f.payload|;
      ghost var length: byte := |f.payload|;
      assert fragmentLen[..] == lens[index := length];
      receivedBitmap := SetBit(receivedBitmap, index);
      age := now;
    }

    /** Everything but the payloads. */
    function Header(): Slot
      reads this
    {
      Slot(used, streamId, sequence, profile, flags, fragmentCount, classId, priority, stateTag, NoParts(), age)
    }

    /** `received_bitmap == complete_mask` */
    predicate AllReceived()
      reads this
    {
      fragmentCount <= MAX_FRAGMENTS && receivedBitmap == Mask(fragmentCount)
    }

    /** Moves the payloads together at the front of the buffer.  No payload is
      * overwritten before it has been moved. */
    method Compact() returns (total: nat)
      requires Valid() && fragmentCount <= MAX_FRAGMENTS && Complete(Parts(), fragmentCount)
      modifies fragments
      ensures total <= MAX_ASSEMBLED_BYTES && fragments[..total] == Assembled(old(Parts())[..fragmentCount])
    {
      total := 0;
      ghost var parts, before := Parts(), fragments[..];
      assert Assembled(parts[..0]) == [];
      hide Bit, Assembled, BufferAt;
      for i := 0 to fragmentCount
        invariant total <= MAX_FRAME_PAYLOAD * i
        invariant fragments[..total] == Assembled(parts[..i])
        invariant fragments[MAX_FRAME_PAYLOAD * i..] == before[MAX_FRAME_PAYLOAD * i..]
      {
        AssembledNext(parts, i);
        assert parts[i] == AirErrors.Some(BufferAt(before, i)[..fragmentLen[i]]) by { assert parts[i].Some?; }
        total := MovePart(i, total, Assembled(parts[..i]), before);
      }
    }

    /** One turn of the compaction. */
    method MovePart(i: nat, total: nat, ghost front: seq<byte>, ghost before: seq<byte>) returns (next: nat)
      requires Valid() && i < MAX_FRAGMENTS && total <= MAX_FRAME_PAYLOAD * i && |before| == MAX_ASSEMBLED_BYTES
      requires fragments[..total] == front && fragments[MAX_FRAME_PAYLOAD * i..] == before[MAX_FRAME_PAYLOAD * i..]
      modifies fragments
      ensures next <= MAX_FRAME_PAYLOAD * (i + 1) && fragments[..next] == front + BufferAt(before, i)[..fragmentLen[i]]
      ensures fragments[MAX_FRAME_PAYLOAD * (i + 1)..] == before[MAX_FRAME_PAYLOAD * (i + 1)..]
    {
      var len := fragmentLen[i];
      var from := MAX_FRAME_PAYLOAD * i;
      assert fragments[from..from + len] == BufferAt(before, i)[..len] by {
        assert fragments[from..from + len] == fragments[from..][..len];
        assert BufferAt(before, i)[..len] == before[from..][..len];
      }
      next := MoveDown(total, from, len, front);
      SameTail(old(fragments[..]), before, from, from + len);
      SameTail(fragments[..], before, from + len, MAX_FRAME_PAYLOAD * (i + 1));
    }

    /** `memmove(assembled + total, fragments[i], len)`, and the new total. */
    method MoveDown(total: nat, from: nat, len: nat, ghost front: seq<byte>) returns (next: nat)
      requires total <= from && from + len <= fragments.Length && fragments[..total] == front
      modifies fragments
      ensures next == total + len && fragments[..next] == front + old(fragments[from..from + len])
      ensures fragments[from + len..] == old(fragments[from + len..])
    {
      CFrame.Put(fragments, total, fragments[from..from + len]);
      next := total + len;
    }
  }

  /** `count == 32 ? UINT32_MAX : (1 << count) - 1` */
  function Mask(count: nat): nat { Pow2(count) - 1 }

  lemma MarkFits(bitmap: u32, i: nat)
    requires i < 32
    ensures SetBit(bitmap, i) < 0x1_0000_0000
  {
    hide SetBit;
    Pow2Values();
    SetBitBound(bitmap, i, 32);
  }

  lemma PayloadsApart(i: nat, j: nat)
    requires i < MAX_FRAGMENTS && j < MAX_FRAGMENTS && i != j
    ensures MAX_FRAME_PAYLOAD * i + MAX_FRAME_PAYLOAD <= MAX_FRAME_PAYLOAD * j
         || MAX_FRAME_PAYLOAD * j + MAX_FRAME_PAYLOAD <= MAX_FRAME_PAYLOAD * i
  {}

  lemma AssembledNext(parts: seq<Part>, i: nat)
    requires i < |parts|
    ensures Assembled(parts[..i + 1]) == Assembled(parts[..i]) + PartBytes(parts[i])
  {
    assert parts[..i + 1][..i] == parts[..i];
  }

  lemma {:induction false} MaskBits(count: nat, i: nat)
    ensures Bit(Mask(count), i) == (i < count)
  {
    if count == 0 {
      ZeroBits(i);
    } else if i > 0 {
      MaskBits(count - 1, i - 1);
    }
  }

  lemma FindSlotIs(slots: seq<Slot>, key: Key, i: nat)
    requires i <= |slots| && forall j :: 0 <= j < i ==> !(slots[j].used && KeyOf(slots[j]) == key)
    requires i < |slots| ==> slots[i].used && KeyOf(slots[i]) == key
    ensures FindSlot(slots, key) == i
  {}

  lemma FindReplayIs(replay: seq<ReplayEntry>, streamId: u16, i: nat)
    requires i <= |replay|
    requires forall j :: 0 <= j < i ==> !(replay[j].window.initialized && replay[j].streamId == streamId)
    requires i < |replay| ==> replay[i].window.initialized && replay[i].streamId == streamId
    ensures FindReplay(replay, streamId) == i
  {}

  /** The mask test finds exactly the complete messages. */
  lemma MaskTest(bitmap: u32, count: nat)
    requires count <= MAX_FRAGMENTS && forall i: nat :: count <= i < MAX_FRAGMENTS ==> !Bit(bitmap, i)
    ensures bitmap == Mask(count) <==> forall i: nat :: i < count ==> Bit(bitmap, i)
  {
    hide Bit, Mask, Pow2;
    Pow2Values();
    MaskFits(count);
    forall i: nat ensures Bit(Mask(count), i) == (i < count) { MaskBits(count, i); }
    if forall i: nat :: i < count ==> Bit(bitmap, i) {
      forall j: nat | j < 32 ensures Bit(bitmap, j) == Bit(Mask(count), j) {}
      BitsDetermine(bitmap, Mask(count), 32);
    } else {
      var i: nat :| i < count && !Bit(bitmap, i);
      MaskBits(count, i);
      DifferInBit(bitmap, Mask(count), i);
    }
  }

  lemma DifferInBit(v: nat, w: nat, i: nat)
    requires Bit(v, i) != Bit(w, i)
    ensures v != w
  {}

  lemma {:induction false} MaskFits(count: nat)
    requires count <= 32
    ensures Mask(count) < Pow2(32)
  {
    hide Pow2;
    Pow2Add(count, 32 - count);
    Times(Pow2(count), Pow2(32 - count));
  }

  lemma Times(a: nat, b: nat)
    requires b >= 1
    ensures a <= a * b
  {}

  /** Decoder memory, apart from all slots. */
  class Scratch {
    const workspace: CFec.Workspace
    const a: array<byte>
    const b: array<byte>

    ghost function Memory(): set<object> { {a as object, b as object} + workspace.Buffers() }

    ghost predicate Valid() {
      a.Length == b.Length == FEC_MAX_CODED_BYTES && a != b && workspace.Valid()
      && a as object !in workspace.Buffers() && b as object !in workspace.Buffers()
    }

    constructor ()
      ensures Valid() && fresh(Memory())
    {
      workspace := new CFec.Workspace();
      a := new byte[FEC_MAX_CODED_BYTES](_ => 0);
      b := new byte[FEC_MAX_CODED_BYTES](_ => 0);
    }
  }

  class Receiver {
    const slots: seq<SlotBuffer>
    ghost const slotMemory: set<object>
    const scratch: Scratch
    var replay: seq<ReplayEntry>
    var clock: u32

    /** No two buffers overlap. */
    ghost predicate Apart() {
      |slots| == REASSEMBLY_SLOTS && this !in slotMemory && this !in scratch.Memory()
      && (forall i :: 0 <= i < |slots| ==> slots[i].Memory() <= slotMemory)
      && (forall i, j :: 0 <= i < |slots| && 0 <= j < |slots| && i != j ==> slots[i].Memory() !! slots[j].Memory())
      && slotMemory !! scratch.Memory() && scratch.Valid()
    }

    ghost predicate Built()
      reads this, slotMemory
    {
      Apart() && forall i :: 0 <= i < |slots| ==> slots[i].Valid()
    }

    /** The first `n` slots. */
    ghost function Views(n: nat): (views: seq<Slot>)
      reads this, slotMemory
      requires Built() && n <= |slots|
      ensures |views| == n && forall i :: 0 <= i < n ==> views[i] == slots[i].View()
    {
      if n == 0 then [] else Views(n - 1) + [slots[n - 1].View()]
    }

    ghost function View(): (rx: Rx)
      reads this, slotMemory
      requires Built()
    {
      Rx(clock, Views(|slots|), replay)
    }

    ghost predicate Valid()
      reads this, slotMemory
    {
      Built() && RxOk(View())
    }

    constructor ()
      ensures Valid() && View() == FreshRx()
    {
      var buffers: seq<SlotBuffer> := [];
      ghost var memory: set<object> := {};
      while |buffers| < REASSEMBLY_SLOTS
        invariant |buffers| <= REASSEMBLY_SLOTS
        invariant fresh(memory) && forall i :: 0 <= i < |buffers| ==> buffers[i].Memory() <= memory
        invariant forall i :: 0 <= i < |buffers| ==> buffers[i].Valid() && buffers[i].View() == EmptySlot()
        invariant forall i, j :: 0 <= i < |buffers| && 0 <= j < |buffers| && i != j ==>
                    buffers[i].Memory() !! buffers[j].Memory()
      {
        hide SlotBuffer.Parts, SlotBuffer.View, SlotBuffer.Valid, EmptySlot;
        var buffer := new SlotBuffer();
        buffers := buffers + [buffer];
        memory := memory + buffer.Memory();
      }
      slots, slotMemory := buffers, memory;
      scratch := new Scratch();
      replay := seq(REPLAY_STREAMS, _ => EmptyEntry());
      clock := 0;
      new;
      hide RxOk, SlotBuffer.Parts, SlotBuffer.View, EmptySlot, SlotBuffer.Valid, SlotBuffer.Memory, Scratch.Memory;
      hide Scratch.Valid, EmptyEntry;
      FreshOk();
      assert View().slots == FreshRx().slots;
    }

    lemma SlotCount()
      requires Apart()
      ensures |slots| == REASSEMBLY_SLOTS
    {}

    method FindEntry(streamId: u16) returns (i: nat)
      ensures i == FindReplay(replay, streamId)
    {
      i := 0;
      while i < |replay|
        invariant i <= |replay|
        invariant forall j :: 0 <= j < i ==> !(replay[j].window.initialized && replay[j].streamId == streamId)
      {
        if replay[i].window.initialized && replay[i].streamId == streamId {
          FindReplayIs(replay, streamId, i);
          return;
        }
        i := i + 1;
      }
      FindReplayIs(replay, streamId, i);
    }

    method IsReplayed(streamId: u16, sequence: u16) returns (b: bool)
      ensures b == Replay.IsReplay(WindowOf(replay, streamId), sequence)
    {
      hide Replay.IsReplay;
      var i := FindEntry(streamId);
      if i == |replay| {
        EmptyNeverReplays(sequence);
        return false;
      }
      return Replay.IsReplay(replay[i].window, sequence);
    }

    static lemma EmptyNeverReplays(sequence: u16)
      ensures !Replay.IsReplay(Replay.EMPTY, sequence)
    {}

    method OldestEntry() returns (oldest: nat)
      requires |replay| == REPLAY_STREAMS
      ensures oldest == Victim(EntryUses(replay))
    {
      oldest := 0;
      for i := 0 to REPLAY_STREAMS
        invariant oldest < REPLAY_STREAMS && Victim(EntryUses(replay)) == VictimFrom(EntryUses(replay), i, oldest)
      {
        if !replay[i].window.initialized { return i; }
        if replay[i].age < replay[oldest].age { oldest := i; }
      }
    }

    method CommitReplay(streamId: u16, sequence: u16)
      requires Built() && |replay| == REPLAY_STREAMS
      modifies this
      ensures Built() && View() == Remembered(old(View()), streamId, sequence)
    {
      hide Replay.CommitReplay, Victim;
      var i := FindEntry(streamId);
      if i == |replay| {
        var at := OldestEntry();
        clock := Tick(clock);
        replay := replay[at := ReplayEntry(streamId, Replay.CommitReplay(Replay.EMPTY, sequence), clock)];
      } else {
        clock := Tick(clock);
        replay := replay[i := ReplayEntry(streamId, Replay.CommitReplay(replay[i].window, sequence), clock)];
      }
    }

    method OldestSlot() returns (oldest: nat)
      requires Built()
      ensures oldest == Victim(SlotUses(View().slots))
    {
      hide SlotBuffer.Parts, SlotBuffer.Valid, SlotBuffer.Memory, Apart;
      assert |slots| == REASSEMBLY_SLOTS by { SlotCount(); }
      ghost var uses := SlotUses(View().slots);
      oldest := 0;
      for i := 0 to REASSEMBLY_SLOTS
        invariant oldest < REASSEMBLY_SLOTS && Victim(uses) == VictimFrom(uses, i, oldest)
      {
        var slot := slots[i];
        assert uses[i] == Use(slot.used, slot.age);
        if !slot.used { return i; }
        if slot.age < slots[oldest].age { oldest := i; }
      }
    }

    method FindUsedSlot(f: CFrame.Frame) returns (i: nat)
      requires Built()
      ensures i == FindSlot(View().slots, FrameKey(f))
    {
      hide SlotBuffer.Parts, SlotBuffer.Valid, SlotBuffer.Memory, Apart;
      SlotCount();
      ghost var views := View().slots;
      i := 0;
      while i < REASSEMBLY_SLOTS
        invariant i <= REASSEMBLY_SLOTS
        invariant forall j :: 0 <= j < i ==> !(views[j].used && KeyOf(views[j]) == FrameKey(f))
      {
        var slot := slots[i];
        if slot.used && slot.streamId == f.streamId && slot.sequence == f.sequence {
          FindSlotIs(views, FrameKey(f), i);
          return;
        }
        i := i + 1;
      }
      FindSlotIs(views, FrameKey(f), i);
    }

    method FindOrAllocate(f: CFrame.Frame) returns (index: nat)
      requires Built()
      modifies this, slotMemory
      ensures Built() && index < REASSEMBLY_SLOTS && Allocation(View(), index) == Allocated(old(View()), f)
    {
      hide SlotBuffer.Parts, SlotBuffer.Valid, Victim, Apart, NewSlot, Views;
      SlotCount();
      index := FindUsedSlot(f);
      if index < REASSEMBLY_SLOTS { return; }
      index := OldestSlot();
      AdvanceClock();
      OpenSlot(index, f);
    }

    method AdvanceClock()
      requires Built()
      modifies this`clock
      ensures Built() && View() == old(View()).(clock := Tick(old(clock)))
    {
      hide SlotBuffer.Parts, SlotBuffer.Valid;
      clock := Tick(clock);
      assert Views(|slots|) == old(Views(|slots|));
    }

    method OpenSlot(index: nat, f: CFrame.Frame)
      requires Built() && index < |slots|
      modifies slotMemory
      ensures Built() && View() == old(View()).(slots := old(View()).slots[index := NewSlot(f, clock)])
    {
      hide SlotBuffer.Parts, SlotBuffer.Valid, SlotBuffer.View, NewSlot;
      slots[index].Open(f, clock);
      forall i | 0 <= i < |slots| && i != index ensures slots[i].Valid() && slots[i].View() == old(slots[i].View()) {
        assert slots[i].Memory() !! slots[index].Memory();
      }
    }

    method CompactSlot(index: nat) returns (assembled: seq<byte>)
      requires Built() && index < |slots| && View().slots[index].fragmentCount <= MAX_FRAGMENTS
      requires Complete(View().slots[index].parts, View().slots[index].fragmentCount)
      modifies slotMemory
      ensures Built() && clock == old(clock) && replay == old(replay)
      ensures var s := old(View()).slots[index]; assembled == Assembled(s.parts[..s.fragmentCount])
      ensures forall i :: 0 <= i < |slots| && i != index ==> slots[i].View() == old(slots[i].View())
    {
      hide SlotBuffer.View, Assembled, Complete;
      SlotFields(slots[index]);
      hide SlotBuffer.Parts, SlotBuffer.Valid;
      var total := slots[index].Compact();
      assembled := slots[index].fragments[..total];
      forall i | 0 <= i < |slots| && i != index ensures slots[i].Valid() && slots[i].View() == old(slots[i].View()) {
        assert slots[i].Memory() !! slots[index].Memory();
      }
    }

    lemma SlotFields(slot: SlotBuffer)
      requires slot.Valid()
      ensures slot.View().parts == slot.Parts() && slot.View().fragmentCount == slot.fragmentCount
    {}

    method WipeSlot(index: nat)
      requires Built() && index < |slots|
      modifies slotMemory
      ensures Built() && View() == old(View()).(slots := old(View()).slots[index := EmptySlot()])
    {
      hide SlotBuffer.Parts, SlotBuffer.Valid, SlotBuffer.View, EmptySlot;
      slots[index].Wipe();
      forall i | 0 <= i < |slots| && i != index ensures slots[i].Valid() && slots[i].View() == old(slots[i].View()) {
        assert slots[i].Memory() !! slots[index].Memory();
      }
    }

    /** Assembles, checks and hands on a complete message; its number is
      * remembered before the callback, and the slot wiped after it. */
    method DeliverSlot(index: nat, hooks: Hooks, f: CFrame.Frame)
        returns (status: Status, delivered: AirErrors.Option<Message>)
      requires Built() && index < REASSEMBLY_SLOTS && |replay| == REPLAY_STREAMS
      requires View().slots[index].fragmentCount <= MAX_FRAGMENTS
      requires Complete(View().slots[index].parts, View().slots[index].fragmentCount)
      modifies this, slotMemory
      ensures Built() && Outcome(View(), status, delivered) == Delivered(old(View()), hooks, index, f)
    {
      hide SlotBuffer.Parts, SlotBuffer.Valid, SlotBuffer.Memory, SlotBuffer.View, Parse, Assembled, Complete;
      hide EmptySlot;
      hide Victim, Replay.CommitReplay;
      ghost var wiped := old(View()).slots[index := EmptySlot()];
      var s := HeaderOf(index);
      var assembled := CompactSlot(index);
      match Parse(assembled, OuterOf(s, f), hooks.verify) {
        case Refused(why) =>
          status, delivered := why, AirErrors.None;
        case Accepted(m) =>
          CommitReplay(s.streamId, s.sequence);
          delivered := AirErrors.Some(m);
          status := if hooks.receive(m) then COMPLETE else ERR_CALLBACK;
      }
      WipeSlot(index);
      assert View().slots == wiped;
    }

    method HeaderOf(index: nat) returns (s: Slot)
      requires Built() && index < |slots|
      ensures s == View().slots[index].(parts := NoParts())
    {
      hide SlotBuffer.Parts, NoParts;
      s := slots[index].Header();
    }

    method IngestFrame(f: CFrame.Frame, hooks: Hooks) returns (status: Status, delivered: AirErrors.Option<Message>)
      requires Valid() && CFrame.Valid(f)
      modifies this, slotMemory
      ensures Valid() && Shaped(old(View())) && Outcome(View(), status, delivered) == Ingested(old(View()), hooks, f)
    {
      hide SlotBuffer.Parts, Victim, Delivered, Allocated, RxOk, Replay.IsReplay, WindowOf, Complete, CFrame.Valid;
      ghost var before := View();
      OkShaped(before);
      IngestKeeps(before, hooks, f);
      ValidIndex(f);
      status, delivered := MORE, AirErrors.None;
      var replayed := IsReplayed(f.streamId, f.sequence);
      if replayed { return ERR_REPLAY, AirErrors.None; }
      AllocatedOk(before, f);
      var index := FindOrAllocate(f);
      ghost var rx := View();
      OkShaped(rx);
      var slot := slots[index];
      if slot.fragmentCount != f.fragmentCount || slot.profile != f.profile || slot.flags != f.flags
         || slot.classId != f.classId || slot.priority != f.priority || slot.stateTag != f.stateTag {
        return ERR_FORMAT, AirErrors.None;
      }
      BitIsPart(slot, f.fragmentIndex);
      if Bit(slot.receivedBitmap, f.fragmentIndex) { return ERR_DUPLICATE, AirErrors.None; }
      StoreFrame(index, f);
      assert View() == Filled(rx, index, f);
      var all := slot.AllReceived();
      FilledShape(rx, index, f);
      MaskIsComplete(slot);
      if !all { return; }
      status, delivered := DeliverSlot(index, hooks, f);
    }

    /** Undoes the interleaver and the code in the scratch buffers. */
    method DecodeBlock(b: CTransmitter.Block) returns (status: Status, raw: seq<byte>)
      requires scratch.Valid() && |b.data| == FEC_MAX_CODED_BYTES
      modifies scratch.Memory()
      ensures match CLink.RawOfBlock(b)
              case Raw(bytes) => status == OK && raw == bytes
              case NoRaw(s) => status == s && s != OK
    {
      hide BitsOf, Viterbi.Decoded, Viterbi.Hard, BitStrings.BytesOf, Interleaver.Columns;
      hide Interleaver.Deinterleaved, Trellis.Codeword, Trellis.Distance;
      raw := [];
      if b.rawLen < 16 || b.rawLen > MAX_WIRE_BYTES || b.bitLen == 0 || b.bitLen > FEC_MAX_CODED_BITS
         || b.interleaveRows > 64 || b.interleaveRows == 1 || b.fec > 1 { return ERR_ARGUMENT, []; }
      var coded := b.data;
      if b.interleaveRows != 0 {
        var data := new byte[FEC_MAX_CODED_BYTES](i requires 0 <= i < FEC_MAX_CODED_BYTES => b.data[i]);
        assert data[..] == b.data;
        status := Interleaver.DeinterleaveBits(data, b.bitLen, scratch.a, b.interleaveRows);
        if status != OK { return; }
        coded := scratch.a[..];
      }
      assert BitsOf(coded)[..b.bitLen] == CLink.CodedWord(b);
      if b.fec != 0 {
        var pathMetric;
        status, pathMetric := CFec.FecDecodeHard(coded, b.bitLen, scratch.b, b.rawLen, scratch.workspace);
        if status != OK { return; }
        raw := scratch.b[..b.rawLen];
        BitStrings.BytesAre(raw, Viterbi.Decoded(Viterbi.Hard(CLink.CodedWord(b)), 8 * b.rawLen + FEC_TAIL_BITS));
      } else {
        if b.bitLen != b.rawLen * 8 { return ERR_FORMAT, []; }
        raw := coded[..b.rawLen];
        BitsOfPrefix(coded, b.rawLen);
        BitStrings.BytesAre(raw, CLink.CodedWord(b));
        status := OK;
      }
    }

    method IngestBlock(b: CTransmitter.Block, hooks: Hooks)
        returns (status: Status, delivered: AirErrors.Option<Message>)
      requires Valid() && |b.data| == FEC_MAX_CODED_BYTES
      modifies this, slotMemory, scratch.Memory()
      ensures Valid() && Shaped(old(View()))
      ensures Outcome(View(), status, delivered) == CLink.IngestedBlock(old(View()), hooks, b)
    {
      hide SlotBuffer.Parts, SlotBuffer.Memory, RxOk, Shaped, Ingested, CLink.RawOfBlock, CFrame.Decode, CFrame.Valid;
      ghost var before := View();
      OkShaped(before);
      delivered := AirErrors.None;
      var raw;
      status, raw := DecodeBlock(b);
      assert Built() && View() == before;
      if status != OK { return; }
      match CFrame.Decode(raw) {
        case Rejected(why) => return why, AirErrors.None;
        case Decoded(f) =>
          CFrame.Canonical(raw);
          if (f.flags / CFrame.FLAG_FEC % 2 == 1) != (b.fec != 0) { return ERR_FORMAT, AirErrors.None; }
          status, delivered := IngestFrame(f, hooks);
      }
    }

    /** `memcpy`, bit, stamp. */
    method StoreFrame(index: nat, f: CFrame.Frame)
      requires Built() && index < REASSEMBLY_SLOTS && f.fragmentIndex < MAX_FRAGMENTS
               && |f.payload| <= MAX_FRAME_PAYLOAD
      modifies this, slotMemory
      ensures Built() && View() == Filled(old(View()), index, f)
    {
      hide SlotBuffer.Parts;
      clock := Tick(clock);
      slots[index].Store(f, clock);
      assert View().slots == Filled(old(View()), index, f).slots;
    }
  }

  lemma BitIsPart(slot: SlotBuffer, i: nat)
    requires slot.Valid() && i < MAX_FRAGMENTS
    ensures Bit(slot.receivedBitmap, i) <==> slot.View().parts[i].Some?
  {
    hide Bit, BufferAt;
    assert slot.Parts()[i] == PartIn(slot.receivedBitmap, slot.fragmentLen[..], slot.fragments[..], i);
  }

  /** The mask test on the slot is completeness of its parts. */
  lemma MaskIsComplete(slot: SlotBuffer)
    requires slot.Valid() && slot.fragmentCount <= MAX_FRAGMENTS
    requires forall i :: slot.fragmentCount <= i < MAX_FRAGMENTS ==> slot.View().parts[i].None?
    ensures slot.AllReceived() <==> Complete(slot.View().parts, slot.fragmentCount)
  {
    hide Bit, Mask;
    var n: nat := slot.fragmentCount;
    var parts := slot.View().parts;
    forall i: nat | i < MAX_FRAGMENTS ensures Bit(slot.receivedBitmap, i) <==> parts[i].Some? { BitIsPart(slot, i); }
    MaskTest(slot.receivedBitmap, n);
    if slot.AllReceived() {
      forall i | 0 <= i < n ensures parts[i].Some? { assert Bit(slot.receivedBitmap, i); }
    }
    if Complete(parts, n) {
      forall i: nat | i < n ensures Bit(slot.receivedBitmap, i) { assert parts[i].Some?; }
    }
  }

  lemma FilledShape(rx: Rx, index: nat, f: CFrame.Frame)
    requires RxOk(rx) && index < REASSEMBLY_SLOTS && rx.slots[index].used
             && rx.slots[index].fragmentCount == f.fragmentCount
    requires f.fragmentIndex < f.fragmentCount <= MAX_FRAGMENTS
    ensures Shaped(rx)
    ensures var s := Filled(rx, index, f).slots[index];
            forall i :: s.fragmentCount <= i < MAX_FRAGMENTS ==> s.parts[i].None?
  {
    hide Complete, DistinctSlots, DistinctStreams;
    assert SlotOk(rx.slots[index]);
  }
}
