/** Fragmentation of a message into wire frames, and the fixed-size reassembly
  * table of the Rust core.
  */
module Fragments {
  import opened Words
  import opened Common
  import opened AirErrors
  import opened Wire

  const MAX_MESSAGE_BYTES := MAX_FRAGMENTS * FRAME_MAX_PAYLOAD

  datatype Meta = Meta(
    profile: WireProfile, flags: byte, streamId: u16, sequence: u16, class_: SemanticClass, priority: byte,
        stateTag: u16)

  function FrameOf(meta: Meta, index: byte, count: byte, payload: seq<byte>): SparseRadioFrame {
    SparseRadioFrame(meta.profile, meta.flags, meta.streamId, meta.sequence, index, count,
                     meta.class_, meta.priority, meta.stateTag, payload)
  }

  /** The `i`-th chunk of `capacity` bytes; the last one may be shorter. */
  function Chunk(message: seq<byte>, capacity: nat, i: nat): (c: seq<byte>)
    requires capacity > 0 && i * capacity <= |message|
  {
    message[i * capacity..Least((i + 1) * capacity, |message|)]
  }

  function FragmentCount(message: seq<byte>, capacity: nat): nat
    requires capacity > 0 || message == []
  {
    if message == [] then 1 else DivCeil(|message|, capacity)
  }

  function FragmentError(message: seq<byte>, frameMtu: nat): Result<()> {
    if !(FRAME_MIN_BYTES <= frameMtu <= FRAME_MAX_BYTES) then Err(InvalidLength)
    else if |message| > MAX_MESSAGE_BYTES then Err(LimitExceeded)
    else if frameMtu == FRAME_MIN_BYTES && message != [] then Err(InvalidLength)
    else if FragmentCount(message, frameMtu - FRAME_MIN_BYTES) > MAX_FRAGMENTS then Err(LimitExceeded)
    else Ok(())
  }

  /** `frames` carries `message` cut into chunks of `capacity` bytes. */
  ghost predicate Carries(frames: seq<SparseRadioFrame>, meta: Meta, message: seq<byte>, capacity: nat) {
    (capacity > 0 || message == [])
    && |frames| == FragmentCount(message, capacity) <= MAX_FRAGMENTS
    && forall i :: 0 <= i < |frames| ==> IsFragment(frames[i], meta, message, capacity, i, |frames|)
  }

  predicate IsFragment(f: SparseRadioFrame, meta: Meta, message: seq<byte>, capacity: nat, i: nat, count: nat) {
    i < count <= MAX_FRAGMENTS
    && if message == [] then f == FrameOf(meta, i, count, [])
       else capacity > 0 && i * capacity <= |message| && f == FrameOf(meta, i, count, Chunk(message, capacity, i))
  }

  lemma ChunkIndexInside(n: nat, capacity: nat, i: nat)
    requires capacity > 0 && i < DivCeil(n, capacity)
    ensures i * capacity < n
  {
    var q := DivCeil(n, capacity);
    assert n + capacity - 1 == q * capacity + (n + capacity - 1) % capacity;
    Scaled(i + 1, q, capacity);
    assert (i + 1) * capacity == i * capacity + capacity;
  }

  lemma ChunkCountCovers(n: nat, capacity: nat)
    requires capacity > 0
    ensures DivCeil(n, capacity) * capacity >= n
  {
    var q := DivCeil(n, capacity);
    assert n + capacity - 1 == q * capacity + (n + capacity - 1) % capacity;
  }

  method FragmentMessage(meta: Meta, message: seq<byte>, frameMtu: nat) returns (r: Result<seq<SparseRadioFrame>>)
    ensures r.Err? <==> FragmentError(message, frameMtu).Err?
    ensures r.Err? ==> r.error == FragmentError(message, frameMtu).error
    ensures r.Ok? ==> Carries(r.value, meta, message, frameMtu - FRAME_MIN_BYTES)
  {
    if !(FRAME_MIN_BYTES <= frameMtu <= FRAME_MAX_BYTES) { return Err(InvalidLength); }
    if |message| > MAX_MESSAGE_BYTES { return Err(LimitExceeded); }
    var payloadCapacity := frameMtu - FRAME_MIN_BYTES;
    if payloadCapacity == 0 && message != [] { return Err(InvalidLength); }
    var count := if message == [] then 1 else DivCeil(|message|, payloadCapacity);
    if count > MAX_FRAGMENTS { return Err(LimitExceeded); }
    var frames: seq<SparseRadioFrame> := [];
    if message == [] {
      frames := [FrameOf(meta, 0, 1, [])];
    } else {
      hide DivCeil;
      for index := 0 to count
        invariant |frames| == index
        invariant forall i :: 0 <= i < index ==> IsFragment(frames[i], meta, message, payloadCapacity, i, count)
      {
        ChunkIndexInside(|message|, payloadCapacity, index);
        frames := frames + [FrameOf(meta, index, count, Chunk(message, payloadCapacity, index))];
      }
    }
    return Ok(frames);
  }

  // ----------------------------------------------------------------- the table

  datatype ReassemblerConfig = ReassemblerConfig(maxContexts: nat, maxMessageBytes: nat, maxFragments: byte)

  predicate ConfigOk(c: ReassemblerConfig) {
    c.maxContexts != 0 && c.maxMessageBytes != 0 && c.maxMessageBytes <= MAX_MESSAGE_BYTES
    && c.maxFragments != 0 && c.maxFragments <= MAX_FRAGMENTS
  }

  datatype ReassembledMessage = ReassembledMessage(meta: Meta, bytes: seq<byte>)

  type Part = Option<seq<byte>>

  function NoParts(n: nat): seq<Part> { seq(n, _ => None) }

  datatype Context = Context(meta: Meta, totalBytes: nat, parts: seq<Part>)

  type Key = (u16, u16)

  function KeyOf(meta: Meta): Key { (meta.streamId, meta.sequence) }

  function MetaOf(f: SparseRadioFrame): Meta {
    Meta(f.profile, f.flags, f.streamId, f.sequence, f.class_, f.priority, f.stateTag)
  }

  /** `contexts.iter().position(..)`, or the length if there is none. */
  function Find(contexts: seq<Context>, key: Key): (i: nat)
    ensures i <= |contexts|
    ensures i < |contexts| ==> KeyOf(contexts[i].meta) == key
    ensures forall j :: 0 <= j < i ==> KeyOf(contexts[j].meta) != key
  {
    if contexts == [] then 0
    else if KeyOf(contexts[0].meta) == key then 0
    else 1 + Find(contexts[1..], key)
  }

  /** `swap_remove` */
  function SwapRemove<T>(s: seq<T>, i: nat): (r: seq<T>)
    requires i < |s|
    ensures |r| == |s| - 1
  {
    s[i := s[|s| - 1]][..|s| - 1]
  }

  function Concat(parts: seq<Part>): seq<byte> {
    if parts == [] then []
    else Concat(parts[..|parts| - 1]) + PartBytes(parts[|parts| - 1])
  }

  function PartBytes(p: Part): seq<byte> { if p.Some? then p.value else [] }

  datatype PushOutcome = PushOutcome(contexts: seq<Context>, result: Result<Option<ReassembledMessage>>)

  /** What `push` does to the table, and what it returns. */
  function Pushed(config: ReassemblerConfig, contexts: seq<Context>, frame: SparseRadioFrame): PushOutcome {
    if Validate(frame).Err? then PushOutcome(contexts, Err(Validate(frame).error))
    else if frame.fragmentCount > config.maxFragments then PushOutcome(contexts, Err(LimitExceeded))
    else
      var index := Find(contexts, KeyOf(MetaOf(frame)));
      if index == |contexts| then
        if |contexts| == config.maxContexts then PushOutcome(contexts, Err(ReassemblyFull))
        else Stored(config, contexts + [FreshContext(frame)], index, frame)
      else Stored(config, contexts, index, frame)
  }

  function FreshContext(frame: SparseRadioFrame): Context {
    Context(MetaOf(frame), 0, NoParts(frame.fragmentCount))
  }

  function Stored(config: ReassemblerConfig, contexts: seq<Context>, index: nat, frame: SparseRadioFrame): PushOutcome
    requires index < |contexts| && frame.fragmentIndex < frame.fragmentCount
  {
    var c := contexts[index];
    if c.meta != MetaOf(frame) || |c.parts| != frame.fragmentCount then PushOutcome(contexts, Err(FragmentConflict))
    else if c.parts[frame.fragmentIndex].Some? then
      PushOutcome(contexts,
                  if c.parts[frame.fragmentIndex].value == frame.payload then Ok(None) else Err(FragmentConflict))
    else if c.totalBytes + |frame.payload| > config.maxMessageBytes then PushOutcome(contexts, Err(LimitExceeded))
    else
      var filled := Fill(c, frame.fragmentIndex, frame.payload);
      if Incomplete(filled) then PushOutcome(contexts[index := filled], Ok(None))
      else PushOutcome(SwapRemove(contexts, index), Ok(Some(ReassembledMessage(filled.meta, Concat(filled.parts)))))
  }

  function Fill(c: Context, i: nat, payload: seq<byte>): Context
    requires i < |c.parts|
  {
    Context(c.meta, c.totalBytes + |payload|, c.parts[i := Some(payload)])
  }

  predicate Incomplete(c: Context) { exists i :: 0 <= i < |c.parts| && c.parts[i].None? }

  class Reassembler {
    const config: ReassemblerConfig
    var contexts: seq<Context>

    constructor (config: ReassemblerConfig)
      requires ConfigOk(config)
      ensures this.config == config && contexts == []
    {
      this.config := config;
      contexts := [];
    }

    function HasInFlight(streamId: u16, sequence: u16): bool
      reads this
    {
      Find(contexts, (streamId, sequence)) < |contexts|
    }

    method Clear(streamId: u16, sequence: u16)
      modifies this
      ensures contexts == Cleared(old(contexts), (streamId, sequence))
    {
      var index := Find(contexts, (streamId, sequence));
      if index < |contexts| { contexts := SwapRemove(contexts, index); }
    }

    method Push(frame: SparseRadioFrame) returns (r: Result<Option<ReassembledMessage>>)
      modifies this
      ensures PushOutcome(contexts, r) == Pushed(config, old(contexts), frame)
    {
      var check := Validate(frame);
      if check.Err? { return Err(check.error); }
      if frame.fragmentCount > config.maxFragments { return Err(LimitExceeded); }
      var index := Find(contexts, KeyOf(MetaOf(frame)));
      if index == |contexts| {
        if |contexts| == config.maxContexts { return Err(ReassemblyFull); }
        contexts := contexts + [FreshContext(frame)];
      }
      var context := contexts[index];
      if context.meta != MetaOf(frame) || |context.parts| != frame.fragmentCount { return Err(FragmentConflict); }
      var part := context.parts[frame.fragmentIndex];
      if part.Some? {
        if part.value == frame.payload { return Ok(None); } else { return Err(FragmentConflict); }
      }
      var newTotal := context.totalBytes + |frame.payload|;
      if newTotal > config.maxMessageBytes { return Err(LimitExceeded); }
      context := Fill(context, frame.fragmentIndex, frame.payload);
      if Incomplete(context) {
        contexts := contexts[index := context];
        return Ok(None);
      }
      contexts := SwapRemove(contexts, index);
      var bytes: seq<byte> := [];
      for i := 0 to |context.parts|
        invariant bytes == Concat(context.parts[..i])
      {
        assert context.parts[..i + 1][..i] == context.parts[..i];
        bytes := bytes + PartBytes(context.parts[i]);
      }
      assert context.parts[..|context.parts|] == context.parts;
      return Ok(Some(ReassembledMessage(context.meta, bytes)));
    }
  }

  function Cleared(contexts: seq<Context>, key: Key): seq<Context> {
    var index := Find(contexts, key);
    if index < |contexts| then SwapRemove(contexts, index) else contexts
  }

  // ------------------------------------------------------------- the invariant

  function TotalOf(parts: seq<Part>): nat {
    if parts == [] then 0 else TotalOf(parts[..|parts| - 1]) + |PartBytes(parts[|parts| - 1])|
  }

  predicate UniqueKeys(contexts: seq<Context>) {
    forall i, j :: 0 <= i < j < |contexts| ==> KeyOf(contexts[i].meta) != KeyOf(contexts[j].meta)
  }

  predicate ContextOk(config: ReassemblerConfig, c: Context) {
    0 < |c.parts| <= config.maxFragments && c.totalBytes == TotalOf(c.parts) <= config.maxMessageBytes && Incomplete(c)
  }

  /** Keys are unique, the table is within its bounds, and every context knows
    * the exact number of bytes it holds and still misses a part. */
  predicate TableOk(config: ReassemblerConfig, contexts: seq<Context>) {
    |contexts| <= config.maxContexts && UniqueKeys(contexts)
    && forall i :: 0 <= i < |contexts| ==> ContextOk(config, contexts[i])
  }

  function Lookup(contexts: seq<Context>, key: Key): Option<Context> {
    var i := Find(contexts, key);
    if i < |contexts| then Some(contexts[i]) else None
  }

  lemma LookupAt(contexts: seq<Context>, i: nat)
    requires UniqueKeys(contexts) && i < |contexts|
    ensures Find(contexts, KeyOf(contexts[i].meta)) == i
  {}

  lemma LookupNone(contexts: seq<Context>, key: Key)
    requires forall i :: 0 <= i < |contexts| ==> KeyOf(contexts[i].meta) != key
    ensures Lookup(contexts, key).None?
  {}

  lemma {:induction false} TotalOfFill(parts: seq<Part>, i: nat, payload: seq<byte>)
    requires i < |parts| && parts[i].None?
    ensures TotalOf(parts[i := Some(payload)]) == TotalOf(parts) + |payload|
  {
    var n := |parts| - 1;
    if i == n {
      assert parts[i := Some(payload)][..n] == parts[..n];
    } else {
      assert parts[i := Some(payload)][..n] == parts[..n][i := Some(payload)];
      TotalOfFill(parts[..n], i, payload);
    }
  }

  lemma {:induction false} TotalOfNone(n: nat)
    ensures TotalOf(NoParts(n)) == 0
  {
    if n > 0 {
      assert NoParts(n)[..n - 1] == NoParts(n - 1);
      TotalOfNone(n - 1);
    }
  }

  lemma SwapRemoveLookup(contexts: seq<Context>, i: nat, key: Key)
    requires UniqueKeys(contexts) && i < |contexts|
    ensures UniqueKeys(SwapRemove(contexts, i))
    ensures Lookup(SwapRemove(contexts, i), key)
            == if key == KeyOf(contexts[i].meta) then None else Lookup(contexts, key)
  {
    var r, last := SwapRemove(contexts, i), |contexts| - 1;
    assert forall j :: 0 <= j < |r| ==> r[j] == if j == i then contexts[last] else contexts[j];
    if key == KeyOf(contexts[i].meta) {
      LookupNone(r, key);
    } else {
      var k := Find(contexts, key);
      if k < |contexts| {
        LookupAt(r, if k == last then i else k);
      } else {
        LookupNone(r, key);
      }
    }
  }

  lemma UpdateLookup(contexts: seq<Context>, i: nat, c: Context, key: Key)
    requires UniqueKeys(contexts) && i < |contexts| && KeyOf(c.meta) == KeyOf(contexts[i].meta)
    ensures UniqueKeys(contexts[i := c])
    ensures Lookup(contexts[i := c], key) == if key == KeyOf(c.meta) then Some(c) else Lookup(contexts, key)
  {
    var r := contexts[i := c];
    if key == KeyOf(c.meta) {
      LookupAt(r, i);
    } else {
      var k := Find(contexts, key);
      if k < |contexts| { LookupAt(r, k); } else { LookupNone(r, key); }
    }
  }

  lemma AppendLookup(contexts: seq<Context>, c: Context, key: Key)
    requires UniqueKeys(contexts) && Lookup(contexts, KeyOf(c.meta)).None?
    ensures UniqueKeys(contexts + [c])
    ensures Find(contexts + [c], KeyOf(c.meta)) == |contexts|
    ensures Lookup(contexts + [c], key) == if key == KeyOf(c.meta) then Some(c) else Lookup(contexts, key)
  {
    var r := contexts + [c];
    LookupAt(r, |contexts|);
    if key != KeyOf(c.meta) {
      var k := Find(contexts, key);
      if k < |contexts| { LookupAt(r, k); } else { LookupNone(r, key); }
    }
  }

  // ------------------------------------------------------------- every push

  lemma FreshOk(config: ReassemblerConfig, frame: SparseRadioFrame)
    requires Validate(frame).Ok? && frame.fragmentCount <= config.maxFragments
    ensures ContextOk(config, FreshContext(frame))
  {
    TotalOfNone(frame.fragmentCount);
    assert FreshContext(frame).parts[0].None?;
  }

  lemma StoredKeeps(config: ReassemblerConfig, contexts: seq<Context>, index: nat, frame: SparseRadioFrame, key: Key)
    requires TableOk(config, contexts) && index < |contexts| && frame.fragmentIndex < frame.fragmentCount
    ensures TableOk(config, Stored(config, contexts, index, frame).contexts)
    ensures key != KeyOf(contexts[index].meta) ==>
              Lookup(Stored(config, contexts, index, frame).contexts, key) == Lookup(contexts, key)
    ensures Stored(config, contexts, index, frame).result.Ok?
            && Stored(config, contexts, index, frame).result.value.Some? ==>
              contexts[index].meta == MetaOf(frame)
              && Stored(config, contexts, index, frame).contexts == SwapRemove(contexts, index)
  {
    hide TotalOf, Lookup, Concat, Find;
    var c := contexts[index];
    if c.meta == MetaOf(frame) && |c.parts| == frame.fragmentCount && c.parts[frame.fragmentIndex].None?
       && c.totalBytes + |frame.payload| <= config.maxMessageBytes {
      var filled := Fill(c, frame.fragmentIndex, frame.payload);
      TotalOfFill(c.parts, frame.fragmentIndex, frame.payload);
      if Incomplete(filled) {
        UpdateLookup(contexts, index, filled, key);
      } else {
        SwapRemoveLookup(contexts, index, key);
        var r := SwapRemove(contexts, index);
        assert forall j :: 0 <= j < |r| ==> r[j] == if j == index then contexts[|contexts| - 1] else contexts[j];
      }
    }
  }

  /** Every push keeps the table in order and leaves all other messages alone. */
  lemma PushKeeps(config: ReassemblerConfig, contexts: seq<Context>, frame: SparseRadioFrame, key: Key)
    requires TableOk(config, contexts)
    ensures TableOk(config, Pushed(config, contexts, frame).contexts)
    ensures key != KeyOf(MetaOf(frame)) ==>
              Lookup(Pushed(config, contexts, frame).contexts, key) == Lookup(contexts, key)
  {
    hide Stored, Lookup, ContextOk, FreshContext;
    if Validate(frame).Ok? && frame.fragmentCount <= config.maxFragments {
      var index := Find(contexts, KeyOf(MetaOf(frame)));
      if index < |contexts| {
        StoredKeeps(config, contexts, index, frame, key);
      } else if |contexts| < config.maxContexts {
        var c := FreshContext(frame);
        FreshOk(config, frame);
        assert c.meta == MetaOf(frame) by { FreshMeta(frame); }
        assert Lookup(contexts, KeyOf(c.meta)).None? by { LookupNone(contexts, KeyOf(c.meta)); }
        AppendLookup(contexts, c, key);
        StoredKeeps(config, contexts + [c], index, frame, key);
      }
    }
  }

  lemma FreshMeta(frame: SparseRadioFrame)
    ensures FreshContext(frame).meta == MetaOf(frame) && FreshContext(frame).parts == NoParts(frame.fragmentCount)
  {}

  // ---------------------------------------------------- delivery of a message

  /** The table holds exactly the fragments of one message that `seen` names. */
  predicate Holds(contexts: seq<Context>, frames: seq<SparseRadioFrame>, seen: set<nat>)
    requires frames != []
  {
    var c := Lookup(contexts, KeyOf(MetaOf(frames[0])));
    if seen == {} then c.None?
    else c.Some? && c.value.meta == MetaOf(frames[0]) && c.value.parts == SeenParts(frames, seen)
  }

  function SeenParts(frames: seq<SparseRadioFrame>, seen: set<nat>): (parts: seq<Part>)
    ensures |parts| == |frames|
  {
    seq(|frames|, i requires 0 <= i < |frames| => if i in seen then Some(frames[i].payload) else None)
  }

  function AllOf(n: nat): (s: set<nat>)
    ensures forall i: nat :: i in s <==> i < n
  {
    if n == 0 then {} else AllOf(n - 1) + {n - 1}
  }

  lemma {:induction false} SeenTotal(frames: seq<SparseRadioFrame>, parts: seq<Part>)
    requires |parts| == |frames|
    requires forall i :: 0 <= i < |parts| ==> parts[i] == None || parts[i] == Some(frames[i].payload)
    ensures TotalOf(parts) <= |Payloads(frames)|
  {
    if parts != [] { SeenTotal(frames[..|frames| - 1], parts[..|parts| - 1]); }
  }

  function Payloads(frames: seq<SparseRadioFrame>): seq<byte> {
    if frames == [] then [] else Payloads(frames[..|frames| - 1]) + frames[|frames| - 1].payload
  }

  lemma NextChunk(message: seq<byte>, capacity: nat, i: nat)
    requires capacity > 0 && i * capacity < |message|
    ensures message[..Least((i + 1) * capacity, |message|)] == message[..i * capacity] + Chunk(message, capacity, i)
  {
    assert (i + 1) * capacity == i * capacity + capacity;
  }

  /** The chunks put together are the message. */
  lemma {:induction false} ChunksJoin(frames: seq<SparseRadioFrame>, meta: Meta, message: seq<byte>, capacity: nat,
      k: nat, count: nat)
    requires capacity > 0 && message != []
    requires k == |frames| <= count && count == FragmentCount(message, capacity) <= MAX_FRAGMENTS
    requires forall i :: 0 <= i < k ==> IsFragment(frames[i], meta, message, capacity, i, count)
    ensures Payloads(frames) == message[..Least(k * capacity, |message|)]
  {
    hide DivCeil;
    if k > 0 {
      var last := frames[k - 1];
      assert IsFragment(last, meta, message, capacity, k - 1, count);
      hide IsFragment;
      ChunksJoin(frames[..k - 1], meta, message, capacity, k - 1, count);
      ChunkIndexInside(|message|, capacity, k - 1);
      NextChunk(message, capacity, k - 1);
    }
  }

  lemma ZeroChunks(n: nat, capacity: nat)
    ensures n == 0 ==> n * capacity == 0
  {}

  lemma {:induction false} CarriedPayloads(frames: seq<SparseRadioFrame>, meta: Meta, message: seq<byte>, capacity: nat)
    requires Carries(frames, meta, message, capacity)
    ensures frames != [] && Payloads(frames) == message && MetaOf(frames[0]) == meta
    ensures forall i :: 0 <= i < |frames| ==>
              MetaOf(frames[i]) == meta && frames[i].fragmentIndex == i && frames[i].fragmentCount == |frames|
  {
    hide DivCeil;
    if message == [] {
      assert frames[..0] == [];
    } else {
      ChunkCountCovers(|message|, capacity);
      ZeroChunks(|frames|, capacity);
      ChunksJoin(frames, meta, message, capacity, |frames|, |frames|);
      assert message[..|message|] == message;
    }
  }

  lemma {:induction false} FullConcat(frames: seq<SparseRadioFrame>, parts: seq<Part>)
    requires |parts| == |frames|
    requires forall i :: 0 <= i < |parts| ==> parts[i] == Some(frames[i].payload)
    ensures Concat(parts) == Payloads(frames)
  {
    if parts != [] { FullConcat(frames[..|frames| - 1], parts[..|parts| - 1]); }
  }

  /** The table has room for the message: a free context if it has none yet,
    * and limits it respects. */
  predicate Fits(config: ReassemblerConfig, contexts: seq<Context>, frames: seq<SparseRadioFrame>, seen: set<nat>) {
    |frames| <= config.maxFragments && |Payloads(frames)| <= config.maxMessageBytes
    && (seen == {} ==> |contexts| < config.maxContexts)
  }

  /** One fragment arrives.  Unless it is the last one missing the push returns
    * nothing and the table holds one fragment more; a repeat changes nothing;
    * the last one returns the message and frees the context. */
  lemma {:induction false} FragmentArrives(
      config: ReassemblerConfig, contexts: seq<Context>, frames: seq<SparseRadioFrame>, meta: Meta,
      message: seq<byte>, capacity: nat, seen: set<nat>, i: nat)
    requires Carries(frames, meta, message, capacity) && frames != [] && i < |frames| && Valid(frames[i])
    requires TableOk(config, contexts) && Holds(contexts, frames, seen) && Fits(config, contexts, frames, seen)
    requires seen < AllOf(|frames|)
    ensures var o := Pushed(config, contexts, frames[i]);
            if seen + {i} == AllOf(|frames|)
            then o.result == Ok(Some(ReassembledMessage(meta, message))) && Holds(o.contexts, frames, {})
            else o.result == Ok(None) && Holds(o.contexts, frames, seen + {i})
  {
    hide DivCeil, IsFragment, TotalOf, Concat, Payloads, Find, ContextOk, Stored;
    CarriedPayloads(frames, meta, message, capacity);
    var key := KeyOf(meta);
    if seen == {} {
      var c := FreshContext(frames[i]);
      FreshMeta(frames[i]);
      FreshOk(config, frames[i]);
      AppendLookup(contexts, c, key);
      assert c.parts == SeenParts(frames, {});
      FragmentStored(config, contexts + [c], frames, meta, message, seen, |contexts|, i);
    } else {
      FragmentStored(config, contexts, frames, meta, message, seen, Find(contexts, key), i);
    }
  }

  lemma {:induction false} FragmentStored(
      config: ReassemblerConfig, contexts: seq<Context>, frames: seq<SparseRadioFrame>, meta: Meta,
      message: seq<byte>, seen: set<nat>, index: nat, i: nat)
    requires TableOk(config, contexts) && index < |contexts| && i < |frames|
    requires forall j :: 0 <= j < |frames| ==>
               MetaOf(frames[j]) == meta && frames[j].fragmentIndex == j && frames[j].fragmentCount == |frames|
    requires Payloads(frames) == message && |message| <= config.maxMessageBytes && seen < AllOf(|frames|)
    requires contexts[index].meta == meta && contexts[index].parts == SeenParts(frames, seen)
    ensures var o := Stored(config, contexts, index, frames[i]);
            if seen + {i} == AllOf(|frames|)
            then o.result == Ok(Some(ReassembledMessage(meta, message))) && Holds(o.contexts, frames, {})
            else o.result == Ok(None) && Holds(o.contexts, frames, seen + {i})
  {
    hide TotalOf, Concat, Payloads, Find, Lookup;
    var c := contexts[index];
    assert ContextOk(config, c);
    LookupIndex(contexts, index, KeyOf(meta));
    if i in seen {
      assert seen + {i} == seen;
    } else {
      var filled := Fill(c, i, frames[i].payload);
      assert filled.parts == SeenParts(frames, seen + {i});
      TotalOfFill(c.parts, i, frames[i].payload);
      SeenTotal(frames, filled.parts);
      if seen + {i} == AllOf(|frames|) {
        FullConcat(frames, filled.parts);
        assert !Incomplete(filled);
        SwapRemoveLookup(contexts, index, KeyOf(meta));
      } else {
        var j :| j in AllOf(|frames|) && j !in seen + {i};
        assert filled.parts[j].None?;
        UpdateLookup(contexts, index, filled, KeyOf(meta));
      }
    }
  }

  lemma LookupIndex(contexts: seq<Context>, index: nat, key: Key)
    requires UniqueKeys(contexts) && index < |contexts| && KeyOf(contexts[index].meta) == key
    ensures Lookup(contexts, key) == Some(contexts[index])
  {
    LookupAt(contexts, index);
  }

  // ----------------------------------------------------------------- every run

  /** The table after a list of frames. */
  function TableAfter(config: ReassemblerConfig, arrivals: seq<SparseRadioFrame>): seq<Context> {
    if arrivals == [] then []
    else Pushed(config, TableAfter(config, arrivals[..|arrivals| - 1]), arrivals[|arrivals| - 1]).contexts
  }

  /** What the last push of the list returned. */
  function LastResult(config: ReassemblerConfig, arrivals: seq<SparseRadioFrame>): Result<Option<ReassembledMessage>>
    requires arrivals != []
  {
    Pushed(config, TableAfter(config, arrivals[..|arrivals| - 1]), arrivals[|arrivals| - 1]).result
  }

  predicate Mine(frame: SparseRadioFrame, key: Key) { KeyOf(MetaOf(frame)) == key }

  /** Indices of the message's fragments among the arrivals. */
  function Seen(arrivals: seq<SparseRadioFrame>, key: Key): set<nat> {
    if arrivals == [] then {}
    else
      var before, f := Seen(arrivals[..|arrivals| - 1], key), arrivals[|arrivals| - 1];
      if Mine(f, key) then before + {f.fragmentIndex as nat} else before
  }

  /** Arrivals in which every frame under the message's key is one of its own
    * fragments, in any order and any number of times, among any other frames;
    * and the table had room when the first of them came. */
  ghost predicate Exchange(config: ReassemblerConfig, arrivals: seq<SparseRadioFrame>,
      frames: seq<SparseRadioFrame>, key: Key) {
    forall n :: 0 <= n < |arrivals| && Mine(arrivals[n], key) ==>
      arrivals[n] in frames && Fits(config, TableAfter(config, arrivals[..n]), frames, Seen(arrivals[..n], key))
  }

  lemma {:induction false} TableAfterOk(config: ReassemblerConfig, arrivals: seq<SparseRadioFrame>)
    ensures TableOk(config, TableAfter(config, arrivals))
  {
    hide Pushed, TableOk;
    if arrivals == [] {
      assert TableOk(config, []) by { EmptyTable(config); }
    } else {
      TableAfterOk(config, arrivals[..|arrivals| - 1]);
      PushKeeps(config, TableAfter(config, arrivals[..|arrivals| - 1]), arrivals[|arrivals| - 1], (0, 0));
    }
  }

  lemma EmptyTable(config: ReassemblerConfig)
    ensures TableOk(config, [])
  {}

  lemma ExchangePrefix(config: ReassemblerConfig, arrivals: seq<SparseRadioFrame>, frames: seq<SparseRadioFrame>,
      key: Key, k: nat)
    requires Exchange(config, arrivals, frames, key) && k <= |arrivals|
    ensures Exchange(config, arrivals[..k], frames, key)
  {
    hide Fits, TableAfter, Seen, Mine;
    forall n | 0 <= n < k && Mine(arrivals[..k][n], key)
      ensures arrivals[..k][n] in frames
      ensures Fits(config, TableAfter(config, arrivals[..k][..n]), frames, Seen(arrivals[..k][..n], key))
    {
      assert arrivals[..k][..n] == arrivals[..n] && arrivals[..k][n] == arrivals[n];
    }
  }

  /** As long as a fragment is missing, the table holds exactly those that have
    * arrived. */
  lemma {:induction false} RunHolds(
      config: ReassemblerConfig, arrivals: seq<SparseRadioFrame>, frames: seq<SparseRadioFrame>, meta: Meta,
      message: seq<byte>, capacity: nat)
    requires Carries(frames, meta, message, capacity) && frames != []
    requires forall i :: 0 <= i < |frames| ==> Valid(frames[i])
    requires Exchange(config, arrivals, frames, KeyOf(meta))
    requires Seen(arrivals, KeyOf(meta)) < AllOf(|frames|)
    ensures Holds(TableAfter(config, arrivals), frames, Seen(arrivals, KeyOf(meta)))
  {
    hide Carries, Valid, Pushed, Fits, TableOk, Payloads, Find;
    CarriedPayloads(frames, meta, message, capacity);
    if arrivals == [] {
    } else {
      var n := |arrivals| - 1;
      var before, f := arrivals[..n], arrivals[n];
      ExchangePrefix(config, arrivals, frames, KeyOf(meta), n);
      RunHolds(config, before, frames, meta, message, capacity);
      TableAfterOk(config, before);
      if Mine(f, KeyOf(meta)) {
        var i :| 0 <= i < |frames| && frames[i] == f;
        FragmentArrives(config, TableAfter(config, before), frames, meta, message, capacity,
            Seen(before, KeyOf(meta)), i);
      } else {
        PushKeeps(config, TableAfter(config, before), f, KeyOf(meta));
      }
    }
  }

  /** However the fragments of a message arrive -- reordered, repeated, mixed
    * with other messages -- every push of one returns nothing until the last
    * missing fragment comes, and that push returns exactly the message. */
  lemma DeliveredOnLastFragment(
      config: ReassemblerConfig, arrivals: seq<SparseRadioFrame>, frames: seq<SparseRadioFrame>, meta: Meta,
      message: seq<byte>, capacity: nat)
    requires Carries(frames, meta, message, capacity) && frames != []
    requires forall i :: 0 <= i < |frames| ==> Valid(frames[i])
    requires Exchange(config, arrivals, frames, KeyOf(meta))
    requires arrivals != [] && Mine(arrivals[|arrivals| - 1], KeyOf(meta))
    requires Seen(arrivals[..|arrivals| - 1], KeyOf(meta)) < AllOf(|frames|)
    ensures LastResult(config, arrivals) == if Seen(arrivals, KeyOf(meta)) == AllOf(|frames|)
                                            then Ok(Some(ReassembledMessage(meta, message))) else Ok(None)
    ensures Seen(arrivals, KeyOf(meta)) == AllOf(|frames|) ==> Lookup(TableAfter(config, arrivals), KeyOf(meta)).None?
  {
    hide Carries, Valid, Pushed, Fits, TableOk, Payloads, Find;
    CarriedPayloads(frames, meta, message, capacity);
    var n := |arrivals| - 1;
    var before, f := arrivals[..n], arrivals[n];
    ExchangePrefix(config, arrivals, frames, KeyOf(meta), n);
    RunHolds(config, before, frames, meta, message, capacity);
    TableAfterOk(config, before);
    var i :| 0 <= i < |frames| && frames[i] == f;
    FragmentArrives(config, TableAfter(config, before), frames, meta, message, capacity, Seen(before, KeyOf(meta)), i);
  }

  // ------------------------------------------------------- what may be sent and stored

  /** The messages that can be cut: at most 32 payloads of what the unit leaves
    * beside a header and a checksum. */
  lemma FragmentableIff(message: seq<byte>, frameMtu: nat)
    ensures FragmentError(message, frameMtu).Ok?
       <==> 16 <= frameMtu <= 256 && (message == [] || |message| <= 32 * (frameMtu - 16))
  {
    if 16 < frameMtu <= 256 { CountAtMost(|message|, frameMtu - 16); }
  }

  /** Which error the others get. */
  lemma FragmentRefusedBecause(message: seq<byte>, frameMtu: nat)
    requires FragmentError(message, frameMtu).Err?
    ensures FragmentError(message, frameMtu).error
         == if frameMtu < 16 || frameMtu > 256 || (frameMtu == 16 && |message| <= 7680) then InvalidLength
            else LimitExceeded
  {}

  /** A table is made for at least one message, of 1 to 32 fragments and 1 to 7680
    * bytes. */
  lemma ConfigOkIff(c: ReassemblerConfig)
    ensures ConfigOk(c) <==> c.maxContexts >= 1 && 1 <= c.maxMessageBytes <= 7680 && 1 <= c.maxFragments <= 32
  {}

  lemma CountAtMost(n: nat, capacity: nat)
    requires 0 < capacity <= 240
    ensures DivCeil(n, capacity) <= 32 <==> n <= 32 * capacity
    ensures n <= 32 * capacity ==> n <= 7680
  {
    DivCeilBounds(n, capacity);
    hide DivCeil;
    var q := DivCeil(n, capacity);
    if q <= 32 { Scaled(q, 32, capacity); } else { Scaled(32, q - 1, capacity); }
    if n == 0 { NoneNeeded(capacity); }
  }

  lemma NoneNeeded(capacity: nat)
    requires capacity > 0
    ensures DivCeil(0, capacity) == 0
  {}

  /** What a push of a valid frame answers, by what the table holds of its message:
    * another message's place is never touched, a part already held is compared,
    * and whatever is refused leaves the held parts alone. */
  lemma PushAnswers(config: ReassemblerConfig, contexts: seq<Context>, f: SparseRadioFrame)
    requires TableOk(config, contexts) && Valid(f) && f.fragmentCount <= config.maxFragments
    ensures var o, c := Pushed(config, contexts, f), Lookup(contexts, KeyOf(MetaOf(f)));
            match c
            case None => o.result == Err(ReassemblyFull) <==> |contexts| == config.maxContexts
            case Some(held) =>
              if held.meta != MetaOf(f) || |held.parts| != f.fragmentCount then
                o == PushOutcome(contexts, Err(FragmentConflict))
              else if held.parts[f.fragmentIndex].Some? then
                o == PushOutcome(contexts, if held.parts[f.fragmentIndex] == Some(f.payload) then Ok(None)
                                           else Err(FragmentConflict))
              else if TotalOf(held.parts) + |f.payload| > config.maxMessageBytes then
                o == PushOutcome(contexts, Err(LimitExceeded))
              else o.result.Ok? && (o.result.value.Some? <==> OnlyMissing(held.parts, f.fragmentIndex))
  {
    hide TotalOf, Concat, UniqueKeys;
    var index := Find(contexts, KeyOf(MetaOf(f)));
    if index < |contexts| {
      var held := contexts[index];
      assert ContextOk(config, held);
      if |held.parts| == f.fragmentCount && held.parts[f.fragmentIndex].None? {
        LastMissing(held, f.fragmentIndex, f.payload);
      }
    }
  }

  lemma LastMissing(c: Context, i: nat, payload: seq<byte>)
    requires i < |c.parts|
    ensures Incomplete(Fill(c, i, payload)) <==> !OnlyMissing(c.parts, i)
  {
    var parts := Fill(c, i, payload).parts;
    if Incomplete(Fill(c, i, payload)) {
      var j :| 0 <= j < |parts| && parts[j].None?;
      assert c.parts[j].None? && j != i;
    }
    if !OnlyMissing(c.parts, i) {
      var j :| 0 <= j < |c.parts| && j != i && !c.parts[j].Some?;
      assert parts[j].None?;
    }
  }

  /** Every part but one is held. */
  predicate OnlyMissing(parts: seq<Part>, i: nat) {
    forall j :: 0 <= j < |parts| && j != i ==> parts[j].Some?
  }
}
