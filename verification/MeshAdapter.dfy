/** Messages over the Meshtastic device API: fragmented, wrapped and framed. */
module MeshAdapter {
  import opened Words
  import opened MeshErrors
  import opened MeshFraming
  import opened MeshData
  import AirErrors
  import Protobuf
  import Wire
  import Fragments

  const MESHTASTIC_FRAME_MTU := 227
  const CAPACITY := 211

  type Frame = Wire.SparseRadioFrame
  type Received = Fragments.ReassembledMessage
  type Table = seq<Fragments.Context>

  datatype Outgoing = Outgoing(
    flags: byte, streamId: u16, sequence: u16, class_: Wire.SemanticClass, priority: byte, stateTag: u16,
        message: Bytes)

  function MetaFor(o: Outgoing): Fragments.Meta {
    Fragments.Meta(Wire.Meshtastic, o.flags, o.streamId, o.sequence, o.class_, o.priority, o.stateTag)
  }

  // ----- sending -----------------------------------------------------------------------

  function PacketBody(destination: u32, f: Frame): (body: Bytes)
    requires Wire.Valid(f)
  {
    ToRadio(destination, PRIVATE_APP_PORTNUM, Wire.Encoded(f))
  }

  lemma PacketFits(destination: u32, f: Frame)
    requires Wire.Valid(f)
    ensures |Wire.Encoded(f)| <= 256 && |PacketBody(destination, f)| <= 279 <= MAX_DEVICE_API_FRAME_LEN
  {
    hide Wire.Encoded, ToRadio;
    DataSizes(destination, PRIVATE_APP_PORTNUM, Wire.Encoded(f));
  }

  lemma FragmentIsValid(f: Frame, meta: Fragments.Meta, message: Bytes, i: nat, count: nat)
    requires Fragments.IsFragment(f, meta, message, CAPACITY, i, count)
    ensures Wire.Valid(f) <==> meta.priority <= 15 && meta.flags % 16 == 0
    ensures |f.payload| <= CAPACITY
  {
    assert (i + 1) * CAPACITY == i * CAPACITY + CAPACITY;
  }

  method EncodeOnePacket(destination: u32, f: Frame) returns (r: Result<Bytes>)
    ensures r.Ok? <==> Wire.Valid(f)
    ensures r.Ok? ==>
              |PacketBody(destination, f)| <= MAX_DEVICE_API_FRAME_LEN && r.value == Framed(PacketBody(destination, f))
    ensures r.Err? ==> r.error.Air?
  {
    hide Wire.Encoded, ToRadio, Framed, Wire.Validate;
    var air := Wire.Encode(f);
    if air.Err? { return Err(Air(air.error)); }
    PacketFits(destination, f);
    var toRadio := EncodeToRadioData(destination, PRIVATE_APP_PORTNUM, air.value);
    var ok, framed := WriteFrame([], toRadio);
    r := Err(FrameTooLarge);
    if !ok { return; }
    assert [] + Framed(toRadio) == Framed(toRadio);
    return Ok(framed);
  }

  /** The packet carries the frame. */
  ghost predicate Carries(packet: Bytes, destination: u32, f: Frame) {
    Wire.Valid(f) && |PacketBody(destination, f)| <= MAX_DEVICE_API_FRAME_LEN
    && packet == Framed(PacketBody(destination, f))
    && |Data(PRIVATE_APP_PORTNUM, Wire.Encoded(f))| <= 233
  }

  lemma FragmentFitsMesh(f: Frame)
    requires Wire.Valid(f) && |f.payload| <= CAPACITY
    ensures |Data(PRIVATE_APP_PORTNUM, Wire.Encoded(f))| <= 233
  {
    hide Wire.Encoded, Data;
    DataFitsMesh(Wire.Encoded(f));
  }

  predicate Acceptable(o: Outgoing) {
    Fragments.FragmentError(o.message, MESHTASTIC_FRAME_MTU).Ok? && o.priority <= 15 && o.flags % 16 == 0
  }

  /** One packet for each fragment.  The size check of the framing never fails,
    * and every Data message fits the mesh. */
  method EncodeMessage(destination: u32, o: Outgoing) returns (r: Result<seq<Bytes>>, ghost frames: seq<Frame>)
    ensures r.Ok? <==> Acceptable(o)
    ensures r.Err? ==> r.error.Air?
    ensures r.Ok? ==> Fragments.Carries(frames, MetaFor(o), o.message, CAPACITY) && frames != []
    ensures r.Ok? ==>
              |r.value| == |frames| && forall i :: 0 <= i < |frames| ==> Carries(r.value[i], destination, frames[i])
  {
    hide Wire.Valid, Wire.Encoded, Framed, Data, Fragments.FragmentError, Fragments.FragmentCount;
    hide Fragments.IsFragment, PacketBody;
    frames := [];
    var cut := Fragments.FragmentMessage(MetaFor(o), o.message, MESHTASTIC_FRAME_MTU);
    if cut.Err? { return Err(Air(cut.error)), []; }
    frames := cut.value;
    HasFragment(o.message);
    var packets: seq<Bytes> := [];
    for i := 0 to |cut.value|
      invariant |packets| == i
      invariant i > 0 ==> o.priority <= 15 && o.flags % 16 == 0
      invariant forall j :: 0 <= j < i ==> Carries(packets[j], destination, frames[j])
    {
      FragmentIsValid(frames[i], MetaFor(o), o.message, i, |frames|);
      var packet := EncodeOnePacket(destination, cut.value[i]);
      if packet.Err? { return Err(packet.error), frames; }
      FragmentFitsMesh(frames[i]);
      packets := packets + [packet.value];
    }
    return Ok(packets), frames;
  }

  lemma HasFragment(message: Bytes)
    ensures Fragments.FragmentCount(message, CAPACITY) > 0
  {}

  // ----- receiving -----------------------------------------------------------------------

  datatype Ingest = Ingest(table: Table, result: Result<Option<Received>>)

  /** One FromRadio body. */
  function Ingested(config: Fragments.ReassemblerConfig, table: Table, body: Bytes): Ingest {
    var received := DecodedFromRadio(body);
    if received.Err? then Ingest(table, Err(received.error))
    else if received.value.None? || received.value.value.portnum != PRIVATE_APP_PORTNUM then
      Ingest(table, Ok(AirErrors.None))
    else
      var frame := Wire.Decode(received.value.value.payload);
      if frame.Err? then Ingest(table, Err(Air(frame.error)))
      else
        var p := Fragments.Pushed(config, table, frame.value);
        Ingest(p.contexts, if p.result.Err? then Err(Air(p.result.error)) else Ok(p.result.value))
  }

  datatype Batch = Batch(table: Table, messages: seq<Received>, error: Option<Error>)

  /** Bodies in order, up to the first error. */
  function IngestBodies(config: Fragments.ReassemblerConfig, b: Batch, bodies: seq<Bytes>): Batch
    decreases |bodies|
  {
    if bodies == [] || b.error.Some? then b
    else IngestBodies(config, Next(config, b, bodies[0]), bodies[1..])
  }

  function Next(config: Fragments.ReassemblerConfig, b: Batch, body: Bytes): Batch {
    var o := Ingested(config, b.table, body);
    if o.result.Err? then Batch(o.table, b.messages, AirErrors.Some(o.result.error))
    else
      Batch(o.table, if o.result.value.Some? then b.messages + [o.result.value.value] else b.messages, AirErrors.None)
  }

  /** The streaming receiver's state. */
  datatype StreamState = StreamState(decoder: Decoder, table: Table, ready: seq<Received>)

  datatype Pushed = Pushed(after: StreamState, error: Option<Error>)

  /** Drains the decoder; bodies behind an error stay in it. */
  function Drained(config: Fragments.ReassemblerConfig, s: StreamState): Pushed
    decreases |s.decoder.ready|
  {
    if s.decoder.ready == [] then Pushed(s, AirErrors.None)
    else
      var b := Next(config, Batch(s.table, s.ready, AirErrors.None), s.decoder.ready[0]);
      var after := StreamState(s.decoder.(ready := s.decoder.ready[1..]), b.table, b.messages);
      if b.error.Some? then Pushed(after, b.error) else Drained(config, after)
  }

  function PushedChunk(config: Fragments.ReassemblerConfig, s: StreamState, chunk: Bytes): Pushed {
    Drained(config, s.(decoder := PushAll(s.decoder, chunk)))
  }

  class StreamingReceiver {
    const reassembler: Fragments.Reassembler
    const decoder: FrameDecoder
    var ready: seq<Received>

    function View(): StreamState
      reads this, reassembler, decoder
    {
      StreamState(decoder.View(), reassembler.contexts, ready)
    }

    constructor (config: Fragments.ReassemblerConfig)
      requires Fragments.ConfigOk(config)
      ensures fresh(reassembler) && fresh(decoder) && decoder.Valid() && reassembler.config == config
      ensures View() == StreamState(NEW, [], [])
    {
      reassembler := new Fragments.Reassembler(config);
      decoder := new FrameDecoder();
      ready := [];
    }

    method IngestFromRadio(body: Bytes) returns (r: Result<Option<Received>>)
      modifies reassembler
      ensures Ingest(reassembler.contexts, r) == Ingested(reassembler.config, old(reassembler.contexts), body)
    {
      hide DecodedFromRadio, Wire.Decode, Fragments.Pushed;
      var received :- DecodeFromRadio(body);
      if received.None? { return Ok(AirErrors.None); }
      if received.value.portnum != PRIVATE_APP_PORTNUM { return Ok(AirErrors.None); }
      var frame := Wire.Decode(received.value.payload);
      if frame.Err? { return Err(Air(frame.error)); }
      var pushed := reassembler.Push(frame.value);
      if pushed.Err? { return Err(Air(pushed.error)); }
      return Ok(pushed.value);
    }

    method Push(chunk: Bytes) returns (error: Option<Error>)
      requires decoder.Valid()
      modifies this, reassembler, decoder
      ensures decoder.Valid()
      ensures Pushed(View(), error) == PushedChunk(reassembler.config, old(View()), chunk)
    {
      hide Ingested, PushAll, Reading;
      decoder.Push(chunk);
      error := AirErrors.None;
      ghost var config, start := reassembler.config, View();
      while decoder.ready != []
        invariant decoder.Valid() && Drained(config, start) == Drained(config, View())
        decreases |decoder.ready|
      {
        var body := decoder.Pull();
        var message := IngestFromRadio(body.value);
        if message.Err? { return AirErrors.Some(message.error); }
        if message.value.Some? { ready := ready + [message.value.value]; }
      }
    }

    method NextMessage() returns (r: Option<Received>)
      modifies this`ready
      ensures if old(ready) == [] then r.None? && ready == []
              else r == AirErrors.Some(old(ready)[0]) && ready == old(ready)[1..]
    {
      if ready == [] { return AirErrors.None; }
      r := AirErrors.Some(ready[0]);
      ready := ready[1..];
    }
  }

  // ----- chunking -------------------------------------------------------------------------

  lemma {:induction false} BodiesJoin(config: Fragments.ReassemblerConfig, b: Batch, xs: seq<Bytes>, ys: seq<Bytes>)
    ensures IngestBodies(config, b, xs + ys) == IngestBodies(config, IngestBodies(config, b, xs), ys)
    decreases |xs|
  {
    hide Next;
    if xs == [] {
      assert xs + ys == ys;
    } else if b.error.None? {
      assert (xs + ys)[1..] == xs[1..] + ys;
      BodiesJoin(config, Next(config, b, xs[0]), xs[1..], ys);
    }
  }

  lemma {:induction false} ErrorStays(config: Fragments.ReassemblerConfig, b: Batch, bodies: seq<Bytes>)
    requires b.error.Some?
    ensures IngestBodies(config, b, bodies) == b
  {}

  /** Without an error draining empties the decoder and ingests its bodies. */
  lemma {:induction false} DrainIngests(config: Fragments.ReassemblerConfig, s: StreamState)
    requires IngestBodies(config, Batch(s.table, s.ready, AirErrors.None), s.decoder.ready).error.None?
    ensures var b := IngestBodies(config, Batch(s.table, s.ready, AirErrors.None), s.decoder.ready);
            Drained(config, s) == Pushed(StreamState(s.decoder.(ready := []), b.table, b.messages), AirErrors.None)
    decreases |s.decoder.ready|
  {
    hide Next;
    if s.decoder.ready != [] {
      var b := Next(config, Batch(s.table, s.ready, AirErrors.None), s.decoder.ready[0]);
      if b.error.Some? {
        ErrorStays(config, b, s.decoder.ready[1..]);
      } else {
        DrainIngests(config, StreamState(s.decoder.(ready := s.decoder.ready[1..]), b.table, b.messages));
      }
    }
  }

  /** Frames waiting in the decoder do not matter to the ones after them. */
  lemma {:induction false} PushBehind(d: Decoder, waiting: seq<Bytes>, s: Bytes)
    ensures PushAll(d.(ready := waiting + d.ready), s) == PushAll(d, s).(ready := waiting + PushAll(d, s).ready)
    decreases |s|
  {
    if s != [] {
      ByteBehind(d, waiting, s[0]);
      PushBehind(PushByte(d, s[0]), waiting, s[1..]);
    }
  }

  lemma ByteBehind(d: Decoder, waiting: seq<Bytes>, b: byte)
    ensures PushByte(d.(ready := waiting + d.ready), b) == PushByte(d, b).(ready := waiting + PushByte(d, b).ready)
  {
    assert forall x: Bytes :: waiting + d.ready + [x] == waiting + (d.ready + [x]);
  }

  function Flat(chunks: seq<Bytes>): Bytes {
    if chunks == [] then [] else Flat(chunks[..|chunks| - 1]) + chunks[|chunks| - 1]
  }

  /** The receiver fed chunk by chunk, up to an error. */
  function PushedChunks(config: Fragments.ReassemblerConfig, chunks: seq<Bytes>): Pushed {
    if chunks == [] then Pushed(StreamState(NEW, [], []), AirErrors.None)
    else
      var before := PushedChunks(config, chunks[..|chunks| - 1]);
      if before.error.Some? then before else PushedChunk(config, before.after, chunks[|chunks| - 1])
  }

  const START := Batch([], [], AirErrors.None)

  lemma NothingIngested(config: Fragments.ReassemblerConfig)
    ensures PushAll(NEW, []) == NEW && IngestBodies(config, START, []) == START
  {}

  // ----- past errors ------------------------------------------------------------------------

  /** Every body ingested in order, errors noted and passed over. */
  datatype Tally = Tally(table: Table, messages: seq<Received>, errors: seq<Error>)

  function IngestEach(config: Fragments.ReassemblerConfig, bodies: seq<Bytes>): Tally {
    if bodies == [] then Tally([], [], [])
    else Counted(config, IngestEach(config, bodies[..|bodies| - 1]), bodies[|bodies| - 1])
  }

  function Counted(config: Fragments.ReassemblerConfig, t: Tally, body: Bytes): Tally {
    var b := Next(config, Batch(t.table, t.messages, AirErrors.None), body);
    Tally(b.table, b.messages, if b.error.Some? then t.errors + [b.error.value] else t.errors)
  }

  datatype Run = Run(state: StreamState, errors: seq<Error>)

  /** The receiver fed chunk by chunk, and fed on after an error. */
  function PushedOn(config: Fragments.ReassemblerConfig, chunks: seq<Bytes>): Run {
    if chunks == [] then Run(StreamState(NEW, [], []), [])
    else
      var before := PushedOn(config, chunks[..|chunks| - 1]);
      var p := PushedChunk(config, before.state, chunks[|chunks| - 1]);
      Run(p.after, if p.error.Some? then before.errors + [p.error.value] else before.errors)
  }

  /** After `n` of the bodies the receiver has what ingesting them gives, and the
    * others are queued. */
  predicate IngestedUpTo(config: Fragments.ReassemblerConfig, bodies: seq<Bytes>, n: nat, s: StreamState,
      errors: seq<Error>) {
    n <= |bodies| && s.decoder.ready == bodies[n..]
        && IngestEach(config, bodies[..n]) == Tally(s.table, s.ready, errors)
  }

  /** Draining goes on to the next error, or to the end of the queue. */
  lemma {:induction false} DrainsTo(config: Fragments.ReassemblerConfig, bodies: seq<Bytes>, n: nat, s: StreamState,
                                    errors: seq<Error>) returns (m: nat)
    requires IngestedUpTo(config, bodies, n, s, errors)
    ensures var p := Drained(config, s);
            && IngestedUpTo(config, bodies, m, p.after, if p.error.Some? then errors + [p.error.value] else errors)
            && p.after.decoder == s.decoder.(ready := bodies[m..])
            && (p.error.None? ==> m == |bodies|)
    decreases |s.decoder.ready|
  {
    hide Next;
    m := n;
    if s.decoder.ready != [] {
      assert s.decoder.ready[0] == bodies[n] && s.decoder.ready[1..] == bodies[n + 1..];
      assert bodies[..n + 1][..n] == bodies[..n];
      var b := Next(config, Batch(s.table, s.ready, AirErrors.None), bodies[n]);
      var after := StreamState(s.decoder.(ready := s.decoder.ready[1..]), b.table, b.messages);
      m := n + 1;
      if b.error.None? { m := DrainsTo(config, bodies, n + 1, after, errors); }
    }
  }

  /** However the stream is cut and whatever goes wrong on the way: the receiver
    * has ingested the bodies of the whole stream in order up to some point, each
    * error was returned by one push, and the bodies behind the last are queued,
    * to be ingested by the next push.  After a push without an error none is. */
  lemma {:induction false} PushesIngestReads(config: Fragments.ReassemblerConfig, chunks: seq<Bytes>) returns (n: nat)
    ensures var bodies, r := ReadAll(Flat(chunks)), PushedOn(config, chunks);
            && IngestedUpTo(config, bodies, n, r.state, r.errors)
            && r.state.decoder == PushAll(NEW, Flat(chunks)).(ready := bodies[n..])
            && (chunks != [] && r.errors == PushedOn(config, chunks[..|chunks| - 1]).errors ==> n == |bodies|)
  {
    hide PushAll, ReadAll, Drained, IngestEach;
    DecoderEmitsAllReads(Flat(chunks));
    if chunks == [] {
      n := 0;
      NothingIngested(config);
      NothingCounted(config);
    } else {
      var front, last := chunks[..|chunks| - 1], chunks[|chunks| - 1];
      var k := PushesIngestReads(config, front);
      var before := PushedOn(config, front);
      var bodies := ReadAll(Flat(chunks));
      DecoderEmitsAllReads(Flat(front));
      PushOnto(Flat(front), last, k);
      var fed := before.state.(decoder := PushAll(before.state.decoder, last));
      assert bodies[..k] == ReadAll(Flat(front))[..k];
      n := DrainsTo(config, bodies, k, fed, before.errors);
    }
  }

  lemma NothingCounted(config: Fragments.ReassemblerConfig)
    ensures IngestEach(config, []) == Tally([], [], [])
  {}

  /** Bytes pushed behind a queue that has lost its first `k` bodies. */
  lemma PushOnto(front: Bytes, last: Bytes, k: nat)
    requires k <= |ReadAll(front)|
    ensures var before, bodies := PushAll(NEW, front), ReadAll(front + last);
            && ReadAll(front) <= bodies
            && PushAll(before.(ready := ReadAll(front)[k..]), last) == PushAll(NEW, front + last).(ready := bodies[k..])
  {
    hide PushAll, ReadAll;
    DecoderEmitsAllReads(front);
    DecoderEmitsAllReads(front + last);
    PushJoin(NEW, front, last);
    var before := PushAll(NEW, front);
    var idle := before.(ready := []);
    PushBehind(idle, before.ready, last);
    PushBehind(idle, before.ready[k..], last);
    assert before.ready + idle.ready == before.ready && before.ready[k..] + idle.ready == before.ready[k..];
    assert idle.(ready := before.ready + idle.ready) == before;
    var emitted := PushAll(idle, last).ready;
    assert (before.ready + emitted)[k..] == before.ready[k..] + emitted;
  }

  /** However the stream is cut, the receiver ingests the frames that reading the
    * whole stream gives. */
  lemma {:induction false} ChunksIngestReads(config: Fragments.ReassemblerConfig, chunks: seq<Bytes>)
    requires IngestBodies(config, START, ReadAll(Flat(chunks))).error.None?
    ensures var b := IngestBodies(config, START, ReadAll(Flat(chunks)));
            PushedChunks(config, chunks)
            == Pushed(StreamState(PushAll(NEW, Flat(chunks)).(ready := []), b.table, b.messages), AirErrors.None)
  {
    hide IngestBodies, PushAll, ReadAll, Drained;
    if chunks == [] {
      DecoderEmitsAllReads([]);
      NothingIngested(config);
    } else {
      var front, last := chunks[..|chunks| - 1], chunks[|chunks| - 1];
      var d := PushAll(NEW, Flat(front));
      PushJoin(NEW, Flat(front), last);
      DecoderEmitsAllReads(Flat(front));
      DecoderEmitsAllReads(Flat(chunks));
      var idle := d.(ready := []);
      PushBehind(idle, d.ready, last);
      assert d.ready + idle.ready == d.ready;
      assert idle.(ready := d.ready + idle.ready) == d;
      var emitted := PushAll(idle, last).ready;
      assert ReadAll(Flat(chunks)) == ReadAll(Flat(front)) + emitted;
      BodiesJoin(config, START, ReadAll(Flat(front)), emitted);
      var b := IngestBodies(config, START, ReadAll(Flat(front)));
      if b.error.Some? { ErrorStays(config, b, emitted); }
      ChunksIngestReads(config, front);
      DrainIngests(config, StreamState(PushAll(idle, last), b.table, b.messages));
    }
  }

  // ----- a message echoed by the mesh ---------------------------------------------------------

  /** What arrives: an echo of one of our packets, or somebody else's message. */
  datatype Item = Ours(index: nat) | Foreign(body: Bytes)

  /** Administrative messages and other applications' data. */
  predicate IsForeign(body: Bytes) {
    |body| <= MAX_DEVICE_API_FRAME_LEN && DecodedFromRadio(body).Ok?
    && (DecodedFromRadio(body).value.Some? ==> DecodedFromRadio(body).value.value.portnum != PRIVATE_APP_PORTNUM)
  }

  function EchoBody(destination: u32, f: Frame): Bytes
    requires Wire.Valid(f)
  {
    var e := Echo(PacketBody(destination, f));
    if e.Ok? then e.value else []
  }

  ghost predicate ItemsOk(items: seq<Item>, frames: seq<Frame>) {
    && (forall i :: 0 <= i < |frames| ==> Wire.Valid(frames[i]))
    && forall k :: 0 <= k < |items| ==>
         match items[k] case Ours(i) => i < |frames| case Foreign(body) => IsForeign(body)
  }

  function BodyOf(item: Item, destination: u32, frames: seq<Frame>): Bytes
    requires item.Ours? ==> item.index < |frames| && Wire.Valid(frames[item.index])
  {
    match item case Ours(i) => EchoBody(destination, frames[i]) case Foreign(body) => body
  }

  function BodiesOf(items: seq<Item>, destination: u32, frames: seq<Frame>): (bodies: seq<Bytes>)
    requires forall k :: 0 <= k < |items| && items[k].Ours? ==>
               items[k].index < |frames| && Wire.Valid(frames[items[k].index])
    ensures |bodies| == |items|
  {
    seq(|items|, k requires 0 <= k < |items| => BodyOf(items[k], destination, frames))
  }

  function SeenIn(items: seq<Item>): set<nat> {
    set k | 0 <= k < |items| && items[k].Ours? :: items[k].index
  }

  /** An echoed packet is ingested as its frame. */
  lemma EchoIngested(config: Fragments.ReassemblerConfig, table: Table, destination: u32, f: Frame)
    requires Wire.Valid(f)
    ensures |EchoBody(destination, f)| <= MAX_DEVICE_API_FRAME_LEN
    ensures var p := Fragments.Pushed(config, table, f);
            p.result.Ok? ==> Ingested(config, table, EchoBody(destination, f)) == Ingest(p.contexts, Ok(p.result.value))
  {
    hide DecodedFromRadio, Wire.Decode, Wire.Encoded, Fragments.Pushed, Echo, ToRadio, Wire.Validate, Packet, Data;
    PacketFits(destination, f);
    EchoRoundTrip(destination, PRIVATE_APP_PORTNUM, Wire.Encoded(f));
    Wire.DecodeOfEncode(f);
    EchoSize(destination, Wire.Encoded(f));
  }

  lemma EchoSize(destination: u32, payload: Bytes)
    requires |payload| <= 256
    ensures |Protobuf.BytesField(FROM_RADIO_FIELD_PACKET, Packet(destination, Data(PRIVATE_APP_PORTNUM, payload)))|
            <= MAX_DEVICE_API_FRAME_LEN
  {
    hide Packet, Data, Protobuf.Varint;
    DataSizes(destination, PRIVATE_APP_PORTNUM, payload);
    var packet := Packet(destination, Data(PRIVATE_APP_PORTNUM, payload));
    VarintSize(|packet|);
    SmallTags();
  }

  lemma ForeignIngested(config: Fragments.ReassemblerConfig, table: Table, body: Bytes)
    requires IsForeign(body)
    ensures Ingested(config, table, body) == Ingest(table, Ok(AirErrors.None))
  {
    hide DecodedFromRadio, Wire.Decode, Fragments.Pushed;
  }

  /** How often a message has been handed out, and which of its packets have
    * arrived since. */
  datatype Progress = Progress(copies: nat, seen: set<nat>)

  /** The receiver keeps no memory of a message it has handed out: the same
    * packets, arriving again, make it once more. */
  function Advanced(p: Progress, item: Item, count: nat): Progress {
    match item
    case Foreign(_) => p
    case Ours(i) =>
      if p.seen + {i} == Fragments.AllOf(count) then Progress(p.copies + 1, {})
      else Progress(p.copies, p.seen + {i})
  }

  function Rounds(items: seq<Item>, count: nat): Progress {
    if items == [] then Progress(0, {}) else Advanced(Rounds(items[..|items| - 1], count), items[|items| - 1], count)
  }

  function Copies(meta: Fragments.Meta, message: Bytes, n: nat): (ms: seq<Received>)
    ensures |ms| == n
  {
    seq(n, _ => Fragments.ReassembledMessage(meta, message))
  }

  /** The message was handed out `p.copies` times and the table holds what has
    * arrived of it since, and nothing else. */
  ghost predicate Waiting(config: Fragments.ReassemblerConfig, b: Batch, frames: seq<Frame>, meta: Fragments.Meta,
                          message: Bytes, p: Progress)
    requires frames != []
  {
    b.error.None? && b.messages == Copies(meta, message, p.copies) && Fragments.TableOk(config, b.table)
    && Fragments.Holds(b.table, frames, p.seen) && NoOthers(b.table, Fragments.KeyOf(Fragments.MetaOf(frames[0])))
  }

  ghost predicate NoOthers(table: Table, key: Fragments.Key) {
    forall k: Fragments.Key :: k != key ==> Fragments.Lookup(table, k).None?
  }

  lemma NothingHeld(config: Fragments.ReassemblerConfig, table: Table, frames: seq<Frame>)
    requires frames != [] && Fragments.TableOk(config, table) && Fragments.Holds(table, frames, {})
    requires NoOthers(table, Fragments.KeyOf(Fragments.MetaOf(frames[0])))
    ensures table == []
  {
    hide Fragments.ContextOk;
    if table != [] { HeadFound(table); }
  }

  lemma HeadFound(table: Table)
    requires table != [] && Fragments.UniqueKeys(table)
    ensures Fragments.Lookup(table, Fragments.KeyOf(table[0].meta)).Some?
  {
    Fragments.LookupAt(table, 0);
  }

  /** The reassembler has room for the message. */
  predicate Roomy(config: Fragments.ReassemblerConfig, frames: seq<Frame>, message: Bytes) {
    Fragments.ConfigOk(config) && |frames| <= config.maxFragments && |message| <= config.maxMessageBytes
  }

  lemma OneOfOurs(
      config: Fragments.ReassemblerConfig, b: Batch, destination: u32, frames: seq<Frame>, meta: Fragments.Meta,
      message: Bytes, p: Progress, i: nat)
    requires Fragments.Carries(frames, meta, message, CAPACITY) && frames != [] && i < |frames| && Wire.Valid(frames[i])
    requires Roomy(config, frames, message) && Waiting(config, b, frames, meta, message, p)
    requires p.seen < Fragments.AllOf(|frames|)
    ensures Waiting(config, Next(config, b, EchoBody(destination, frames[i])), frames, meta, message,
                    Advanced(p, Ours(i), |frames|))
  {
    hide Fragments.Carries, Fragments.TableOk, Fragments.Holds, Fragments.Pushed, Fragments.Payloads, Wire.Validate;
    hide EchoBody, Ingested, Fragments.Lookup;
    Fragments.CarriedPayloads(frames, meta, message, CAPACITY);
    if p.seen == {} { NothingHeld(config, b.table, frames); }
    assert Fragments.Fits(config, b.table, frames, p.seen);
    Fragments.FragmentArrives(config, b.table, frames, meta, message, CAPACITY, p.seen, i);
    SameKey(frames, meta, message, i);
    PushLeavesOthers(config, b.table, frames[i]);
    EchoIngested(config, b.table, destination, frames[i]);
    assert Copies(meta, message, p.copies) + [Fragments.ReassembledMessage(meta, message)]
        == Copies(meta, message, p.copies + 1);
  }

  lemma SameKey(frames: seq<Frame>, meta: Fragments.Meta, message: Bytes, i: nat)
    requires Fragments.Carries(frames, meta, message, CAPACITY) && i < |frames|
    ensures Fragments.MetaOf(frames[i]) == Fragments.MetaOf(frames[0])
  {
    assert Fragments.IsFragment(frames[0], meta, message, CAPACITY, 0, |frames|);
    assert Fragments.IsFragment(frames[i], meta, message, CAPACITY, i, |frames|);
  }

  lemma PushLeavesOthers(config: Fragments.ReassemblerConfig, table: Table, f: Frame)
    requires Fragments.TableOk(config, table) && NoOthers(table, Fragments.KeyOf(Fragments.MetaOf(f)))
    ensures Fragments.TableOk(config, Fragments.Pushed(config, table, f).contexts)
    ensures NoOthers(Fragments.Pushed(config, table, f).contexts, Fragments.KeyOf(Fragments.MetaOf(f)))
  {
    hide Fragments.TableOk, Fragments.Pushed, Fragments.Lookup;
    Fragments.PushKeeps(config, table, f, (0, 0));
    forall k: Fragments.Key | k != Fragments.KeyOf(Fragments.MetaOf(f))
      ensures Fragments.Lookup(Fragments.Pushed(config, table, f).contexts, k).None?
    {
      Fragments.PushKeeps(config, table, f, k);
    }
  }

  lemma SeenGrows(items: seq<Item>)
    requires items != []
    ensures var n := |items| - 1;
            SeenIn(items) == SeenIn(items[..n]) + if items[n].Ours? then {items[n].index} else {}
  {
    var n := |items| - 1;
    forall x | x in SeenIn(items) ensures x in SeenIn(items[..n]) + if items[n].Ours? then {items[n].index} else {} {
      var k :| 0 <= k < |items| && items[k].Ours? && items[k].index == x;
      if k < n { assert items[..n][k].index == x; }
    }
    forall x | x in SeenIn(items[..n]) ensures x in SeenIn(items) {
      var k :| 0 <= k < n && items[..n][k].Ours? && items[..n][k].index == x;
      assert items[k].index == x;
    }
  }

  lemma LastBody(config: Fragments.ReassemblerConfig, b: Batch, bodies: seq<Bytes>)
    requires bodies != []
    ensures var before := IngestBodies(config, b, bodies[..|bodies| - 1]);
            IngestBodies(config, b, bodies)
            == if before.error.Some? then before else Next(config, before, bodies[|bodies| - 1])
  {
    hide Next;
    var n := |bodies| - 1;
    assert bodies == bodies[..n] + [bodies[n]];
    var tail: seq<Bytes> := [bodies[n]];
    BodiesJoin(config, b, bodies[..n], tail);
    assert tail[1..] == [];
  }

  lemma WaitingIsQuiet(config: Fragments.ReassemblerConfig, b: Batch, frames: seq<Frame>, meta: Fragments.Meta,
                       message: Bytes, p: Progress)
    requires frames != [] && Waiting(config, b, frames, meta, message, p)
    ensures b.error.None?
  {}

  /** Between two rounds some packet is always missing. */
  lemma {:induction false} RoundsMiss(items: seq<Item>, frames: seq<Frame>)
    requires ItemsOk(items, frames) && frames != []
    ensures Rounds(items, |frames|).seen < Fragments.AllOf(|frames|)
  {
    hide IsForeign, Wire.Validate;
    if items == [] {
      assert 0 in Fragments.AllOf(|frames|);
    } else {
      RoundsMiss(items[..|items| - 1], frames);
      assert 0 in Fragments.AllOf(|frames|);
    }
  }

  /** Whatever arrives is counted in rounds. */
  lemma {:induction false} ItemsIngested(config: Fragments.ReassemblerConfig, destination: u32, frames: seq<Frame>,
                                         meta: Fragments.Meta, message: Bytes, items: seq<Item>)
    requires Fragments.Carries(frames, meta, message, CAPACITY) && frames != [] && ItemsOk(items, frames)
    requires Roomy(config, frames, message)
    ensures Waiting(config, IngestBodies(config, START, BodiesOf(items, destination, frames)), frames, meta, message,
                    Rounds(items, |frames|))
  {
    hide Fragments.Carries, Wire.Validate, EchoBody, IsForeign, IngestBodies, Next, Roomy, Waiting;
    var bodies := BodiesOf(items, destination, frames);
    if items == [] {
      NothingYet(config, frames, meta, message);
      NothingIngested(config);
    } else {
      var n := |items| - 1;
      var p := Rounds(items[..n], |frames|);
      ItemsIngested(config, destination, frames, meta, message, items[..n]);
      RoundsMiss(items[..n], frames);
      hide Rounds;
      RoundsNext(items, |frames|);
      assert bodies[..n] == BodiesOf(items[..n], destination, frames);
      LastBody(config, START, bodies);
      var b := IngestBodies(config, START, bodies[..n]);
      WaitingIsQuiet(config, b, frames, meta, message, p);
      match items[n] {
        case Ours(i) => OneOfOurs(config, b, destination, frames, meta, message, p, i);
        case Foreign(body) => ForeignNext(config, b, body);
      }
    }
  }

  lemma RoundsNext(items: seq<Item>, count: nat)
    requires items != []
    ensures Rounds(items, count) == Advanced(Rounds(items[..|items| - 1], count), items[|items| - 1], count)
  {}

  lemma NothingYet(config: Fragments.ReassemblerConfig, frames: seq<Frame>, meta: Fragments.Meta, message: Bytes)
    requires frames != []
    ensures Waiting(config, START, frames, meta, message, Progress(0, {}))
  {
    Fragments.EmptyTable(config);
  }

  lemma ForeignNext(config: Fragments.ReassemblerConfig, b: Batch, body: Bytes)
    requires IsForeign(body) && b.error.None?
    ensures Next(config, b, body) == b
  {
    hide IsForeign, Ingested;
    ForeignIngested(config, b.table, body);
  }

  /** Bodies the device API carries whole. */
  ghost predicate Framable(bodies: seq<Bytes>) {
    forall k :: 0 <= k < |bodies| ==> |bodies[k]| <= MAX_DEVICE_API_FRAME_LEN
  }

  lemma ItemsFramable(destination: u32, frames: seq<Frame>, items: seq<Item>)
    requires ItemsOk(items, frames)
    ensures Framable(BodiesOf(items, destination, frames))
  {
    hide Wire.Validate, EchoBody, DecodedFromRadio;
    var config := Fragments.ReassemblerConfig(0, 0, 0);
    forall k | 0 <= k < |items| ensures |BodyOf(items[k], destination, frames)| <= MAX_DEVICE_API_FRAME_LEN {
      if items[k].Ours? { EchoIngested(config, [], destination, frames[items[k].index]); }
    }
  }

  // ----- how many copies come out ----------------------------------------------------------------

  /** While a packet is missing no copy is complete. */
  lemma {:induction false} NoneWhileMissing(items: seq<Item>, count: nat)
    requires SeenIn(items) < Fragments.AllOf(count)
    ensures Rounds(items, count) == Progress(0, SeenIn(items))
  {
    if items == [] {
      assert SeenIn(items) == {};
    } else {
      SeenGrows(items);
      NoneWhileMissing(items[..|items| - 1], count);
    }
  }

  lemma {:induction false} CopiesGrow(items: seq<Item>, n: nat, count: nat)
    requires n <= |items|
    ensures Rounds(items[..n], count).copies <= Rounds(items, count).copies
  {
    if n == |items| {
      assert items[..n] == items;
    } else {
      assert items[..|items| - 1][..n] == items[..n];
      CopiesGrow(items[..|items| - 1], n, count);
    }
  }

  /** A copy is complete exactly when every packet has arrived. */
  lemma {:induction false} SomeWhenAllSeen(items: seq<Item>, frames: seq<Frame>)
    requires ItemsOk(items, frames) && frames != []
    ensures Rounds(items, |frames|).copies == 0 <==> SeenIn(items) != Fragments.AllOf(|frames|)
  {
    hide IsForeign, Wire.Validate;
    SeenInside(items, frames);
    if SeenIn(items) < Fragments.AllOf(|frames|) {
      NoneWhileMissing(items, |frames|);
    } else {
      assert items != [] by { assert 0 in SeenIn(items); }
      var n := |items| - 1;
      SeenGrows(items);
      CopiesGrow(items, n, |frames|);
      if SeenIn(items[..n]) == Fragments.AllOf(|frames|) {
        SomeWhenAllSeen(items[..n], frames);
      } else {
        SeenInside(items[..n], frames);
        NoneWhileMissing(items[..n], |frames|);
      }
    }
  }

  lemma SeenInside(items: seq<Item>, frames: seq<Frame>)
    requires ItemsOk(items, frames)
    ensures SeenIn(items) <= Fragments.AllOf(|frames|)
  {
    hide IsForeign, Wire.Validate;
  }

  /** Behind a complete round counting starts afresh. */
  lemma {:induction false} RoundsJoin(before: seq<Item>, after: seq<Item>, count: nat)
    requires Rounds(before, count).seen == {}
    ensures Rounds(before + after, count)
         == Progress(Rounds(before, count).copies + Rounds(after, count).copies, Rounds(after, count).seen)
  {
    if after == [] {
      assert before + after == before;
    } else {
      var n := |after| - 1;
      RoundsJoin(before, after[..n], count);
      assert (before + after)[..|before| + n] == before + after[..n];
    }
  }

  /** Everything that arrives: up to the last missing packet, that packet, and
    * what comes after it. */
  function Arrivals(before: seq<Item>, last: nat, after: seq<Item>): seq<Item> { before + [Ours(last)] + after }

  lemma ArrivalsCopies(before: seq<Item>, last: nat, after: seq<Item>, frames: seq<Frame>)
    requires ItemsOk(after, frames) && frames != []
    requires SeenIn(before) < Fragments.AllOf(|frames|) && SeenIn(before) + {last} == Fragments.AllOf(|frames|)
    ensures Rounds(Arrivals(before, last, after), |frames|).copies == 1 + Rounds(after, |frames|).copies
    ensures Rounds(after, |frames|).copies == 0 <==> SeenIn(after) != Fragments.AllOf(|frames|)
  {
    hide SeenIn, ItemsOk;
    NoneWhileMissing(before, |frames|);
    var first := before + [Ours(last)];
    assert first[..|before|] == before;
    RoundsJoin(first, after, |frames|);
    SomeWhenAllSeen(after, frames);
  }

  /** The bytes of what arrives. */
  ghost function ItemStream(destination: u32, frames: seq<Frame>, items: seq<Item>): Bytes
    requires ItemsOk(items, frames)
  {
    ItemsFramable(destination, frames, items);
    Stream(BodiesOf(items, destination, frames))
  }

  lemma ItemStreamIsRead(destination: u32, frames: seq<Frame>, items: seq<Item>)
    requires ItemsOk(items, frames)
    ensures ReadAll(ItemStream(destination, frames, items)) == BodiesOf(items, destination, frames)
  {
    ItemsFramable(destination, frames, items);
    hide ReadAll, BodiesOf, Stream, IsForeign, Wire.Validate;
    StreamIsRead(BodiesOf(items, destination, frames));
  }

  /** The whole pipeline: packets of one message, echoed by the mesh in any order
    * and any number of times among other traffic, and fed to the receiver in any
    * chunks.  No push fails, and the message comes out exactly as often as its
    * packets have all arrived since it last did. */
  lemma EchoesCounted(
      config: Fragments.ReassemblerConfig, destination: u32, frames: seq<Frame>, meta: Fragments.Meta,
      message: Bytes, items: seq<Item>, chunks: seq<Bytes>)
    requires Fragments.Carries(frames, meta, message, CAPACITY) && frames != [] && ItemsOk(items, frames)
    requires Roomy(config, frames, message) && Flat(chunks) == ItemStream(destination, frames, items)
    ensures var p := PushedChunks(config, chunks);
            && p.error.None? && p.after.decoder.ready == []
            && p.after.ready == Copies(meta, message, Rounds(items, |frames|).copies)
  {
    hide Fragments.Carries, Wire.Validate, IsForeign, IngestBodies, Roomy, PushedChunks, ReadAll, Flat, Rounds;
    hide BodiesOf, ItemsOk, Copies, ItemStream;
    ItemsIngested(config, destination, frames, meta, message, items);
    ItemStreamIsRead(destination, frames, items);
    ChunksIngestReads(config, chunks);
  }

  /** Once all packets have arrived the message has come out.  It comes out
    * exactly once if and only if what arrives behind the last missing packet
    * does not hold all of them again. */
  lemma EchoedMessageArrives(
      config: Fragments.ReassemblerConfig, destination: u32, frames: seq<Frame>, meta: Fragments.Meta,
      message: Bytes, before: seq<Item>, last: nat, after: seq<Item>, chunks: seq<Bytes>)
    requires Fragments.Carries(frames, meta, message, CAPACITY) && frames != []
    requires ItemsOk(Arrivals(before, last, after), frames) && Roomy(config, frames, message)
    requires SeenIn(before) < Fragments.AllOf(|frames|) && SeenIn(before) + {last} == Fragments.AllOf(|frames|)
    requires Flat(chunks) == ItemStream(destination, frames, Arrivals(before, last, after))
    ensures var p := PushedChunks(config, chunks);
            && p.error.None? && p.after.decoder.ready == []
            && p.after.ready == Copies(meta, message, 1 + Rounds(after, |frames|).copies)
            && (p.after.ready == [Fragments.ReassembledMessage(meta, message)]
                <==> SeenIn(after) != Fragments.AllOf(|frames|))
  {
    var items := Arrivals(before, last, after);
    ItemsBehind(before, last, after, frames);
    hide Fragments.Carries, ItemsOk, Roomy, PushedChunks, Flat, Rounds, SeenIn, ItemStream, Arrivals, Copies;
    EchoesCounted(config, destination, frames, meta, message, items, chunks);
    ArrivalsCopies(before, last, after, frames);
    OneCopy(meta, message, 1 + Rounds(after, |frames|).copies);
  }

  lemma OneCopy(meta: Fragments.Meta, message: Bytes, n: nat)
    ensures Copies(meta, message, n) == [Fragments.ReassembledMessage(meta, message)] <==> n == 1
  {}

  lemma ItemsBehind(before: seq<Item>, last: nat, after: seq<Item>, frames: seq<Frame>)
    requires ItemsOk(Arrivals(before, last, after), frames)
    ensures ItemsOk(after, frames)
  {
    hide IsForeign, Wire.Validate;
    var items := Arrivals(before, last, after);
    forall k | 0 <= k < |after| ensures after[k] == items[|before| + 1 + k] {}
  }

  /** Every packet once, in order. */
  function InOrder(n: nat): (items: seq<Item>)
    ensures |items| == n && forall i :: 0 <= i < n ==> items[i] == Ours(i)
  {
    seq(n, i requires 0 <= i < n => Ours(i))
  }

  ghost function TwiceInOrder(frames: seq<Frame>): (items: seq<Item>)
    requires forall i :: 0 <= i < |frames| ==> Wire.Valid(frames[i])
    ensures ItemsOk(items, frames)
  {
    InOrder(|frames|) + InOrder(|frames|)
  }

  /** A message all of whose packets come twice comes out twice, and no push
    * fails. */
  lemma EchoedTwiceArrivesTwice(
      config: Fragments.ReassemblerConfig, destination: u32, frames: seq<Frame>, meta: Fragments.Meta,
      message: Bytes, chunks: seq<Bytes>)
    requires Fragments.Carries(frames, meta, message, CAPACITY) && frames != [] && Roomy(config, frames, message)
    requires forall i :: 0 <= i < |frames| ==> Wire.Valid(frames[i])
    requires Flat(chunks) == ItemStream(destination, frames, TwiceInOrder(frames))
    ensures var m, p := Fragments.ReassembledMessage(meta, message), PushedChunks(config, chunks);
            p.after.ready == [m, m] && p.error.None?
  {
    var n := |frames|;
    OneRound(n);
    RoundsJoin(InOrder(n), InOrder(n), n);
    hide Fragments.Carries, ItemsOk, Roomy, PushedChunks, Flat, Rounds, ItemStream, Wire.Validate;
    EchoesCounted(config, destination, frames, meta, message, TwiceInOrder(frames), chunks);
    assert Copies(meta, message, 2)
        == [Fragments.ReassembledMessage(meta, message), Fragments.ReassembledMessage(meta, message)];
  }

  lemma OneRound(n: nat)
    requires n > 0
    ensures Rounds(InOrder(n), n) == Progress(1, {})
  {
    var front := InOrder(n)[..n - 1];
    forall x | x in SeenIn(front) ensures x in Fragments.AllOf(n) && x != n - 1 {}
    forall x: nat | x < n - 1 ensures x in SeenIn(front) { assert front[x] == Ours(x); }
    assert n - 1 in Fragments.AllOf(n);
    NoneWhileMissing(front, n);
    assert SeenIn(front) + {n - 1} == Fragments.AllOf(n);
  }

  // ----- what is sent ----------------------------------------------------------------------------

  /** The messages the mesh takes: at most 32 payloads of 211 bytes. */
  lemma AcceptableIff(o: Outgoing)
    ensures Acceptable(o) <==> |o.message| <= 6752 && o.priority < 16 && o.flags % 16 == 0
  {
    Fragments.FragmentableIff(o.message, 227);
    hide Fragments.FragmentError;
  }

  /** The outer header of every packet. */
  lemma HeadersAre(o: Outgoing, frames: seq<Frame>, i: nat)
    requires Fragments.Carries(frames, MetaFor(o), o.message, CAPACITY) && i < |frames|
    ensures var f := frames[i];
            && f.profile == Wire.Meshtastic && f.flags == o.flags && f.streamId == o.streamId
            && f.sequence == o.sequence && f.class_ == o.class_ && f.priority == o.priority && f.stateTag == o.stateTag
            && f.fragmentIndex == i && f.fragmentCount == |frames|
  {
    assert Fragments.IsFragment(frames[i], MetaFor(o), o.message, CAPACITY, i, |frames|);
  }

  /** Bytes on the private port that are no frame are reported, not passed over. */
  lemma GarbageReported(config: Fragments.ReassemblerConfig, table: Table, body: Bytes)
    requires DecodedFromRadio(body).Ok? && DecodedFromRadio(body).value.Some?
    requires var received := DecodedFromRadio(body).value.value;
             received.portnum == 256 && Wire.Decode(received.payload).Err?
    ensures Ingested(config, table, body)
         == Ingest(table, Err(Air(Wire.Decode(DecodedFromRadio(body).value.value.payload).error)))
  {
    hide DecodedFromRadio, Wire.Decode;
  }
}
