/** The device-API stream framing, read two ways: by a blocking reader and by a
  * state machine fed one byte at a time.
  */
module MeshFraming {
  import opened Words
  import opened BigEndian
  import opened MeshErrors
  import AirErrors

  const START1: byte := 0x94
  const START2: byte := 0xc3
  const MAX_DEVICE_API_FRAME_LEN := 512

  type Bytes = seq<byte>

  function Framed(body: Bytes): (s: Bytes)
    requires |body| <= MAX_DEVICE_API_FRAME_LEN
    ensures |s| == 4 + |body|
  {
    [START1, START2] + Be(|body|, 2) + body
  }

  /** Appends one whole frame to the writer's bytes. */
  method WriteFrame(written: Bytes, body: Bytes) returns (ok: bool, after: Bytes)
    ensures ok <==> |body| <= MAX_DEVICE_API_FRAME_LEN
    ensures after == if ok then written + Framed(body) else written
  {
    if |body| > MAX_DEVICE_API_FRAME_LEN { return false, written; }
    var header := [START1, START2] + Be(|body|, 2);
    after := written + header;
    after := after + body;
    return true, after;
  }

  // ----- the blocking reader --------------------------------------------------------

  /** A frame body and what follows it in the stream. */
  datatype Read = Read(body: Bytes, rest: Bytes)

  type Found = AirErrors.Option<Read>

  /** The first frame of a stream, or none before its end. */
  function ReadFrame(s: Bytes): (r: Found)
    ensures r.Some? ==> |r.value.rest| < |s|
    decreases |s|, 1
  {
    if s == [] then AirErrors.None
    else if s[0] == START1 then SeekSecond(s[1..])
    else ReadFrame(s[1..])
  }

  /** After a first start byte; a repeated one is a new candidate. */
  function SeekSecond(s: Bytes): (r: Found)
    ensures r.Some? ==> |r.value.rest| <= |s|
    decreases |s|, 2
  {
    if s == [] then AirErrors.None
    else if s[0] == START2 then ReadBody(s[1..])
    else if s[0] == START1 then SeekSecond(s[1..])
    else ReadFrame(s[1..])
  }

  /** After both start bytes; too large a length is not trusted as a skip. */
  function ReadBody(s: Bytes): (r: Found)
    ensures r.Some? ==> |r.value.rest| <= |s|
    decreases |s|, 2
  {
    if |s| < 2 then AirErrors.None
    else
      var len := Get16(s, 0);
      if len > MAX_DEVICE_API_FRAME_LEN then ReadFrame(s[2..])
      else if |s| < 2 + len then AirErrors.None
      else AirErrors.Some(Read(s[2..2 + len], s[2 + len..]))
  }

  /** All frames a reader gets until the stream ends. */
  function ReadAll(s: Bytes): seq<Bytes>
    decreases |s|
  {
    var r := ReadFrame(s);
    if r.None? then [] else [r.value.body] + ReadAll(r.value.rest)
  }

  /** A stream consumed from the front, as `Read` sees it. */
  class ByteReader {
    const bytes: Bytes
    var at: nat

    ghost predicate Valid()
      reads this
    {
      at <= |bytes|
    }

    ghost function Rest(): Bytes
      reads this
      requires Valid()
    {
      bytes[at..]
    }

    constructor (bytes: Bytes)
      ensures Valid() && Rest() == bytes
    {
      this.bytes := bytes;
      at := 0;
    }

    /** `read_exact`; None is the end of the stream. */
    method ReadExact(n: nat) returns (r: AirErrors.Option<Bytes>)
      requires Valid()
      modifies this
      ensures Valid()
      ensures n <= |old(Rest())| ==> r == AirErrors.Some(old(Rest())[..n]) && Rest() == old(Rest())[n..]
      ensures n > |old(Rest())| ==> r.None? && |Rest()| <= |old(Rest())|
    {
      if at + n > |bytes| { return AirErrors.None; }
      r := AirErrors.Some(bytes[at..at + n]);
      at := at + n;
      assert old(Rest())[..n] == bytes[at - n..at] && old(Rest())[n..] == bytes[at..];
    }

    /** Seeks the first start byte; false at the end of the stream. */
    method SeekStart1() returns (found: bool)
      requires Valid()
      modifies this
      ensures Valid()
      ensures found ==> ReadFrame(old(Rest())) == SeekSecond(Rest()) && |Rest()| < |old(Rest())|
      ensures !found ==> ReadFrame(old(Rest())).None?
    {
      while true
        invariant Valid() && ReadFrame(old(Rest())) == ReadFrame(Rest()) && |Rest()| <= |old(Rest())|
        decreases |Rest()|
      {
        ghost var rest := Rest();
        var byte := ReadExact(1);
        if byte.None? {
          assert rest == [];
          return false;
        }
        if byte.value[0] == START1 {
          assert rest[0] == START1 && ReadFrame(rest) == SeekSecond(rest[1..]);
          return true;
        }
      }
    }

    /** Seeks the second start byte; `again` means a stray byte came instead. */
    method SeekStart2() returns (found: bool, again: bool)
      requires Valid()
      modifies this
      ensures Valid() && |Rest()| <= |old(Rest())|
      ensures found ==> SeekSecond(old(Rest())) == ReadBody(Rest())
      ensures !found && again ==> SeekSecond(old(Rest())) == ReadFrame(Rest())
      ensures !found && !again ==> SeekSecond(old(Rest())).None?
    {
      while true
        invariant Valid() && SeekSecond(old(Rest())) == SeekSecond(Rest()) && |Rest()| <= |old(Rest())|
        decreases |Rest()|
      {
        ghost var rest := Rest();
        var byte := ReadExact(1);
        if byte.None? {
          assert rest == [];
          return false, false;
        }
        assert byte.value[0] == rest[0];
        if byte.value[0] == START2 { return true, false; }
        if byte.value[0] != START1 { return false, true; }
      }
    }

    method ReadNext() returns (r: AirErrors.Option<Bytes>)
      requires Valid()
      modifies this
      ensures Valid()
      ensures var f := ReadFrame(old(Rest()));
              (f.None? <==> r.None?) && (f.Some? ==> r == AirErrors.Some(f.value.body) && Rest() == f.value.rest)
    {
      while true
        invariant Valid() && ReadFrame(old(Rest())) == ReadFrame(Rest())
        decreases |Rest()|
      {
        var found := SeekStart1();
        if !found { return AirErrors.None; }
        var second, again := SeekStart2();
        if !second {
          if again { continue; }
          return AirErrors.None;
        }
        ghost var rest := Rest();
        var lenBytes := ReadExact(2);
        if lenBytes.None? { return AirErrors.None; }
        assert lenBytes.value[0..2] == rest[0..2];
        var len := Get16(lenBytes.value, 0);
        if len > MAX_DEVICE_API_FRAME_LEN { continue; }
        var body := ReadExact(len);
        if body.None? { return AirErrors.None; }
        assert rest[2..][..len] == rest[2..2 + len] && rest[2..][len..] == rest[2 + len..];
        return body;
      }
    }
  }

  // ----- the push decoder ------------------------------------------------------------------

  datatype State =
    | SeekingStart1 | SeekingStart2 | ReadingLenHigh | ReadingLenLow(high: byte) | ReadingBody(remaining: nat)

  datatype Decoder = Decoder(state: State, body: Bytes, ready: seq<Bytes>)

  const NEW := Decoder(SeekingStart1, [], [])

  function PushByte(d: Decoder, b: byte): Decoder {
    match d.state
    case SeekingStart1 => d.(state := if b == START1 then SeekingStart2 else SeekingStart1)
    case SeekingStart2 =>
      d.(state := if b == START2 then ReadingLenHigh else if b == START1 then SeekingStart2 else SeekingStart1)
    case ReadingLenHigh => d.(state := ReadingLenLow(b))
    case ReadingLenLow(high) =>
      var len: int := 256 * high + b;
      if len == 0 then d.(ready := d.ready + [[]], state := SeekingStart1)
      else if len > MAX_DEVICE_API_FRAME_LEN then d.(state := SeekingStart1)
      else d.(body := [], state := ReadingBody(len))
    case ReadingBody(remaining) =>
      if remaining == 1 then Decoder(SeekingStart1, [], d.ready + [d.body + [b]])
      else d.(body := d.body + [b], state := ReadingBody(if remaining > 0 then remaining - 1 else 0))
  }

  function PushAll(d: Decoder, s: Bytes): Decoder
    decreases |s|
  {
    if s == [] then d else PushAll(PushByte(d, s[0]), s[1..])
  }

  class FrameDecoder {
    var state: State
    var body: Bytes
    var ready: seq<Bytes>

    function View(): Decoder
      reads this
    {
      Decoder(state, body, ready)
    }

    ghost predicate Valid()
      reads this
    {
      Reading(View())
    }

    constructor ()
      ensures Valid() && View() == NEW
    {
      state, body, ready := SeekingStart1, [], [];
    }

    method PushOne(b: byte)
      requires Valid()
      modifies this
      ensures Valid() && View() == PushByte(old(View()), b)
    {
      match state {
        case SeekingStart1 =>
          if b == START1 { state := SeekingStart2; }
        case SeekingStart2 =>
          if b == START2 { state := ReadingLenHigh; } else if b != START1 { state := SeekingStart1; }
        case ReadingLenHigh => state := ReadingLenLow(b);
        case ReadingLenLow(high) =>
          var len := 256 * high + b;
          if len == 0 {
            ready := ready + [[]];
            state := SeekingStart1;
          } else if len > MAX_DEVICE_API_FRAME_LEN {
            state := SeekingStart1;
          } else {
            body := [];
            state := ReadingBody(len);
          }
        case ReadingBody(remaining) =>
          body := body + [b];
          if remaining == 1 {
            ready := ready + [body];
            body := [];
            state := SeekingStart1;
          } else {
            state := ReadingBody(remaining - 1);
          }
      }
    }

    method Push(chunk: Bytes)
      requires Valid()
      modifies this
      ensures Valid() && View() == PushAll(old(View()), chunk)
    {
      for i := 0 to |chunk|
        invariant Valid() && PushAll(old(View()), chunk) == PushAll(View(), chunk[i..])
      {
        assert chunk[i..][1..] == chunk[i + 1..];
        PushOne(chunk[i]);
      }
    }

    method Pull() returns (r: AirErrors.Option<Bytes>)
      requires Valid()
      modifies this
      ensures Valid()
      ensures if old(ready) == [] then r.None? && View() == old(View())
              else r == AirErrors.Some(old(ready)[0]) && View() == old(View()).(ready := old(ready)[1..])
    {
      if ready == [] { return AirErrors.None; }
      r := AirErrors.Some(ready[0]);
      ready := ready[1..];
    }
  }

  /** Between frames nothing is buffered; within one, less than its length. */
  ghost predicate Reading(d: Decoder) {
    match d.state
    case ReadingBody(remaining) => 0 < remaining && |d.body| + remaining <= MAX_DEVICE_API_FRAME_LEN
    case _ => d.body == []
  }

  // ----- the two readers agree -----------------------------------------------------------------

  lemma {:induction false} PushJoin(d: Decoder, a: Bytes, b: Bytes)
    ensures PushAll(d, a + b) == PushAll(PushAll(d, a), b)
    decreases |a|
  {
    hide PushByte;
    if a == [] {
      assert a + b == b;
    } else {
      assert (a + b)[1..] == a[1..] + b;
      PushJoin(PushByte(d, a[0]), a[1..], b);
    }
  }

  /** A body that arrives whole. */
  lemma {:induction false} BodyArrives(d: Decoder, s: Bytes)
    requires d.state.ReadingBody? && 0 < d.state.remaining <= |s|
    ensures var n := d.state.remaining;
            PushAll(d, s) == PushAll(Decoder(SeekingStart1, [], d.ready + [d.body + s[..n]]), s[n..])
    decreases |s|
  {
    var n := d.state.remaining;
    if n == 1 {
      assert s[..1] == [s[0]];
    } else {
      var next := PushByte(d, s[0]);
      BodyArrives(next, s[1..]);
      assert next.body + s[1..][..n - 1] == d.body + s[..n];
      assert s[1..][n - 1..] == s[n..];
    }
  }

  /** A body that does not arrive whole emits nothing. */
  lemma {:induction false} BodyCutShort(d: Decoder, s: Bytes)
    requires d.state.ReadingBody? && |s| < d.state.remaining
    ensures PushAll(d, s).ready == d.ready
    decreases |s|
  {
    if s != [] { BodyCutShort(PushByte(d, s[0]), s[1..]); }
  }

  lemma LengthBytes(s: Bytes)
    requires |s| >= 2
    ensures var high: int, low: int := s[0], s[1];
            Get16(s, 0) == 256 * high + low
  {
    assert s[0..2] == [s[0], s[1]];
    assert [s[0], s[1]][..1] == [s[0]] && [s[0]][..0] == [];
    assert FromBe([s[0]]) == s[0];
  }

  /** What the decoder emits from each state is what the blocking reader finds
    * from there, and then all it finds after that. */
  function FramesFrom(found: Found): seq<Bytes> {
    if found.None? then [] else [found.value.body] + ReadAll(found.value.rest)
  }

  lemma {:induction false} EmitsAsRead(ready: seq<Bytes>, s: Bytes)
    ensures PushAll(Decoder(SeekingStart1, [], ready), s).ready == ready + FramesFrom(ReadFrame(s))
    decreases |s|, 1
  {
    if s != [] {
      if s[0] == START1 { EmitsAfterStart1(ready, s[1..]); } else { EmitsAsRead(ready, s[1..]); }
    }
  }

  lemma {:induction false} EmitsAfterStart1(ready: seq<Bytes>, s: Bytes)
    ensures PushAll(Decoder(SeekingStart2, [], ready), s).ready == ready + FramesFrom(SeekSecond(s))
    decreases |s|, 2
  {
    if s != [] {
      if s[0] == START2 { EmitsAfterStart2(ready, s[1..]); }
      else if s[0] == START1 { EmitsAfterStart1(ready, s[1..]); }
      else { EmitsAsRead(ready, s[1..]); }
    }
  }

  lemma {:induction false} EmitsAfterStart2(ready: seq<Bytes>, s: Bytes)
    ensures PushAll(Decoder(ReadingLenHigh, [], ready), s).ready == ready + FramesFrom(ReadBody(s))
    decreases |s|, 2
  {
    if |s| >= 2 {
      LengthBytes(s);
      var len := Get16(s, 0);
      hide Get16;
      var d := PushByte(PushByte(Decoder(ReadingLenHigh, [], ready), s[0]), s[1]);
      assert s[1..][1..] == s[2..];
      assert PushAll(Decoder(ReadingLenHigh, [], ready), s) == PushAll(d, s[2..]);
      EmitsBody(ready, s, len, d);
    } else if |s| == 1 {
      assert s[1..] == [];
    }
  }

  lemma {:induction false} EmitsBody(ready: seq<Bytes>, s: Bytes, len: nat, d: Decoder)
    requires |s| >= 2 && len == Get16(s, 0)
    requires d == if len == 0 then Decoder(SeekingStart1, [], ready + [[]])
                  else if len > MAX_DEVICE_API_FRAME_LEN then Decoder(SeekingStart1, [], ready)
                  else Decoder(ReadingBody(len), [], ready)
    ensures PushAll(d, s[2..]).ready == ready + FramesFrom(ReadBody(s))
    decreases |s|, 1
  {
    hide Get16, PushByte, PushAll, ReadFrame, ReadAll;
    if len > MAX_DEVICE_API_FRAME_LEN {
      EmitsAsRead(ready, s[2..]);
    } else if |s| < 2 + len {
      BodyCutShort(d, s[2..]);
      assert ready + [] == ready;
    } else {
      var body, rest := s[2..2 + len], s[2 + len..];
      BodyTaken(ready, s, len, d);
      EmitsAsRead(ready + [body], rest);
      FramesAreAll(rest);
      assert ready + [body] + ReadAll(rest) == ready + ([body] + ReadAll(rest));
    }
  }

  lemma BodyTaken(ready: seq<Bytes>, s: Bytes, len: nat, d: Decoder)
    requires 2 + len <= |s| && len <= MAX_DEVICE_API_FRAME_LEN
    requires d == if len == 0 then Decoder(SeekingStart1, [], ready + [[]]) else Decoder(ReadingBody(len), [], ready)
    ensures PushAll(d, s[2..]) == PushAll(Decoder(SeekingStart1, [], ready + [s[2..2 + len]]), s[2 + len..])
  {
    hide PushAll, PushByte;
    var body, rest := s[2..2 + len], s[2 + len..];
    assert s[2..][len..] == rest && s[2..][..len] == body;
    if len > 0 {
      BodyArrives(d, s[2..]);
      assert [] + body == body;
    } else {
      assert body == [];
    }
  }

  lemma FramesAreAll(s: Bytes)
    ensures FramesFrom(ReadFrame(s)) == ReadAll(s)
  {
    hide ReadFrame;
  }

  /** On every byte stream the decoder emits exactly the frames that reading one
    * after the other gives, in the same order. */
  lemma DecoderEmitsAllReads(s: Bytes)
    ensures PushAll(NEW, s).ready == ReadAll(s)
  {
    hide ReadAll, ReadFrame, PushAll;
    EmitsAsRead([], s);
    FramesAreAll(s);
    assert [] + ReadAll(s) == ReadAll(s);
  }

  // ----- written frames -----------------------------------------------------------------------------

  /** A written frame is read back, and the reader stands behind it. */
  lemma FramedIsRead(body: Bytes, rest: Bytes)
    requires |body| <= MAX_DEVICE_API_FRAME_LEN
    ensures ReadFrame(Framed(body) + rest) == AirErrors.Some(Read(body, rest))
  {
    hide Be, FromBe;
    var s := Framed(body) + rest;
    var after := Be(|body|, 2) + body + rest;
    assert s[1..][1..] == after;
    Pow256Values();
    FromBeOfBe(|body|, 2);
    assert after[0..2] == Be(|body|, 2);
    assert Get16(after, 0) == |body|;
    assert s[0] == START1 && s[1..][0] == START2;
    assert ReadFrame(s) == SeekSecond(s[1..]) == ReadBody(after);
    assert after[2..2 + |body|] == body && after[2 + |body|..] == rest;
  }

  function Stream(bodies: seq<Bytes>): Bytes
    requires forall i :: 0 <= i < |bodies| ==> |bodies[i]| <= MAX_DEVICE_API_FRAME_LEN
  {
    if bodies == [] then [] else Framed(bodies[0]) + Stream(bodies[1..])
  }

  /** Frames written one after the other are read back one after the other. */
  lemma {:induction false} StreamIsRead(bodies: seq<Bytes>)
    requires forall i :: 0 <= i < |bodies| ==> |bodies[i]| <= MAX_DEVICE_API_FRAME_LEN
    ensures ReadAll(Stream(bodies)) == bodies
  {
    assert ReadFrame([]).None?;
    hide Framed, ReadFrame;
    if bodies != [] {
      FramedIsRead(bodies[0], Stream(bodies[1..]));
      StreamIsRead(bodies[1..]);
      assert bodies == [bodies[0]] + bodies[1..];
    }
  }

  function DecodeSingleFrame(framed: Bytes): Result<Bytes> {
    if |framed| < 4 || framed[0] != START1 || framed[1] != START2 then Err(FrameCorrupt)
    else
      var len := Get16(framed, 2);
      if len > MAX_DEVICE_API_FRAME_LEN || len != |framed| - 4 then Err(FrameTooLarge) else Ok(framed[4..])
  }

  /** It accepts exactly what `write_frame` writes. */
  lemma SingleFrameIff(framed: Bytes, body: Bytes)
    ensures DecodeSingleFrame(framed) == Ok(body) <==> |body| <= MAX_DEVICE_API_FRAME_LEN && framed == Framed(body)
  {
    hide Be, FromBe;
    if |body| <= MAX_DEVICE_API_FRAME_LEN && framed == Framed(body) {
      Pow256Values();
      FromBeOfBe(|body|, 2);
      assert framed[2..4] == Be(|body|, 2) && framed[4..] == body;
    }
    if DecodeSingleFrame(framed) == Ok(body) {
      BeOfFromBe(framed[2..4]);
      assert framed == [framed[0], framed[1]] + framed[2..4] + framed[4..];
    }
  }

  /** Two start bytes and the length, high byte first. */
  lemma FramedBytes(body: Bytes)
    requires |body| <= 512
    ensures Framed(body) == [0x94, 0xc3, |body| / 0x100, |body| % 0x100] + body
  {
    TwoBytes(|body|);
  }

  /** What the reader makes of a stream by its first bytes: all but a start is
    * skipped, and a length above 512 is no frame. */
  lemma FirstBytesDecide(b: byte, high: byte, low: byte, tail: Bytes)
    ensures b != 0x94 ==> ReadFrame([b] + tail) == ReadFrame(tail)
    ensures ReadFrame([0x94, 0x94] + tail) == ReadFrame([0x94] + tail)
    ensures b != 0x94 && b != 0xc3 ==> ReadFrame([0x94, b] + tail) == ReadFrame(tail)
    ensures var len := Get16([high, low], 0);
            ReadFrame([0x94, 0xc3, high, low] + tail)
            == if len > 512 then ReadFrame(tail)
               else if |tail| < len then AirErrors.None
               else AirErrors.Some(Read(tail[..len], tail[len..]))
  {
    FirstByte(b, tail);
    FirstByte(0x94, tail);
    FirstByte(0x94, [0x94] + tail);
    FirstByte(0x94, [b] + tail);
    SecondByte(b, tail);
    SecondByte(0x94, tail);
    SecondByte(0xc3, [high, low] + tail);
    FirstByte(0x94, [0xc3, high, low] + tail);
    BothLengthBytes(high, low, tail);
    hide ReadFrame, SeekSecond, ReadBody, FromBe;
    TwoJoined(0x94, 0x94, tail);
    TwoJoined(0x94, b, tail);
    FourJoined(0x94, 0xc3, high, low, tail);
  }

  lemma TwoJoined(a: byte, b: byte, s: Bytes)
    ensures [a, b] + s == [a] + ([b] + s)
  {}

  lemma FourJoined(a: byte, b: byte, c: byte, d: byte, s: Bytes)
    ensures [a, b, c, d] + s == [a] + ([b, c, d] + s) && [b, c, d] + s == [b] + ([c, d] + s)
  {}

  lemma FirstByte(b: byte, tail: Bytes)
    ensures ReadFrame([b] + tail) == if b == 0x94 then SeekSecond(tail) else ReadFrame(tail)
  {
    assert ([b] + tail)[1..] == tail;
  }

  lemma SecondByte(b: byte, tail: Bytes)
    ensures SeekSecond([b] + tail)
         == if b == 0xc3 then ReadBody(tail) else if b == 0x94 then SeekSecond(tail) else ReadFrame(tail)
  {
    assert ([b] + tail)[1..] == tail;
  }

  lemma BothLengthBytes(high: byte, low: byte, tail: Bytes)
    ensures var len := Get16([high, low], 0);
            ReadBody([high, low] + tail)
            == if len > 512 then ReadFrame(tail)
               else if |tail| < len then AirErrors.None
               else AirErrors.Some(Read(tail[..len], tail[len..]))
  {
    hide ReadFrame, ReadBody, FromBe;
    var s, len := [high, low] + tail, Get16([high, low], 0);
    BodyStep(s);
    assert s[0..2] == [high, low] == [high, low][0..2];
    assert s[2..] == tail;
    if len <= |tail| {
      assert s[2..2 + len] == tail[..len];
      assert s[2 + len..] == tail[len..];
    }
  }

  lemma BodyStep(s: Bytes)
    requires |s| >= 2
    ensures var len := Get16(s, 0);
            ReadBody(s) == if len > 512 then ReadFrame(s[2..])
                           else if |s| < 2 + len then AirErrors.None
                           else AirErrors.Some(Read(s[2..2 + len], s[2 + len..]))
  {
    hide ReadFrame, FromBe;
  }

  /** Which error each buffer gets that is no single frame. */
  lemma SingleFrameRefusedBecause(framed: Bytes)
    ensures DecodeSingleFrame(framed) == Err(FrameCorrupt) <==> |framed| < 4 || framed[..2] != [0x94, 0xc3]
    ensures DecodeSingleFrame(framed) == Err(FrameTooLarge)
       <==> |framed| >= 4 && framed[..2] == [0x94, 0xc3]
            && (Get16(framed, 2) > 512 || Get16(framed, 2) != |framed| - 4)
  {
    hide FromBe;
  }
}
