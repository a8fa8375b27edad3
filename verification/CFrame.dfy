/** The C frame codec, and its agreement with the Rust one. */
module CFrame {
  import opened Words
  import opened BigEndian
  import opened CStatus
  import Crc32c
  import Wire

  const PROFILE_MAX := 9
  const CLASS_MAX := 4
  const FLAG_FEC := 2
  const FLAG_AUTHENTICATED := 8

  /** `payload` holds the `payload_len` bytes from the start of the frame's
    * buffer of 240.  The length field could be up to 255; the bytes it then
    * names beyond the buffer are whatever memory holds there. */
  datatype Frame = Frame(
    profile: byte, flags: byte, streamId: u16, sequence: u16, fragmentIndex: byte, fragmentCount: byte,
    classId: byte, priority: byte, stateTag: u16, payload: seq<byte>)

  function ValidateFrame(f: Frame): Status {
    if f.profile > PROFILE_MAX || f.flags > 15 || f.classId > CLASS_MAX || f.priority > 15 then ERR_FORMAT
    else if f.fragmentCount == 0 || f.fragmentCount > MAX_FRAGMENTS then ERR_FORMAT
    else if f.fragmentIndex >= f.fragmentCount then ERR_FORMAT
    else OK
  }

  /** A frame the fixed payload buffer can hold and the validator accepts. */
  predicate Valid(f: Frame): (v: bool)
    ensures v ==> Encodable(f)
  {
    |f.payload| <= MAX_FRAME_PAYLOAD && ValidateFrame(f).OK?
  }

  /** What the encoder accepts: the validator does not look at the length. */
  predicate Encodable(f: Frame) { |f.payload| < 0x100 && ValidateFrame(f).OK? }

  function Header(f: Frame): (h: seq<byte>)
    requires Encodable(f)
    ensures |h| == FRAME_HEADER_BYTES
  {
    [0xa1, 16 * f.flags + f.profile] + Be(f.streamId, 2) + Be(f.sequence, 2)
    + [f.fragmentIndex, f.fragmentCount, 16 * f.classId + f.priority, |f.payload|] + Be(f.stateTag, 2)
  }

  function Encoded(f: Frame): (w: seq<byte>)
    requires Encodable(f)
    ensures |w| == FRAME_HEADER_BYTES + |f.payload| + FRAME_CRC_BYTES
  {
    Wire.Sealed(Header(f) + f.payload)
  }

  /** Writes `bytes` at an offset of a buffer. */
  method Put(dst: array<byte>, at: nat, bytes: seq<byte>)
    requires at + |bytes| <= dst.Length
    modifies dst
    ensures dst[..] == old(dst[..at]) + bytes + old(dst[at + |bytes|..])
  {
    for i := 0 to |bytes|
      invariant forall k :: 0 <= k < dst.Length ==> dst[k] == if at <= k < at + i then bytes[k - at] else old(dst[k])
    {
      dst[at + i] := bytes[i];
    }
  }

  method FrameEncode(f: Frame, wire: array<byte>) returns (status: Status, wireLen: nat)
    requires |f.payload| < 0x100
    modifies wire
    ensures status == if !ValidateFrame(f).OK? then ValidateFrame(f)
                      else if 16 + |f.payload| > wire.Length then ERR_CAPACITY else OK
    ensures status.OK? ==> wireLen == |Encoded(f)| <= wire.Length && wire[..wireLen] == Encoded(f)
    ensures status.OK? ==> wire[wireLen..] == old(wire[16 + |f.payload|..])
    ensures !status.OK? ==> wire[..] == old(wire[..])
  {
    wireLen := 0;
    status := ValidateFrame(f);
    if !status.OK? { return; }
    var required := FRAME_HEADER_BYTES + |f.payload| + FRAME_CRC_BYTES;
    if required > wire.Length { return ERR_CAPACITY, 0; }
    hide Be, Crc32c.Crc;
    ghost var tail := wire[required..];
    PutHeader(f, wire);
    assert wire[required..] == wire[FRAME_HEADER_BYTES..][|f.payload| + FRAME_CRC_BYTES..] == tail;
    Put(wire, FRAME_HEADER_BYTES, f.payload);
    assert wire[required..] == tail;
    assert wire[..required - FRAME_CRC_BYTES] == Header(f) + f.payload;
    var crc := Crc32c.NibbleCrc32c(wire[..required - FRAME_CRC_BYTES]);
    Put(wire, required - FRAME_CRC_BYTES, Be(crc, 4));
    assert wire[required..] == tail;
    assert wire[..required] == Wire.Sealed(Header(f) + f.payload);
    return OK, required;
  }

  method PutHeader(f: Frame, wire: array<byte>)
    requires Encodable(f) && wire.Length >= FRAME_HEADER_BYTES
    modifies wire
    ensures wire[..FRAME_HEADER_BYTES] == Header(f) && wire[FRAME_HEADER_BYTES..] == old(wire[FRAME_HEADER_BYTES..])
  {
    hide Be;
    wire[0] := 0xa1;
    wire[1] := 16 * f.flags + f.profile;
    var b := Be(f.streamId, 2);
    wire[2], wire[3] := b[0], b[1];
    var c := Be(f.sequence, 2);
    wire[4], wire[5] := c[0], c[1];
    wire[6] := f.fragmentIndex;
    wire[7] := f.fragmentCount;
    wire[8] := 16 * f.classId + f.priority;
    wire[9] := |f.payload|;
    var d := Be(f.stateTag, 2);
    wire[10], wire[11] := d[0], d[1];
  }

  datatype Outcome = Decoded(frame: Frame) | Rejected(status: Status)

  function Decode(wire: seq<byte>): Outcome {
    if |wire| < FRAME_HEADER_BYTES + FRAME_CRC_BYTES || |wire| > MAX_WIRE_BYTES then Rejected(ERR_FORMAT)
    else if wire[0] != 0xa1 then Rejected(if wire[0] / 16 == 0xa then ERR_VERSION else ERR_FORMAT)
    else if |wire| != FRAME_HEADER_BYTES + wire[9] + FRAME_CRC_BYTES then Rejected(ERR_FORMAT)
    else
      var at := |wire| - FRAME_CRC_BYTES;
      if Get32(wire, at) != Crc32c.Crc(wire[..at]) then Rejected(ERR_CRC)
      else
        var f := Frame(wire[1] % 16, wire[1] / 16, Get16(wire, 2), Get16(wire, 4), wire[6], wire[7],
                       wire[8] / 16, wire[8] % 16, Get16(wire, 10), wire[FRAME_HEADER_BYTES..at]);
        if ValidateFrame(f).OK? then Decoded(f) else Rejected(ERR_FORMAT)
  }

  // ------------------------------------------------- agreement of the languages

  /** The same frame in the two representations: C keeps the flags in a low
    * nibble and enumerations as numbers. */
  predicate Same(f: Frame, g: Wire.SparseRadioFrame) {
    f.profile == Wire.ProfileCode(g.profile) && 16 * f.flags == g.flags && f.streamId == g.streamId
    && f.sequence == g.sequence && f.fragmentIndex == g.fragmentIndex && f.fragmentCount == g.fragmentCount
    && f.classId == Wire.ClassCode(g.class_) && f.priority == g.priority && f.stateTag == g.stateTag
    && f.payload == g.payload
  }

  lemma SameValid(f: Frame, g: Wire.SparseRadioFrame)
    requires Same(f, g)
    ensures Valid(f) <==> Wire.Valid(g)
    ensures Valid(f) ==> Encoded(f) == Wire.Encoded(g)
  {}

  /** Every byte string is accepted by both decoders or by neither, and both
    * read the same frame from it. */
  lemma DecodersAgree(wire: seq<byte>)
    ensures Decode(wire).Decoded? <==> Wire.Decode(wire).Ok?
    ensures Decode(wire).Decoded? ==> Same(Decode(wire).frame, Wire.Decode(wire).value)
  {
    hide Crc32c.Crc, Get16, Get32;
    if |wire| >= 16 {
      assert wire[1] / 16 * 16 % 16 == 0;
    }
  }

  /** The Rust view of a valid C frame. */
  function AsRust(f: Frame): (g: Wire.SparseRadioFrame)
    requires Valid(f)
    ensures Same(f, g) && Wire.Valid(g)
  {
    Wire.SparseRadioFrame(Wire.ProfileFrom(f.profile).value, 16 * f.flags, f.streamId, f.sequence, f.fragmentIndex,
                          f.fragmentCount, Wire.ClassFrom(f.classId).value, f.priority, f.stateTag, f.payload)
  }

  /** The C decoder inverts the C encoder, and accepts nothing else. */
  lemma RoundTrip(f: Frame)
    requires Valid(f)
    ensures Decode(Encoded(f)) == Decoded(f)
  {
    hide Crc32c.Crc, Decode, Wire.Decode;
    var g := AsRust(f);
    SameValid(f, g);
    Wire.DecodeOfEncode(g);
    DecodersAgree(Encoded(f));
  }

  /** The encoder accepts lengths its frame cannot hold; no decoder reads what it
    * writes for them. */
  lemma DecodedIffHeld(f: Frame)
    requires Encodable(f)
    ensures Decode(Encoded(f)) == (if |f.payload| <= MAX_FRAME_PAYLOAD then Decoded(f) else Rejected(ERR_FORMAT))
  {
    hide Encoded;
    if |f.payload| <= MAX_FRAME_PAYLOAD { RoundTrip(f); }
  }

  lemma Canonical(wire: seq<byte>)
    requires Decode(wire).Decoded?
    ensures Valid(Decode(wire).frame) && Encoded(Decode(wire).frame) == wire
  {
    hide Crc32c.Crc, Wire.Decode, Encoded;
    DecodersAgree(wire);
    Wire.EncodeOfDecode(wire, Wire.Decode(wire).value);
    SameValid(Decode(wire).frame, Wire.Decode(wire).value);
  }

  /** What is refused, and with which status. */
  lemma RefusedBecause(wire: seq<byte>)
    requires Decode(wire).Rejected?
    ensures var status := Decode(wire).status;
            if |wire| < 16 || |wire| > 256 then status == ERR_FORMAT
            else if 0xa0 <= wire[0] <= 0xaf && wire[0] != 0xa1 then status == ERR_VERSION
            else if wire[0] != 0xa1 || |wire| - 16 != wire[9] then status == ERR_FORMAT
            else if Get32(wire, |wire| - 4) != Crc32c.Crc(wire[..|wire| - 4]) then status == ERR_CRC
            else status == ERR_FORMAT
  {
    hide Crc32c.Crc, Get32, Get16;
  }

  lemma EncodableIff(f: Frame)
    ensures Encodable(f) <==>
              f.profile <= 9 && f.flags < 16 && f.classId <= 4 && f.priority < 16
              && f.fragmentIndex < f.fragmentCount <= 32 && |f.payload| < 0x100
    ensures Valid(f) <==> Encodable(f) && |f.payload| <= 240
    ensures !Encodable(f) && |f.payload| < 0x100 ==> ValidateFrame(f) == ERR_FORMAT
  {}
}
