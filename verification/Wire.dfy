/** The wire frame of the Rust core: a 12-byte header, up to 240 payload bytes
  * and a CRC-32C trailer.
  */
module Wire {
  import opened Words
  import opened BigEndian
  import opened AirErrors
  import Crc32c

  const PROTOCOL_MARKER: byte := 0xa1
  const FRAME_HEADER_BYTES := 12
  const FRAME_MIN_BYTES := 16
  const FRAME_MAX_BYTES := 256
  const FRAME_MAX_PAYLOAD := 240
  const MAX_FRAGMENTS := 32

  datatype WireProfile =
    | Wifi | Ble | HfBpsk | HfAfsk | VhfAfsk | VhfCpfsk | AmAudio | FmAudio | HamPacket | Meshtastic

  function ProfileCode(p: WireProfile): (c: byte)
    ensures c <= 9
  {
    match p
    case Wifi => 0 case Ble => 1 case HfBpsk => 2 case HfAfsk => 3 case VhfAfsk => 4
    case VhfCpfsk => 5 case AmAudio => 6 case FmAudio => 7 case HamPacket => 8 case Meshtastic => 9
  }

  function ProfileFrom(v: byte): (r: Result<WireProfile>)
    ensures r.Err? ==> r.error == InvalidProfile
    ensures r.Ok? <==> v <= 9
    ensures r.Ok? ==> ProfileCode(r.value) == v
  {
    match v
    case 0 => Ok(Wifi) case 1 => Ok(Ble) case 2 => Ok(HfBpsk) case 3 => Ok(HfAfsk) case 4 => Ok(VhfAfsk)
    case 5 => Ok(VhfCpfsk) case 6 => Ok(AmAudio) case 7 => Ok(FmAudio) case 8 => Ok(HamPacket)
    case 9 => Ok(Meshtastic) case _ => Err(InvalidProfile)
  }

  datatype SemanticClass = Telemetry | StateDelta | Acknowledgement | Control | Diagnostic

  function ClassCode(c: SemanticClass): (v: byte)
    ensures v <= 4
  {
    match c case Telemetry => 0 case StateDelta => 1 case Acknowledgement => 2 case Control => 3 case Diagnostic => 4
  }

  function ClassFrom(v: byte): (r: Result<SemanticClass>)
    ensures r.Err? ==> r.error == InvalidClass
    ensures r.Ok? <==> v <= 4
    ensures r.Ok? ==> ClassCode(r.value) == v
  {
    match v
    case 0 => Ok(Telemetry) case 1 => Ok(StateDelta) case 2 => Ok(Acknowledgement)
    case 3 => Ok(Control) case 4 => Ok(Diagnostic) case _ => Err(InvalidClass)
  }

  const FLAG_FEC: byte := 0x20
  const FLAG_SIGNED_ENVELOPE: byte := 0x80

  /** `self.0 & flag == flag` for a one-bit flag. */
  predicate Contains(flags: byte, flag: byte)
    requires flag > 0
  {
    flags / flag % 2 == 1
  }

  datatype SparseRadioFrame = SparseRadioFrame(
    profile: WireProfile, flags: byte, streamId: u16, sequence: u16, fragmentIndex: byte, fragmentCount: byte,
    class_: SemanticClass, priority: byte, stateTag: u16, payload: seq<byte>)

  function Validate(f: SparseRadioFrame): Result<()> {
    if f.priority > 15 || |f.payload| > FRAME_MAX_PAYLOAD then Err(InvalidLength)
    else if f.fragmentCount == 0 || f.fragmentCount > MAX_FRAGMENTS || f.fragmentIndex >= f.fragmentCount
    then Err(InvalidFragment)
    else if f.flags % 16 != 0 then Err(InvalidFlags)
    else Ok(())
  }

  predicate Valid(f: SparseRadioFrame) { Validate(f).Ok? }

  function Header(f: SparseRadioFrame): (h: seq<byte>)
    requires Valid(f)
    ensures |h| == FRAME_HEADER_BYTES
  {
    [PROTOCOL_MARKER, f.flags + ProfileCode(f.profile)] + Be(f.streamId, 2) + Be(f.sequence, 2)
    + [f.fragmentIndex, f.fragmentCount, 16 * ClassCode(f.class_) + f.priority, |f.payload|] + Be(f.stateTag, 2)
  }

  /** Bytes followed by their checksum. */
  function Sealed(body: seq<byte>): (s: seq<byte>)
    ensures |s| == |body| + 4
  {
    body + Be(Crc32c.Crc(body), 4)
  }

  function Encoded(f: SparseRadioFrame): (w: seq<byte>)
    requires Valid(f)
    ensures |w| == FRAME_MIN_BYTES + |f.payload|
  {
    Sealed(Header(f) + f.payload)
  }

  method Encode(f: SparseRadioFrame) returns (r: Result<seq<byte>>)
    ensures r == if Validate(f).Ok? then Ok(Encoded(f)) else Err(Validate(f).error)
  {
    var check := Validate(f);
    if check.Err? { return Err(check.error); }
    var out: seq<byte> := [];
    out := out + [PROTOCOL_MARKER];
    out := out + [f.flags + ProfileCode(f.profile)];
    out := out + Be(f.streamId, 2);
    out := out + Be(f.sequence, 2);
    out := out + [f.fragmentIndex];
    out := out + [f.fragmentCount];
    out := out + [ClassCode(f.class_) * 16 + f.priority];
    out := out + [|f.payload|];
    out := out + Be(f.stateTag, 2);
    assert out == Header(f);
    out := out + f.payload;
    var crc := Crc32c.BitwiseCrc32c(out);
    out := out + Be(crc, 4);
    return Ok(out);
  }

  function Decode(input: seq<byte>): Result<SparseRadioFrame> {
    if !(FRAME_MIN_BYTES <= |input| <= FRAME_MAX_BYTES) then Err(InvalidLength)
    else if input[0] / 16 != 0xa then Err(InvalidMarker)
    else if input[0] != PROTOCOL_MARKER then Err(UnsupportedVersion)
    else if |input| != FRAME_MIN_BYTES + input[9] then Err(InvalidLength)
    else
      var checkAt := |input| - 4;
      if Crc32c.Crc(input[..checkAt]) != Get32(input, checkAt) then Err(CrcMismatch)
      else
        var profile :- ProfileFrom(input[1] % 16);
        var class_ :- ClassFrom(input[8] / 16);
        var frame := SparseRadioFrame(
          profile, input[1] / 16 * 16, Get16(input, 2), Get16(input, 4), input[6], input[7],
          class_, input[8] % 16, Get16(input, 10), input[FRAME_HEADER_BYTES..checkAt]);
        var _ :- Validate(frame);
        Ok(frame)
  }

  lemma {:induction false} HeaderFields(f: SparseRadioFrame)
    requires Valid(f)
    ensures var h := Header(f);
            && h[0] == PROTOCOL_MARKER && h[1] == f.flags + ProfileCode(f.profile)
            && h[2..4] == Be(f.streamId, 2) && h[4..6] == Be(f.sequence, 2)
            && h[6] == f.fragmentIndex && h[7] == f.fragmentCount
            && h[8] == 16 * ClassCode(f.class_) + f.priority && h[9] == |f.payload|
            && h[10..12] == Be(f.stateTag, 2)
  {}

  /** Reading back a written frame. */
  lemma DecodeOfEncode(f: SparseRadioFrame)
    requires Valid(f)
    ensures Decode(Encoded(f)) == Ok(f)
  {
    hide Header, Crc32c.Crc;
    var w, h := Encoded(f), Header(f);
    HeaderFields(f);
    SealedParts(h + f.payload);
    var n := |h + f.payload|;
    assert w[..n] == h + f.payload;
    assert w[2..4] == h[2..4] && w[4..6] == h[4..6] && w[10..12] == h[10..12];
    assert w[12..n] == f.payload;
    Pow256Values();
    FromBeOfBe(f.streamId, 2);
    FromBeOfBe(f.sequence, 2);
    FromBeOfBe(f.stateTag, 2);
    NibblesSplit(f.flags, ProfileCode(f.profile));
    NibblesSplit(16 * ClassCode(f.class_), f.priority);
  }

  lemma SealedParts(body: seq<byte>)
    ensures var w := Sealed(body);
            && w[..|body|] == body && Get32(w, |body|) == Crc32c.Crc(body)
  {
    hide Crc32c.Crc;
    Pow256Values();
    FromBeOfBe(Crc32c.Crc(body), 4);
    assert Sealed(body)[|body|..|body| + 4] == Be(Crc32c.Crc(body), 4);
  }

  lemma NibblesSplit(hi: nat, lo: nat)
    requires hi % 16 == 0 && lo < 16
    ensures (hi + lo) % 16 == lo && (hi + lo) / 16 * 16 == hi
  {}

  /** What an accepted frame read from where. */
  lemma DecodedFields(input: seq<byte>, f: SparseRadioFrame)
    requires Decode(input) == Ok(f)
    ensures Valid(f) && 16 <= |input| && |input| == 16 + |f.payload|
    ensures input[0] == PROTOCOL_MARKER && input[1] == f.flags + ProfileCode(f.profile)
    ensures FromBe(input[2..4]) == f.streamId && FromBe(input[4..6]) == f.sequence
            && FromBe(input[10..12]) == f.stateTag
    ensures input[6] == f.fragmentIndex && input[7] == f.fragmentCount
    ensures input[8] == 16 * ClassCode(f.class_) + f.priority && input[9] == |f.payload|
    ensures input[12..|input| - 4] == f.payload && FromBe(input[|input| - 4..]) == Crc32c.Crc(input[..|input| - 4])
  {
    hide Crc32c.Crc, FromBe;
    assert input[|input| - 4..|input| - 4 + 4] == input[|input| - 4..];
  }

  /** Only the encoder's own output is accepted: a frame has one wire form. */
  lemma EncodeOfDecode(input: seq<byte>, f: SparseRadioFrame)
    requires Decode(input) == Ok(f)
    ensures Valid(f) && Encoded(f) == input
  {
    hide Crc32c.Crc, Decode, Validate, FromBe, Be, ProfileCode, ClassCode;
    DecodedFields(input, f);
    var at := |input| - 4;
    BeOfFromBe(input[2..4]);
    BeOfFromBe(input[4..6]);
    BeOfFromBe(input[10..12]);
    BeOfFromBe(input[at..]);
    assert Header(f) == input[..12];
    hide Header;
    assert Header(f) + f.payload == input[..at];
    assert input == input[..at] + input[at..];
  }

  // ----- the layout of the frame ---------------------------------------------------------------

  /** Every header byte in its place, and the checksum behind the payload, high
    * byte first. */
  lemma EncodedBytes(f: SparseRadioFrame)
    requires Valid(f)
    ensures Encoded(f)[..12]
         == [0xa1, f.flags + ProfileCode(f.profile), f.streamId / 0x100, f.streamId % 0x100, f.sequence / 0x100,
             f.sequence % 0x100, f.fragmentIndex, f.fragmentCount, 16 * ClassCode(f.class_) + f.priority, |f.payload|,
             f.stateTag / 0x100, f.stateTag % 0x100]
    ensures Encoded(f)[12..|Encoded(f)| - 4] == f.payload
    ensures var crc := Crc32c.Crc(Encoded(f)[..|Encoded(f)| - 4]);
            Encoded(f)[|Encoded(f)| - 4..] == Number32(crc)
  {
    TwoBytes(f.streamId);
    TwoBytes(f.sequence);
    TwoBytes(f.stateTag);
    hide Be, Crc32c.Crc, ProfileCode, ClassCode;
    var body := Header(f) + f.payload;
    FourBytes(Crc32c.Crc(body));
    assert Encoded(f) == body + Be(Crc32c.Crc(body), 4);
    assert Encoded(f)[..|body|] == body;
  }

  /** Numbers of the profiles and the classes on the wire. */
  lemma CodesAre()
    ensures ProfileCode(Wifi) == 0 && ProfileCode(Ble) == 1 && ProfileCode(HfBpsk) == 2 && ProfileCode(HfAfsk) == 3
            && ProfileCode(VhfAfsk) == 4 && ProfileCode(VhfCpfsk) == 5 && ProfileCode(AmAudio) == 6
            && ProfileCode(FmAudio) == 7 && ProfileCode(HamPacket) == 8 && ProfileCode(Meshtastic) == 9
    ensures ClassCode(Telemetry) == 0 && ClassCode(StateDelta) == 1 && ClassCode(Acknowledgement) == 2
            && ClassCode(Control) == 3 && ClassCode(Diagnostic) == 4
  {}

  lemma ValidIff(f: SparseRadioFrame)
    ensures Valid(f) <==>
              f.priority < 16 && |f.payload| <= 240 && f.fragmentIndex < f.fragmentCount <= 32 && f.flags % 16 == 0
    ensures Validate(f)
         == if f.priority >= 16 || |f.payload| > 240 then Err(InvalidLength)
            else if !(f.fragmentIndex < f.fragmentCount <= 32) then Err(InvalidFragment)
            else if f.flags % 16 != 0 then Err(InvalidFlags) else Ok(())
  {}

  /** Why a byte string is no frame. */
  lemma RefusedBecause(input: seq<byte>)
    requires Decode(input).Err?
    ensures var error := Decode(input).error;
            if |input| < 16 || |input| > 256 then error == InvalidLength
            else if !(0xa0 <= input[0] <= 0xaf) then error == InvalidMarker
            else if input[0] != 0xa1 then error == UnsupportedVersion
            else if |input| - 16 != input[9] then error == InvalidLength
            else if Get32(input, |input| - 4) != Crc32c.Crc(input[..|input| - 4]) then error == CrcMismatch
            else error in {InvalidProfile, InvalidClass, InvalidFragment}
  {
    hide Crc32c.Crc, Get32, Get16;
    if |input| >= 16 { assert input[1] / 16 * 16 % 16 == 0; }
  }
}
