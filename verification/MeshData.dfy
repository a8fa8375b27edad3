/** The Data, MeshPacket, ToRadio and FromRadio messages, as far as the
  * Meshtastic crate writes and reads them.  Unknown fields are skipped.
  */
module MeshData {
  import opened Words
  import opened MeshErrors
  import opened Protobuf
  import AirErrors

  const PRIVATE_APP_PORTNUM: u32 := 256
  const BROADCAST_ADDR: u32 := 0xffff_ffff

  const DATA_FIELD_PORTNUM: u32 := 1
  const DATA_FIELD_PAYLOAD: u32 := 2
  const MESH_PACKET_FIELD_FROM: u32 := 1
  const MESH_PACKET_FIELD_TO: u32 := 2
  const MESH_PACKET_FIELD_DECODED: u32 := 4
  const MESH_PACKET_FIELD_ENCRYPTED: u32 := 5
  const TO_RADIO_FIELD_PACKET: u32 := 1
  const FROM_RADIO_FIELD_PACKET: u32 := 2

  /** The longest byte string, `isize::MAX`. */
  const MAX_LENGTH := 0x7fff_ffff_ffff_ffff

  type Option<+T> = AirErrors.Option<T>

  // ----- writing -------------------------------------------------------------------

  function Data(portnum: u32, payload: Bytes): Bytes {
    VarintField(DATA_FIELD_PORTNUM, portnum) + BytesField(DATA_FIELD_PAYLOAD, payload)
  }

  function Packet(to: u32, data: Bytes): Bytes {
    Fixed32Field(MESH_PACKET_FIELD_TO, to) + BytesField(MESH_PACKET_FIELD_DECODED, data)
  }

  function ToRadio(to: u32, portnum: u32, payload: Bytes): Bytes {
    BytesField(TO_RADIO_FIELD_PACKET, Packet(to, Data(portnum, payload)))
  }

  method EncodeData(portnum: u32, payload: Bytes) returns (out: Bytes)
    requires |payload| < U64_SIZE
    ensures out == Data(portnum, payload)
  {
    hide VarintField, BytesField;
    out := EncodeVarintField(DATA_FIELD_PORTNUM, portnum, []);
    out := EncodeBytesField(DATA_FIELD_PAYLOAD, payload, out);
    assert [] + VarintField(DATA_FIELD_PORTNUM, portnum) == VarintField(DATA_FIELD_PORTNUM, portnum);
  }

  method EncodeToRadioData(to: u32, portnum: u32, payload: Bytes) returns (out: Bytes)
    requires |payload| <= MAX_LENGTH
    ensures out == ToRadio(to, portnum, payload)
  {
    hide VarintField, BytesField, Fixed32Field;
    LayersFit(to, portnum, payload);
    var data := EncodeData(portnum, payload);
    hide Data;
    var packet := EncodeFixed32Field(MESH_PACKET_FIELD_TO, to, []);
    assert [] + Fixed32Field(MESH_PACKET_FIELD_TO, to) == Fixed32Field(MESH_PACKET_FIELD_TO, to);
    packet := EncodeBytesField(MESH_PACKET_FIELD_DECODED, data, packet);
    out := EncodeBytesField(TO_RADIO_FIELD_PACKET, packet, []);
    assert [] + BytesField(TO_RADIO_FIELD_PACKET, packet) == BytesField(TO_RADIO_FIELD_PACKET, packet);
  }

  lemma VarintSize(v: nat)
    ensures v < 0x80 ==> |Varint(v)| == 1
    ensures v < 0x4000 ==> |Varint(v)| <= 2
    ensures v < 0x20_0000 ==> |Varint(v)| <= 3
    ensures v < 0x1_0000_0000 ==> |Varint(v)| <= 5
  {
    hide Varint;
    VarintStep(v);
    VarintStep(v / 0x80);
    VarintStep(v / 0x4000);
    VarintStep(v / 0x20_0000);
    VarintStep(v / 0x1000_0000);
  }

  lemma LongVarint(v: u64)
    ensures |Varint(v)| <= 10
  {
    VarintRoundTrip(v, []);
  }

  lemma VarintStep(v: nat)
    ensures |Varint(v)| == if v < 0x80 then 1 else 1 + |Varint(v / 0x80)|
  {}

  /** Sizes of all the layers, for any payload the radio could carry. */
  lemma DataSizes(to: u32, portnum: u32, payload: Bytes)
    requires |payload| <= 0xffff
    ensures |Data(portnum, payload)| <= |payload| + 10
    ensures |Packet(to, Data(portnum, payload))| <= |payload| + 19
    ensures |ToRadio(to, portnum, payload)| <= |payload| + 23
  {
    hide Varint;
    SmallTags();
    VarintSize(portnum);
    VarintSize(|payload|);
    VarintSize(|Data(portnum, payload)|);
    VarintSize(|Packet(to, Data(portnum, payload))|);
  }

  /** Longer ones, as long as memory allows a byte string to be. */
  lemma LayersFit(to: u32, portnum: u32, payload: Bytes)
    requires |payload| <= MAX_LENGTH
    ensures |Data(portnum, payload)| < U64_SIZE && |Packet(to, Data(portnum, payload))| < U64_SIZE
  {
    hide Varint;
    SmallTags();
    LongVarint(portnum);
    LongVarint(|payload|);
    LongVarint(|Data(portnum, payload)|);
  }

  lemma SmallTags()
    ensures |Tag(1, WIRE_VARINT)| == |Tag(2, WIRE_LEN)| == |Tag(2, WIRE_FIXED32)| == |Tag(4, WIRE_LEN)|
            == |Tag(1, WIRE_LEN)| == 1
  {}

  /** A frame within the mesh's unit makes a Data message of at most 233 bytes. */
  lemma DataFitsMesh(payload: Bytes)
    requires |payload| <= 227
    ensures |Data(PRIVATE_APP_PORTNUM, payload)| <= 233
    ensures |payload| == 227 ==> |Data(PRIVATE_APP_PORTNUM, payload)| == 233
  {
    SmallTags();
    VarintSize(|payload|);
    VarintSize(PRIVATE_APP_PORTNUM);
    assert |Varint(256)| == 2;
    if |payload| >= 0x80 { assert |Varint(|payload|)| == 1 + |Varint(|payload| / 0x80)|; }
    hide Varint;
  }

  // ----- reading -------------------------------------------------------------------

  datatype DataSoFar = DataSoFar(portnum: Option<u32>, payload: Bytes)

  function VisitData(s: DataSoFar, f: Field): Result<DataSoFar> {
    if f.number == DATA_FIELD_PORTNUM && f.value.VarintValue? then
      if f.value.v < 0x1_0000_0000 then Ok(s.(portnum := AirErrors.Some(f.value.v))) else Err(InvalidLength)
    else if f.number == DATA_FIELD_PAYLOAD && f.value.BytesValue? then Ok(s.(payload := f.value.bytes))
    else Ok(s)
  }

  datatype DecodedData = DecodedData(portnum: u32, payload: Bytes)

  function DecodedDataOf(bytes: Bytes): Result<DecodedData> {
    var s :- FoldFields(bytes, DataSoFar(AirErrors.None, []), VisitData);
    Ok(DecodedData(if s.portnum.Some? then s.portnum.value else 0, s.payload))
  }

  datatype PacketSoFar = PacketSoFar(from: nat, decoded: Option<Bytes>, sawEncrypted: bool)

  function VisitPacket(s: PacketSoFar, f: Field): Result<PacketSoFar> {
    if f.number == MESH_PACKET_FIELD_FROM && f.value.Fixed32Value? then Ok(s.(from := f.value.v))
    else if f.number == MESH_PACKET_FIELD_DECODED && f.value.BytesValue? then
      Ok(s.(decoded := AirErrors.Some(f.value.bytes)))
    else if f.number == MESH_PACKET_FIELD_ENCRYPTED && f.value.BytesValue? then Ok(s.(sawEncrypted := true))
    else Ok(s)
  }

  datatype ReceivedData = ReceivedData(from: nat, portnum: u32, payload: Bytes)

  function DecodedPacket(bytes: Bytes): Result<Option<ReceivedData>> {
    var s :- FoldFields(bytes, PacketSoFar(0, AirErrors.None, false), VisitPacket);
    if s.decoded.None? then if s.sawEncrypted then Err(NoDecodedData) else Ok(AirErrors.None)
    else
      var d :- DecodedDataOf(s.decoded.value);
      Ok(AirErrors.Some(ReceivedData(s.from, d.portnum, d.payload)))
  }

  /** The last `packet` field wins. */
  function VisitPacketField(number: u32): (Option<Bytes>, Field) -> Result<Option<Bytes>> {
    (s, f: Field) => Ok(if f.number == number && f.value.BytesValue? then AirErrors.Some(f.value.bytes) else s)
  }

  function DecodedFromRadio(bytes: Bytes): Result<Option<ReceivedData>> {
    var packet :- FoldFields(bytes, AirErrors.None, VisitPacketField(FROM_RADIO_FIELD_PACKET));
    if packet.None? then Ok(AirErrors.None) else DecodedPacket(packet.value)
  }

  method DecodeData(bytes: Bytes) returns (r: Result<DecodedData>)
    ensures r == DecodedDataOf(bytes)
  {
    hide FoldFields;
    var s :- ForEachField(bytes, DataSoFar(AirErrors.None, []), VisitData);
    return Ok(DecodedData(if s.portnum.Some? then s.portnum.value else 0, s.payload));
  }

  method DecodeMeshPacket(bytes: Bytes) returns (r: Result<Option<ReceivedData>>)
    ensures r == DecodedPacket(bytes)
  {
    hide FoldFields;
    var s :- ForEachField(bytes, PacketSoFar(0, AirErrors.None, false), VisitPacket);
    if s.decoded.None? {
      if s.sawEncrypted { return Err(NoDecodedData); }
      return Ok(AirErrors.None);
    }
    var d :- DecodeData(s.decoded.value);
    return Ok(AirErrors.Some(ReceivedData(s.from, d.portnum, d.payload)));
  }

  method DecodeFromRadio(bytes: Bytes) returns (r: Result<Option<ReceivedData>>)
    ensures r == DecodedFromRadio(bytes)
  {
    hide FoldFields;
    var packet :- ForEachField(bytes, AirErrors.None, VisitPacketField(FROM_RADIO_FIELD_PACKET));
    if packet.None? { return Ok(AirErrors.None); }
    r := DecodeMeshPacket(packet.value);
  }

  // ----- the node's echo ---------------------------------------------------------------

  /** A node handing our own packet back: the same MeshPacket in a FromRadio.
    * The error stands for the panic on a buffer that is no message. */
  function Echo(toRadio: Bytes): Result<Bytes> {
    var packet :- FoldFields(toRadio, AirErrors.None, VisitPacketField(TO_RADIO_FIELD_PACKET));
    Ok(BytesField(FROM_RADIO_FIELD_PACKET, if packet.Some? then packet.value else []))
  }

  lemma FoldOne<S(!new)>(bytes: Bytes, f: Field, s: S, visit: (S, Field) -> Result<S>)
    requires bytes != [] && ReadField(bytes + []) == Ok(Taken(f, |bytes|))
    ensures FoldFields(bytes, s, visit) == visit(s, f)
  {
    hide ReadField;
    FoldStep(bytes, [], f, s, visit);
    assert bytes + [] == bytes;
  }

  /** Folding over one bytes field. */
  lemma FoldBytesField<S(!new)>(number: u32, bytes: Bytes, s: S, visit: (S, Field) -> Result<S>)
    requires |bytes| < U64_SIZE
    ensures FoldFields(BytesField(number, bytes), s, visit) == visit(s, Field(number, BytesValue(bytes)))
  {
    BytesFieldReads(number, bytes, []);
    hide BytesField, ReadField;
    FoldOne(BytesField(number, bytes), Field(number, BytesValue(bytes)), s, visit);
  }

  lemma DataReads(portnum: u32, payload: Bytes)
    requires |payload| <= MAX_LENGTH
    ensures DecodedDataOf(Data(portnum, payload)) == Ok(DecodedData(portnum, payload))
  {
    hide FoldFields, VarintField, BytesField, ReadField;
    var start := DataSoFar(AirErrors.None, []);
    var rest := BytesField(DATA_FIELD_PAYLOAD, payload);
    VarintFieldReads(DATA_FIELD_PORTNUM, portnum, rest);
    FoldStep(VarintField(DATA_FIELD_PORTNUM, portnum), rest, Field(DATA_FIELD_PORTNUM, VarintValue(portnum)), start,
        VisitData);
    FoldBytesField(DATA_FIELD_PAYLOAD, payload, DataSoFar(AirErrors.Some(portnum), []), VisitData);
  }

  lemma PacketReads(to: u32, portnum: u32, payload: Bytes)
    requires |payload| <= MAX_LENGTH
    ensures DecodedPacket(Packet(to, Data(portnum, payload))) == Ok(AirErrors.Some(ReceivedData(0, portnum, payload)))
  {
    hide FoldFields, Fixed32Field, BytesField, ReadField, Data, DecodedDataOf;
    LayersFit(to, portnum, payload);
    var data := Data(portnum, payload);
    var start := PacketSoFar(0, AirErrors.None, false);
    var rest := BytesField(MESH_PACKET_FIELD_DECODED, data);
    Fixed32FieldReads(MESH_PACKET_FIELD_TO, to, rest);
    FoldStep(Fixed32Field(MESH_PACKET_FIELD_TO, to), rest, Field(MESH_PACKET_FIELD_TO, Fixed32Value(to)), start,
        VisitPacket);
    FoldBytesField(MESH_PACKET_FIELD_DECODED, data, start, VisitPacket);
    DataReads(portnum, payload);
  }

  /** What is sent, echoed, is read back: payload and port, and no sender. */
  lemma EchoRoundTrip(to: u32, portnum: u32, payload: Bytes)
    requires |payload| <= MAX_LENGTH
    ensures Echo(ToRadio(to, portnum, payload))
            == Ok(BytesField(FROM_RADIO_FIELD_PACKET, Packet(to, Data(portnum, payload))))
    ensures DecodedFromRadio(Echo(ToRadio(to, portnum, payload)).value)
         == Ok(AirErrors.Some(ReceivedData(0, portnum, payload)))
  {
    hide FoldFields, BytesField, Packet, Data, DecodedPacket;
    LayersFit(to, portnum, payload);
    var packet := Packet(to, Data(portnum, payload));
    FoldBytesField(TO_RADIO_FIELD_PACKET, packet, AirErrors.None, VisitPacketField(TO_RADIO_FIELD_PACKET));
    FoldBytesField(FROM_RADIO_FIELD_PACKET, packet, AirErrors.None, VisitPacketField(FROM_RADIO_FIELD_PACKET));
    PacketReads(to, portnum, payload);
  }

  // ----- the bytes ---------------------------------------------------------------------------

  /** Short and two-byte varints. */
  lemma VarintBytes(v: nat)
    ensures v < 0x80 ==> Varint(v) == [v]
    ensures 0x80 <= v < 0x4000 ==> Varint(v) == [v % 0x80 + 0x80, v / 0x80]
  {
    VarintTail(v);
    VarintTail(v / 0x80);
    hide Varint;
  }

  lemma VarintTail(v: nat)
    ensures Varint(v) == if v < 0x80 then [v] else [v % 0x80 + 0x80] + Varint(v / 0x80)
  {}

  lemma LeBytes(v: u32)
    ensures Le(v, 4) == [v % 0x100, v / 0x100 % 0x100, v / 0x1_0000 % 0x100, v / 0x100_0000]
  {
    assert Le(v, 4) == [v % 0x100] + Le(v / 0x100, 3);
    assert Le(v / 0x100, 3) == [v / 0x100 % 0x100] + Le(v / 0x1_0000, 2);
    assert Le(v / 0x1_0000, 2) == [v / 0x1_0000 % 0x100] + Le(v / 0x100_0000, 1);
    assert Le(v / 0x100_0000, 1) == [v / 0x100_0000 % 0x100] + Le(v / 0x1_0000_0000, 0);
  }

  /** Every byte that goes to the radio around a payload, destination included. */
  lemma ToRadioBytes(to: u32, payload: Bytes)
    ensures var data := [0x08, 0x80, 0x02, 0x12] + Varint(|payload|) + payload;
            var packet := [0x15, to % 0x100, to / 0x100 % 0x100, to / 0x1_0000 % 0x100, to / 0x100_0000, 0x22]
                          + Varint(|data|) + data;
            && Data(PRIVATE_APP_PORTNUM, payload) == data && Packet(to, data) == packet
            && ToRadio(to, PRIVATE_APP_PORTNUM, payload) == [0x0a] + Varint(|packet|) + packet
  {
    TagBytes();
    LeBytes(to);
    VarintBytes(256);
    hide Varint, Le, Tag;
    var data := [0x08, 0x80, 0x02, 0x12] + Varint(|payload|) + payload;
    assert Data(PRIVATE_APP_PORTNUM, payload) == data;
    var packet := [0x15, to % 0x100, to / 0x100 % 0x100, to / 0x1_0000 % 0x100, to / 0x100_0000, 0x22]
                  + Varint(|data|) + data;
    assert Packet(to, data) == packet;
  }

  lemma TagBytes()
    ensures Tag(1, WIRE_VARINT) == [0x08] && Tag(2, WIRE_LEN) == [0x12] && Tag(2, WIRE_FIXED32) == [0x15]
    ensures Tag(4, WIRE_LEN) == [0x22] && Tag(1, WIRE_LEN) == [0x0a] && Tag(1, WIRE_FIXED32) == [0x0d]
    ensures Tag(5, WIRE_LEN) == [0x2a]
  {}

  /** A packet with a sender: what comes in is the payload, its port and who sent
    * it. */
  lemma ReceivedFromSender(from: u32, to: u32, portnum: u32, payload: Bytes)
    requires |payload| <= MAX_LENGTH
    ensures var packet := SentPacket(from, to, portnum, payload);
            |packet| < U64_SIZE
            && DecodedFromRadio([0x12] + Varint(|packet|) + packet)
               == Ok(AirErrors.Some(ReceivedData(from, portnum, payload)))
  {
    TagBytes();
    SenderReads(from, to, portnum, payload);
    PacketFits64(to, portnum, payload);
    var packet := SentPacket(from, to, portnum, payload);
    hide SentPacket;
    BytesFieldIs(FROM_RADIO_FIELD_PACKET, packet);
    hide FoldFields, BytesField, Varint, DecodedPacket, Tag, Packet;
    FoldBytesField(FROM_RADIO_FIELD_PACKET, packet, AirErrors.None, VisitPacketField(FROM_RADIO_FIELD_PACKET));
  }

  /** A packet that names its sender first. */
  function SentPacket(from: u32, to: u32, portnum: u32, payload: Bytes): Bytes {
    [0x0d, from % 0x100, from / 0x100 % 0x100, from / 0x1_0000 % 0x100, from / 0x100_0000]
    + Packet(to, Data(portnum, payload))
  }

  lemma BytesFieldIs(number: u32, bytes: Bytes)
    ensures BytesField(number, bytes) == Tag(number, WIRE_LEN) + Varint(|bytes|) + bytes
  {}

  lemma PacketFits64(to: u32, portnum: u32, payload: Bytes)
    requires |payload| <= MAX_LENGTH
    ensures |Packet(to, Data(portnum, payload))| + 5 < U64_SIZE && |SentPacket(0, to, portnum, payload)| < U64_SIZE
  {
    hide Varint;
    SmallTags();
    LongVarint(portnum);
    LongVarint(|payload|);
    LongVarint(|Data(portnum, payload)|);
  }

  lemma SenderReads(from: u32, to: u32, portnum: u32, payload: Bytes)
    requires |payload| <= MAX_LENGTH
    ensures DecodedPacket(SentPacket(from, to, portnum, payload))
         == Ok(AirErrors.Some(ReceivedData(from, portnum, payload)))
    ensures |SentPacket(from, to, portnum, payload)| == 5 + |Packet(to, Data(portnum, payload))|
  {
    SenderField(from);
    hide FoldFields, Fixed32Field, BytesField, ReadField, Data, DecodedDataOf;
    LayersFit(to, portnum, payload);
    var data := Data(portnum, payload);
    var start, sent := PacketSoFar(0, AirErrors.None, false), PacketSoFar(from, AirErrors.None, false);
    var rest := BytesField(MESH_PACKET_FIELD_DECODED, data);
    Fixed32FieldReads(MESH_PACKET_FIELD_FROM, from, Packet(to, data));
    FoldStep(Fixed32Field(MESH_PACKET_FIELD_FROM, from), Packet(to, data),
             Field(MESH_PACKET_FIELD_FROM, Fixed32Value(from)), start, VisitPacket);
    Fixed32FieldReads(MESH_PACKET_FIELD_TO, to, rest);
    FoldStep(Fixed32Field(MESH_PACKET_FIELD_TO, to), rest, Field(MESH_PACKET_FIELD_TO, Fixed32Value(to)), sent,
             VisitPacket);
    FoldBytesField(MESH_PACKET_FIELD_DECODED, data, sent, VisitPacket);
    DataReads(portnum, payload);
  }

  lemma SenderField(from: u32)
    ensures Fixed32Field(MESH_PACKET_FIELD_FROM, from)
         == [0x0d, from % 0x100, from / 0x100 % 0x100, from / 0x1_0000 % 0x100, from / 0x100_0000]
  {
    TagBytes();
    LeBytes(from);
    hide Le, Tag;
  }

  /** A packet with nothing but encrypted bytes is refused. */
  lemma EncryptedRefused(bytes: Bytes)
    requires |bytes| < U64_SIZE
    ensures DecodedPacket([0x2a] + Varint(|bytes|) + bytes) == Err(NoDecodedData)
  {
    TagBytes();
    BytesFieldIs(MESH_PACKET_FIELD_ENCRYPTED, bytes);
    hide FoldFields, BytesField, Varint, Tag;
    FoldBytesField(MESH_PACKET_FIELD_ENCRYPTED, bytes, PacketSoFar(0, AirErrors.None, false), VisitPacket);
  }

  /** A packet with neither plain nor encrypted bytes is nothing to hand on, and no
    * error; and so is a message without a packet. */
  lemma NothingCarried(from: u32, number: u32, bytes: Bytes)
    requires |bytes| < U64_SIZE
    ensures DecodedPacket([0x0d, from % 0x100, from / 0x100 % 0x100, from / 0x1_0000 % 0x100, from / 0x100_0000])
         == Ok(AirErrors.None)
    ensures number != 2 ==> DecodedFromRadio(BytesField(number, bytes)) == Ok(AirErrors.None)
    ensures number != 4 && number != 5 ==> DecodedPacket(BytesField(number, bytes)) == Ok(AirErrors.None)
    ensures DecodedPacket(Fixed32Field(number, from)) == Ok(AirErrors.None)
  {
    SenderField(from);
    Fixed32FieldReads(MESH_PACKET_FIELD_FROM, from, []);
    hide FoldFields, BytesField, Fixed32Field, ReadField;
    FoldOne(Fixed32Field(MESH_PACKET_FIELD_FROM, from), Field(MESH_PACKET_FIELD_FROM, Fixed32Value(from)),
            PacketSoFar(0, AirErrors.None, false), VisitPacket);
    FoldBytesField(number, bytes, AirErrors.None, VisitPacketField(FROM_RADIO_FIELD_PACKET));
    FoldBytesField(number, bytes, PacketSoFar(0, AirErrors.None, false), VisitPacket);
    Fixed32FieldReads(number, from, []);
    FoldOne(Fixed32Field(number, from), Field(number, Fixed32Value(from)), PacketSoFar(0, AirErrors.None, false),
            VisitPacket);
  }

  /** A port of more than 32 bits is refused. */
  lemma WidePortRefused(port: u64)
    requires port >= 0x1_0000_0000
    ensures DecodedDataOf([0x08] + Varint(port)) == Err(InvalidLength)
  {
    TagBytes();
    VarintFieldReads(DATA_FIELD_PORTNUM, port, []);
    assert VarintField(DATA_FIELD_PORTNUM, port) == [0x08] + Varint(port) by { hide Varint; }
    hide FoldFields, VarintField, Varint, ReadField;
    FoldOne(VarintField(DATA_FIELD_PORTNUM, port), Field(DATA_FIELD_PORTNUM, VarintValue(port)),
            DataSoFar(AirErrors.None, []), VisitData);
  }
}
