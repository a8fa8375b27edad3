/** The "LMS1" envelope around a message body, signed or not. */
module Envelope {
  import opened Words
  import opened BigEndian
  import opened AirErrors
  import opened Wire
  import DeltaCodec
  import DeltaDecoder

  const ENVELOPE_HEADER_BYTES := 48
  const ENVELOPE_SIGNATURE_BYTES := 64
  const MAX_MESSAGE_BYTES := 7680

  /** "LMS1" */
  const ENVELOPE_MAGIC: seq<byte> := [76, 77, 83, 49]
  const ENVELOPE_VERSION: byte := 1

  type Hash16 = DeltaCodec.Hash16
  type Signature = s: seq<byte> | |s| == 64 witness seq(64, _ => 0)

  datatype SemanticEnvelope = SemanticEnvelope(
    class_: SemanticClass, priority: byte, sourceId: u32, epoch: u32, messageId: u32, logicalSequence: u64,
    stateHash: Hash16, body: seq<byte>, signature: Option<Signature>)

  function SignatureBytes(e: SemanticEnvelope): (s: seq<byte>)
    ensures |s| == if e.signature.Some? then ENVELOPE_SIGNATURE_BYTES else 0
  {
    if e.signature.Some? then e.signature.value else []
  }

  function Validate(e: SemanticEnvelope): Result<()> {
    if e.priority > 15 then Err(InvalidLength)
    else if |e.body| > 0xffff
         || ENVELOPE_HEADER_BYTES + |e.body| + |SignatureBytes(e)| > MAX_MESSAGE_BYTES then Err(LimitExceeded)
    else Ok(())
  }

  predicate Valid(e: SemanticEnvelope) { Validate(e).Ok? }

  function Header(e: SemanticEnvelope): (h: seq<byte>)
    requires Valid(e)
    ensures |h| == ENVELOPE_HEADER_BYTES
  {
    ENVELOPE_MAGIC
    + [ENVELOPE_VERSION, if e.signature.Some? then 1 else 0, ClassCode(e.class_), e.priority]
    + Be(e.sourceId, 4) + Be(e.epoch, 4) + Be(e.messageId, 4) + Be(e.logicalSequence, 8) + Be(|e.body|, 2)
    + e.stateHash + [|SignatureBytes(e)|, 0]
  }

  function Encoded(e: SemanticEnvelope): (s: seq<byte>)
    requires Valid(e)
    ensures |s| == ENVELOPE_HEADER_BYTES + |e.body| + |SignatureBytes(e)| <= MAX_MESSAGE_BYTES
  {
    Header(e) + e.body + SignatureBytes(e)
  }

  method Encode(e: SemanticEnvelope) returns (r: Result<seq<byte>>)
    ensures r == if Valid(e) then Ok(Encoded(e)) else Err(Validate(e).error)
  {
    var _ :- Validate(e);
    var signatureLen := if e.signature.Some? then ENVELOPE_SIGNATURE_BYTES else 0;
    var out := ENVELOPE_MAGIC;
    out := out + [ENVELOPE_VERSION];
    out := out + [if e.signature.Some? then 1 else 0];
    out := out + [ClassCode(e.class_)];
    out := out + [e.priority];
    out := out + Be(e.sourceId, 4);
    out := out + Be(e.epoch, 4);
    out := out + Be(e.messageId, 4);
    out := out + Be(e.logicalSequence, 8);
    out := out + Be(|e.body|, 2);
    out := out + e.stateHash;
    out := out + [signatureLen];
    out := out + [0];
    assert out == Header(e);
    hide Header;
    out := out + e.body;
    if e.signature.Some? { out := out + e.signature.value; }
    assert out == Encoded(e);
    return Ok(out);
  }

  function Decode(input: seq<byte>): Result<SemanticEnvelope> {
    if |input| < ENVELOPE_HEADER_BYTES then Err(Truncated)
    else if |input| > MAX_MESSAGE_BYTES then Err(LimitExceeded)
    else if input[..4] != ENVELOPE_MAGIC then Err(InvalidMarker)
    else if input[4] != ENVELOPE_VERSION then Err(UnsupportedVersion)
    else if input[5] > 1 then Err(InvalidFlags)
    else
      var signed := input[5] == 1;
      var class_ :- ClassFrom(input[6]);
      if input[7] > 15 || input[47] != 0 then Err(InvalidLength)
      else if input[46] != if signed then ENVELOPE_SIGNATURE_BYTES else 0 then Err(InvalidFlags)
      else if ENVELOPE_HEADER_BYTES + Get16(input, 28) + input[46] != |input| then Err(InvalidLength)
      else
        var bodyEnd := ENVELOPE_HEADER_BYTES + Get16(input, 28);
        var e := SemanticEnvelope(
          class_, input[7], Get32(input, 8), Get32(input, 12), Get32(input, 16), Get64(input, 20), input[30..46],
          input[ENVELOPE_HEADER_BYTES..bodyEnd], if signed then Some(input[bodyEnd..]) else None);
        var _ :- Validate(e);
        Ok(e)
  }

  lemma HeaderFields(e: SemanticEnvelope)
    requires Valid(e)
    ensures var h := Header(e);
            && h[..4] == ENVELOPE_MAGIC && h[4] == ENVELOPE_VERSION && h[5] == (if e.signature.Some? then 1 else 0)
            && h[6] == ClassCode(e.class_) && h[7] == e.priority
            && h[8..12] == Be(e.sourceId, 4) && h[12..16] == Be(e.epoch, 4) && h[16..20] == Be(e.messageId, 4)
            && h[20..28] == Be(e.logicalSequence, 8) && h[28..30] == Be(|e.body|, 2) && h[30..46] == e.stateHash
            && h[46] == |SignatureBytes(e)| && h[47] == 0
  {
    hide Be, ClassCode;
  }

  lemma SlicesOfPrefix(h: seq<byte>, tail: seq<byte>)
    requires |h| == 48
    ensures var w := h + tail;
            && w[..4] == h[..4] && w[8..12] == h[8..12] && w[12..16] == h[12..16] && w[16..20] == h[16..20]
            && w[20..28] == h[20..28] && w[28..30] == h[28..30] && w[30..46] == h[30..46] && w[48..] == tail
            && forall i :: 0 <= i < 48 ==> w[i] == h[i]
  {}

  lemma ClassInverts(c: SemanticClass)
    ensures ClassFrom(ClassCode(c)) == Ok(c)
  {}

  lemma DecodeOfEncode(e: SemanticEnvelope)
    requires Valid(e)
    ensures Decode(Encoded(e)) == Ok(e)
  {
    hide Header, Be, FromBe, ClassCode, ClassFrom;
    var w := Encoded(e);
    assert w == Header(e) + (e.body + SignatureBytes(e));
    SlicesOfPrefix(Header(e), e.body + SignatureBytes(e));
    HeaderFields(e);
    Pow256Values();
    FromBeOfBe(e.sourceId, 4);
    FromBeOfBe(e.epoch, 4);
    FromBeOfBe(e.messageId, 4);
    FromBeOfBe(e.logicalSequence, 8);
    FromBeOfBe(|e.body|, 2);
    ClassInverts(e.class_);
    var bodyEnd := 48 + |e.body|;
    assert w[48..bodyEnd] == e.body && w[bodyEnd..] == SignatureBytes(e);
  }

  lemma DecodedFields(input: seq<byte>, e: SemanticEnvelope)
    requires Decode(input) == Ok(e)
    ensures Valid(e) && |input| == 48 + |e.body| + |SignatureBytes(e)|
    ensures input[..4] == ENVELOPE_MAGIC && input[4] == ENVELOPE_VERSION
    ensures input[5] == (if e.signature.Some? then 1 else 0) && input[6] == ClassCode(e.class_)
            && input[7] == e.priority
    ensures FromBe(input[8..12]) == e.sourceId && FromBe(input[12..16]) == e.epoch
            && FromBe(input[16..20]) == e.messageId
    ensures FromBe(input[20..28]) == e.logicalSequence && FromBe(input[28..30]) == |e.body|
            && input[30..46] == e.stateHash
    ensures input[46] == |SignatureBytes(e)| && input[47] == 0
    ensures input[48..] == e.body + SignatureBytes(e)
  {
    hide FromBe, ClassCode, ClassFrom;
    var bodyEnd := 48 + |e.body|;
    assert input[48..] == input[48..bodyEnd] + input[bodyEnd..];
  }

  /** Only the encoder's own output is accepted. */
  lemma EncodeOfDecode(input: seq<byte>, e: SemanticEnvelope)
    requires Decode(input) == Ok(e)
    ensures Valid(e) && Encoded(e) == input
  {
    hide FromBe, Be, ClassCode, Decode, Validate, SignatureBytes;
    DecodedFields(input, e);
    BeOfFromBe(input[8..12]);
    BeOfFromBe(input[12..16]);
    BeOfFromBe(input[16..20]);
    BeOfFromBe(input[20..28]);
    BeOfFromBe(input[28..30]);
    assert Header(e) == input[..48];
    hide Header;
    assert input == input[..48] + input[48..];
    assert Encoded(e) == Header(e) + (e.body + SignatureBytes(e));
  }

  // ----- what a signature covers -------------------------------------------------

  /** The bytes a sender signs: everything but the signature. */
  function AuthenticationBytes(e: SemanticEnvelope): Result<seq<byte>> {
    if e.signature.None? then Err(InvalidFlags)
    else
      var _ :- Validate(e);
      Ok(Encoded(e)[..|Encoded(e)| - ENVELOPE_SIGNATURE_BYTES])
  }

  /** A signature binds every field: two signed envelopes that ask for the same
    * signed bytes differ at most in the signature. */
  lemma SignatureCoversEverything(e: SemanticEnvelope, f: SemanticEnvelope)
    requires AuthenticationBytes(e).Ok? && AuthenticationBytes(f).Ok?
    ensures AuthenticationBytes(e) == AuthenticationBytes(f) <==> f == e.(signature := f.signature)
  {
    hide Header, Decode, Encoded;
    SignedBytesAre(e);
    SignedBytesAre(f);
    if f == e.(signature := f.signature) {
      HeaderWithoutSignature(e, f);
    }
    if AuthenticationBytes(e) == AuthenticationBytes(f) {
      var g := e.(signature := f.signature);
      HeaderWithoutSignature(e, g);
      EncodedAlike(g, f);
      DecodeOfEncode(g);
      DecodeOfEncode(f);
    }
  }

  lemma SignedBytesAre(e: SemanticEnvelope)
    requires AuthenticationBytes(e).Ok?
    ensures Valid(e) && e.signature.Some? && AuthenticationBytes(e).value == Header(e) + e.body
  {
    hide Header;
    assert Encoded(e)[..|Encoded(e)| - ENVELOPE_SIGNATURE_BYTES] == Header(e) + e.body;
  }

  lemma EncodedAlike(e: SemanticEnvelope, f: SemanticEnvelope)
    requires Valid(e) && Valid(f) && Header(e) + e.body == Header(f) + f.body && e.signature == f.signature
    ensures Encoded(e) == Encoded(f)
  {
    hide Header;
  }

  lemma HeaderWithoutSignature(e: SemanticEnvelope, f: SemanticEnvelope)
    requires Valid(e) && e.signature.Some? && f.signature.Some? && f == e.(signature := f.signature)
    ensures Valid(f) && Header(e) == Header(f)
  {}

  // ----- deltas in envelopes --------------------------------------------------------

  function DeltaEnvelope(
    delta: DeltaCodec.SemanticDelta, priority: byte, logicalSequence: u64, signature: Option<Signature>)
    : SemanticEnvelope
    requires DeltaCodec.Valid(delta)
  {
    SemanticEnvelope(StateDelta, priority, delta.sourceId, delta.epoch, delta.messageId, logicalSequence,
                     delta.resultHash, DeltaCodec.Encoded(delta), signature)
  }

  method WrapDelta(
    delta: DeltaCodec.SemanticDelta, priority: byte, logicalSequence: u64, signature: Option<Signature>)
    returns (r: Result<SemanticEnvelope>)
    ensures r.Ok? <==> DeltaCodec.Valid(delta) && priority <= 15
    ensures r.Ok? ==> r.value == DeltaEnvelope(delta, priority, logicalSequence, signature) && Valid(r.value)
  {
    hide DeltaCodec.Valid, DeltaCodec.Encoded;
    var body :- DeltaCodec.Encode(delta);
    var e := SemanticEnvelope(StateDelta, priority, delta.sourceId, delta.epoch, delta.messageId, logicalSequence,
                              delta.resultHash, body, signature);
    var _ :- Validate(e);
    return Ok(e);
  }

  function UnwrapDelta(e: SemanticEnvelope): Result<DeltaCodec.SemanticDelta> {
    if e.class_ != StateDelta then Err(InvalidClass)
    else
      var delta :- DeltaDecoder.Decode(e.body);
      if delta.sourceId != e.sourceId || delta.epoch != e.epoch || delta.messageId != e.messageId
         || delta.resultHash != e.stateHash then Err(ResultStateMismatch)
      else Ok(delta)
  }

  /** Exactly the delta envelopes unwrap, each to its own delta in order. */
  lemma UnwrapIff(e: SemanticEnvelope, delta: DeltaCodec.SemanticDelta)
    ensures UnwrapDelta(e) == Ok(delta)
       <==> DeltaCodec.Valid(delta) && DeltaCodec.InOrder(delta)
            && e == DeltaEnvelope(delta, e.priority, e.logicalSequence, e.signature)
  {
    hide DeltaDecoder.Decode, DeltaCodec.Encoded, DeltaCodec.Valid, DeltaCodec.InOrder, DeltaCodec.Canonical;
    if UnwrapDelta(e) == Ok(delta) {
      DeltaDecoder.EncodeOfDecode(e.body, delta);
    }
    if DeltaCodec.Valid(delta) && DeltaCodec.InOrder(delta)
       && e == DeltaEnvelope(delta, e.priority, e.logicalSequence, e.signature) {
      DeltaDecoder.DecodeOfEncode(delta);
      DeltaCodec.CanonicalOfOrdered(delta);
    }
  }

  // ----- the layout ------------------------------------------------------------------------

  /** Every header byte in its place; then the body and the signature. */
  lemma EncodedBytes(e: SemanticEnvelope)
    requires Valid(e)
    ensures var w := Encoded(e);
            && w[0..8] == [76, 77, 83, 49, 1, if e.signature.Some? then 1 else 0, ClassCode(e.class_), e.priority]
            && w[8..12] == Number32(e.sourceId) && w[12..16] == Number32(e.epoch) && w[16..20] == Number32(e.messageId)
            && w[20..24] == Number32(e.logicalSequence / 0x1_0000_0000)
            && w[24..28] == Number32(e.logicalSequence % 0x1_0000_0000)
            && w[28..30] == [|e.body| / 0x100, |e.body| % 0x100] && w[30..46] == e.stateHash
            && w[46..48] == [if e.signature.Some? then 64 else 0, 0]
            && w[48..48 + |e.body|] == e.body
            && (e.signature.Some? ==> w[48 + |e.body|..] == e.signature.value)
  {
    HeaderBytes(e);
    hide ClassCode, Header, Number32;
    var h, w := Header(e), Encoded(e);
    var rest := e.body + SignatureBytes(e);
    assert w == h + rest;
    forall i, j | 0 <= i <= j <= 48 ensures w[i..j] == h[i..j] {}
    assert w[48..48 + |e.body|] == rest[..|e.body|] == e.body && w[48 + |e.body|..] == rest[|e.body|..];
  }

  lemma HeaderBytes(e: SemanticEnvelope)
    requires Valid(e)
    ensures var h := Header(e);
            && h[0..8] == [76, 77, 83, 49, 1, if e.signature.Some? then 1 else 0, ClassCode(e.class_), e.priority]
            && h[8..12] == Number32(e.sourceId) && h[12..16] == Number32(e.epoch) && h[16..20] == Number32(e.messageId)
            && h[20..24] == Number32(e.logicalSequence / 0x1_0000_0000)
            && h[24..28] == Number32(e.logicalSequence % 0x1_0000_0000)
            && h[28..30] == [|e.body| / 0x100, |e.body| % 0x100] && h[30..46] == e.stateHash
            && h[46..48] == [if e.signature.Some? then 64 else 0, 0]
  {
    HeaderFields(e);
    FourBytes(e.sourceId);
    FourBytes(e.epoch);
    FourBytes(e.messageId);
    TwoBytes(|e.body|);
    EightBytes(e.logicalSequence);
    hide Be, ClassCode, Header, Number32;
    var h := Header(e);
    assert h[0..4] == h[..4];
    assert h[20..24] == h[20..28][..4] && h[24..28] == h[20..28][4..];
  }

  lemma EightBytes(v: u64)
    ensures Be(v, 8)[..4] == Number32(v / 0x1_0000_0000) && Be(v, 8)[4..] == Number32(v % 0x1_0000_0000)
  {
    var high, low: u32 := v / 0x1_0000_0000, v % 0x1_0000_0000;
    FourBytes(high);
    FourBytes(low);
    BeSplit(high, low, 4);
    assert v == high * 0x1_0000_0000 + low;
    hide Be;
  }

  lemma {:induction false} BeSplit(high: u32, low: nat, n: nat)
    requires low < Pow256(n)
    ensures Be(high * Pow256(n) + low, 4 + n) == Be(high, 4) + Be(low, n)
  {
    if n > 0 {
      var p := Pow256(n - 1);
      assert Pow256(n) == 0x100 * p;
      ShiftedByte(high, p, low);
      BeSplit(high, low / 0x100, n - 1);
      BeStep(high * (0x100 * p) + low, 4 + n);
      BeStep(low, n);
      hide Pow256, Be;
      assert Be(high, 4) + (Be(low / 0x100, n - 1) + [low % 0x100])
          == Be(high, 4) + Be(low / 0x100, n - 1) + [low % 0x100];
    }
  }

  lemma BeStep(v: nat, n: nat)
    requires n > 0
    ensures Be(v, n) == Be(v / 0x100, n - 1) + [v % 0x100]
  {}

  lemma ShiftedByte(high: nat, p: nat, low: nat)
    ensures var v := high * (0x100 * p) + low;
            v / 0x100 == high * p + low / 0x100 && v % 0x100 == low % 0x100
  {
    assert high * (0x100 * p) == 0x100 * (high * p);
  }

  // ----- what is refused -----------------------------------------------------------

  /** An envelope is valid up to priority 15 and 7680 bytes in all. */
  lemma ValidIff(e: SemanticEnvelope)
    ensures var total := 48 + |e.body| + if e.signature.Some? then 64 else 0;
            Validate(e) == if e.priority >= 16 then Err(InvalidLength) else if total > 7680 then Err(LimitExceeded)
                           else Ok(())
  {}

  /** Which error each refused string gets, in the order of the checks. */
  lemma RefusedBecause(input: seq<byte>)
    requires Decode(input).Err?
    ensures var error := Decode(input).error;
            if |input| < 48 then error == Truncated
            else if |input| > 7680 then error == LimitExceeded
            else if input[..4] != [76, 77, 83, 49] then error == InvalidMarker
            else if input[4] != 1 then error == UnsupportedVersion
            else if input[5] > 1 then error == InvalidFlags
            else if input[6] > 4 then error == InvalidClass
            else if input[7] > 15 || input[47] != 0 then error == InvalidLength
            else if input[46] != (if input[5] == 1 then 64 else 0) then error == InvalidFlags
            else error == InvalidLength && 48 + Get16(input, 28) + input[46] as int != |input|
  {}

  /** An unsigned envelope has nothing to verify. */
  lemma UnsignedHasNone(e: SemanticEnvelope)
    requires Valid(e)
    ensures AuthenticationBytes(e) == Err(InvalidFlags) <==> e.signature.None?
    ensures AuthenticationBytes(e).Err? <==> e.signature.None?
  {}

  /** Which error each envelope gets that carries no delta of its own. */
  lemma UnwrapRefusedBecause(e: SemanticEnvelope)
    requires UnwrapDelta(e).Err?
    ensures var error, d := UnwrapDelta(e).error, DeltaDecoder.Decode(e.body);
            if e.class_ != StateDelta then error == InvalidClass
            else match d
                 case Err(why) => error == why
                 case Ok(delta) =>
                   error == ResultStateMismatch
                   && (delta.sourceId, delta.epoch, delta.messageId, delta.resultHash)
                      != (e.sourceId, e.epoch, e.messageId, e.stateHash)
  {
    hide DeltaDecoder.Decode;
  }
}
