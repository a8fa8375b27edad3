/** The C message structure, the envelope the transmitter writes for it, and the
  * checks the receiver makes before it hands the message on.
  */
module CMessage {
  import opened Words
  import opened BigEndian
  import opened CStatus
  import AirErrors
  import Wire
  import Envelope
  import CFrame

  type Hash16 = Envelope.Hash16
  type Signature = Envelope.Signature

  /** "LMS1" */
  const MAGIC: seq<byte> := [76, 77, 83, 49]
  const VERSION: byte := 1

  /** `body` holds the `body_len` bytes of the message, a 16-bit count. */
  datatype Message = Message(
    sourceId: u32, epoch: u32, messageId: u32, logicalSequence: u64, classId: byte, priority: byte,
    stateHash: Hash16, body: seq<byte>, authenticated: bool)

  /** The verify hook, if one is installed; true means accepted. */
  type Verify = AirErrors.Option<(seq<byte>, Signature) -> bool>

  predicate Sendable(m: Message) {
    m.classId <= CFrame.CLASS_MAX && m.priority <= 15 && EnvelopeLen(m) <= MAX_ASSEMBLED_BYTES
  }

  function SignatureLen(m: Message): nat { if m.authenticated then SIGNATURE_BYTES else 0 }

  function EnvelopeLen(m: Message): nat { SEMANTIC_HEADER_BYTES + |m.body| + SignatureLen(m) }

  function Header(m: Message): (h: seq<byte>)
    requires |m.body| <= 0xffff
    ensures |h| == SEMANTIC_HEADER_BYTES
  {
    MAGIC + [VERSION, if m.authenticated then 1 else 0, m.classId, m.priority]
    + Be(m.sourceId, 4) + Be(m.epoch, 4) + Be(m.messageId, 4) + Be(m.logicalSequence, 8) + Be(|m.body|, 2)
    + m.stateHash + [SignatureLen(m), 0]
  }

  /** The bytes the sign and verify hooks see. */
  function Canonical(m: Message): (s: seq<byte>)
    requires |m.body| <= 0xffff
    ensures |s| == SEMANTIC_HEADER_BYTES + |m.body|
  {
    Header(m) + m.body
  }

  function StateTag(m: Message): u16 { Get16(m.stateHash, 0) }

  // ----- acceptance -------------------------------------------------------------------

  /** What the outer frames of the message agreed on. */
  datatype Outer = Outer(classId: byte, priority: byte, stateTag: u16, authenticated: bool)

  datatype Parsed = Accepted(message: Message) | Refused(status: Status)

  predicate FormatError(a: seq<byte>, outer: Outer) {
    |a| < SEMANTIC_HEADER_BYTES || a[..4] != MAGIC || a[4] != VERSION || a[47] != 0
    || a[6] != outer.classId || a[7] != outer.priority || Get16(a, 30) != outer.stateTag
    || a[5] > 1
    || SEMANTIC_HEADER_BYTES + Get16(a, 28) + a[46] != |a| || (a[46] != 0 && a[46] != SIGNATURE_BYTES)
  }

  function Parse(a: seq<byte>, outer: Outer, verify: Verify): Parsed {
    if FormatError(a, outer) then Refused(ERR_FORMAT)
    else if (a[5] == 1) != (a[46] == SIGNATURE_BYTES) || outer.authenticated != (a[46] == SIGNATURE_BYTES)
    then Refused(ERR_AUTH)
    else
      var at := SEMANTIC_HEADER_BYTES + Get16(a, 28);
      if a[46] != 0 && (verify.None? || !verify.value(a[..at], a[at..])) then Refused(ERR_AUTH)
      else Accepted(Message(Get32(a, 8), Get32(a, 12), Get32(a, 16), Get64(a, 20), a[6], a[7], a[30..46],
                            a[SEMANTIC_HEADER_BYTES..at], a[46] != 0))
  }

  // ----- the Rust envelope -----------------------------------------------------------------

  /** The same message as a Rust envelope. */
  function AsEnvelope(m: Message, signature: AirErrors.Option<Signature>): Envelope.SemanticEnvelope
    requires m.classId <= CFrame.CLASS_MAX
  {
    Envelope.SemanticEnvelope(Wire.ClassFrom(m.classId).value, m.priority, m.sourceId, m.epoch, m.messageId,
                              m.logicalSequence, m.stateHash, m.body, signature)
  }

  /** Both languages write the same bytes. */
  lemma SameBytes(m: Message, signature: AirErrors.Option<Signature>)
    requires Sendable(m) && m.authenticated == signature.Some?
    ensures Envelope.Valid(AsEnvelope(m, signature))
    ensures var e := AsEnvelope(m, signature);
            Envelope.Encoded(e) == Canonical(m) + Envelope.SignatureBytes(e)
  {
    hide Be;
  }

  predicate Verifies(e: Envelope.SemanticEnvelope, verify: Verify) {
    e.signature.Some? ==>
      verify.Some? && Envelope.AuthenticationBytes(e).Ok?
      && verify.value(Envelope.AuthenticationBytes(e).value, e.signature.value)
  }

  /** The envelope, read by the Rust decoder, that C accepts: bound to the outer
    * frame in the same fields, and verified if it is signed. */
  ghost predicate RustAccepts(a: seq<byte>, outer: Outer, verify: Verify) {
    Envelope.Decode(a).Ok?
    && var e := Envelope.Decode(a).value;
       && Wire.ClassCode(e.class_) == outer.classId && e.priority == outer.priority
       && Get16(e.stateHash, 0) == outer.stateTag && e.signature.Some? == outer.authenticated
       && Verifies(e, verify)
  }

  lemma TagPlace(a: seq<byte>)
    requires |a| >= SEMANTIC_HEADER_BYTES
    ensures Get16(a[30..46], 0) == Get16(a, 30)
  {
    assert a[30..46][0..2] == a[30..32];
  }

  lemma AuthenticationOf(a: seq<byte>)
    requires Envelope.Decode(a).Ok? && Envelope.Decode(a).value.signature.Some?
    ensures var e, at := Envelope.Decode(a).value, SEMANTIC_HEADER_BYTES + Get16(a, 28);
            at == |a| - SIGNATURE_BYTES && e.signature.value == a[at..]
            && Envelope.AuthenticationBytes(e) == AirErrors.Ok(a[..at])
  {
    hide FromBe, Envelope.Decode, Envelope.Encoded;
    var e := Envelope.Decode(a).value;
    Envelope.EncodeOfDecode(a, e);
    Envelope.DecodedFields(a, e);
    assert a[48..] == e.body + e.signature.value;
    assert a[|a| - 64..] == a[48..][|e.body|..];
  }

  /** On every assembled message the C receiver and the Rust one accept alike,
    * and read the same message. */
  lemma LanguagesAcceptAlike(a: seq<byte>, outer: Outer, verify: Verify)
    requires |a| <= MAX_ASSEMBLED_BYTES && outer.classId <= CFrame.CLASS_MAX && outer.priority <= 15
    ensures Parse(a, outer, verify).Accepted? <==> RustAccepts(a, outer, verify)
    ensures Parse(a, outer, verify).Accepted? ==>
              var m := Parse(a, outer, verify).message;
              Sendable(m) && Envelope.Decode(a).value == AsEnvelope(m, Envelope.Decode(a).value.signature)
              && m.authenticated == Envelope.Decode(a).value.signature.Some?
  {
    hide FromBe, Wire.ClassFrom, Wire.ClassCode;
    if Envelope.Decode(a).Ok? {
      TagPlace(a);
      var e := Envelope.Decode(a).value;
      if e.signature.Some? { AuthenticationOf(a); }
    } else if |a| >= SEMANTIC_HEADER_BYTES {
    }
  }

  /** The message comes back from its own bytes, every field and every byte. */
  lemma ParseOfEnvelope(m: Message, signature: AirErrors.Option<Signature>, verify: Verify)
    requires Sendable(m) && m.authenticated == signature.Some?
    requires signature.Some? ==> verify.Some? && verify.value(Canonical(m), signature.value)
    ensures var a := Canonical(m) + Envelope.SignatureBytes(AsEnvelope(m, signature));
            Parse(a, Outer(m.classId, m.priority, StateTag(m), m.authenticated), verify) == Accepted(m)
  {
    var e := AsEnvelope(m, signature);
    assert Verifies(e, verify);
    hide Envelope.Decode, Envelope.Encoded, Canonical, Parse, Wire.ClassFrom, Wire.ClassCode, Verifies;
    var a := Canonical(m) + Envelope.SignatureBytes(e);
    var outer := Outer(m.classId, m.priority, StateTag(m), m.authenticated);
    SameBytes(m, signature);
    Envelope.DecodeOfEncode(e);
    if signature.Some? {
      AuthenticationOf(a);
      assert a[..|a| - 64] == Canonical(m);
    }
    LanguagesAcceptAlike(a, outer, verify);
    var m' := Parse(a, outer, verify).message;
    assert AsEnvelope(m', e.signature) == e;
  }

  /** A signed message whose signature is not accepted is an authentication error,
    * and so is one whose outer frames do not announce the signature. */
  lemma UnverifiedIsAuthError(m: Message, signature: Signature, verify: Verify, announced: bool)
    requires Sendable(m) && m.authenticated
    requires announced ==> verify.None? || !verify.value(Canonical(m), signature)
    ensures var a := Canonical(m) + signature;
            Parse(a, Outer(m.classId, m.priority, StateTag(m), announced), verify) == Refused(ERR_AUTH)
  {
    hide Canonical;
    var accepting: Verify := AirErrors.Some((_, _) => true);
    ParseOfEnvelope(m, AirErrors.Some(signature), accepting);
    var a := Canonical(m) + signature;
    SignedPlaces(a, Outer(m.classId, m.priority, StateTag(m), true), accepting, m);
    assert a[..|a| - 64] == Canonical(m) && a[|a| - 64..] == signature;
  }

  lemma SignedPlaces(a: seq<byte>, outer: Outer, verify: Verify, m: Message)
    requires Parse(a, outer, verify) == Accepted(m) && m.authenticated
    ensures !FormatError(a, outer) && a[5] == 1 && a[46] == 64 && SEMANTIC_HEADER_BYTES + Get16(a, 28) == |a| - 64
  {}

  /** Which status each assembled message gets that is refused: ERR_FORMAT by its
    * form or the outer frames, else ERR_AUTH. */
  lemma RefusedBecause(a: seq<byte>, outer: Outer, verify: Verify)
    ensures Parse(a, outer, verify) == Refused(ERR_FORMAT)
       <==> || |a| < 48 || a[..5] != [76, 77, 83, 49, 1] || a[5] > 1 || a[6] != outer.classId || a[7] != outer.priority
            || Get16(a, 30) != outer.stateTag || a[47] != 0 || (a[46] != 0 && a[46] != 64)
            || |a| - 48 != Get16(a, 28) + a[46] as int
    ensures Parse(a, outer, verify).Refused? ==> Parse(a, outer, verify).status in {ERR_FORMAT, ERR_AUTH}
  {
    hide FromBe;
    if |a| >= 48 { assert a[..5] == a[..4] + [a[4]]; }
  }
}
