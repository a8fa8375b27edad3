/** The C transmitter: an envelope is built once and then polled out as blocks,
  * one frame each, coded and interleaved for the channel.
  */
module CTransmitter {
  import opened Words
  import opened Common
  import opened BigEndian
  import opened BitBuffers
  import opened CStatus
  import opened CMessage
  import AirErrors
  import Trellis
  import CFec
  import CFrame
  import Interleaver

  datatype ProfileConfig = ProfileConfig(profile: byte, fragmentPayloadBytes: byte, useFec: byte, interleaveRows: byte)

  predicate ValidProfile(p: ProfileConfig) {
    p.profile <= CFrame.PROFILE_MAX && 0 < p.fragmentPayloadBytes <= MAX_FRAME_PAYLOAD
    && p.useFec <= 1 && p.interleaveRows <= 64 && p.interleaveRows != 1
  }

  function ProfileDefaults(profile: byte): AirErrors.Option<ProfileConfig> {
    match profile
    case 0 => AirErrors.Some(ProfileConfig(0, 240, 0, 0))
    case 1 => AirErrors.Some(ProfileConfig(1, 180, 0, 0))
    case 2 => AirErrors.Some(ProfileConfig(2, 224, 1, 8))
    case 3 => AirErrors.Some(ProfileConfig(3, 64, 1, 16))
    case 4 => AirErrors.Some(ProfileConfig(4, 128, 1, 16))
    case 5 => AirErrors.Some(ProfileConfig(5, 160, 1, 16))
    case 6 => AirErrors.Some(ProfileConfig(6, 96, 1, 16))
    case 7 => AirErrors.Some(ProfileConfig(7, 160, 1, 8))
    case 8 => AirErrors.Some(ProfileConfig(8, 240, 0, 0))
    case 9 => AirErrors.Some(ProfileConfig(9, 211, 0, 0))
    case _ => AirErrors.None
  }

  // ----- fragment counts ---------------------------------------------------------------

  /** The count as the transmitter keeps it, in eight bits. */
  function CastCount(length: nat, payloadBytes: nat): byte
    requires payloadBytes > 0
  {
    DivCeil(length, payloadBytes) % 0x100
  }

  /** The cast count never promises more than the envelope holds. */
  lemma CastCountInside(length: nat, payloadBytes: nat, i: nat)
    requires payloadBytes > 0 && length > 0 && i < CastCount(length, payloadBytes)
    ensures i * payloadBytes < length
  {
    DivCeilBounds(length, payloadBytes);
    hide DivCeil;
    Scaled(i, DivCeil(length, payloadBytes) - 1, payloadBytes);
  }

  /** The frames cover the envelope exactly when the count fits its eight bits. */
  lemma CountCoversIff(length: nat, payloadBytes: nat)
    requires payloadBytes > 0 && length > 0
    ensures CastCount(length, payloadBytes) * payloadBytes >= length <==> DivCeil(length, payloadBytes) <= 255
  {
    DivCeilBounds(length, payloadBytes);
    hide DivCeil;
    var q := DivCeil(length, payloadBytes);
    if q > 255 {
      Scaled(CastCount(length, payloadBytes), q - 1, payloadBytes);
    }
  }

  /** No default profile comes near the wrap. */
  lemma DefaultsNeverWrap(profile: byte, length: nat)
    requires ProfileDefaults(profile).Some? && length <= MAX_ASSEMBLED_BYTES
    ensures ValidProfile(ProfileDefaults(profile).value)
    ensures DivCeil(length, ProfileDefaults(profile).value.fragmentPayloadBytes) <= 120
  {}

  // ----- what is sent ------------------------------------------------------------------------

  /** Everything the frames of one message depend on. */
  datatype Sending = Sending(
    profile: ProfileConfig, streamId: u16, sequence: u16, classId: byte, priority: byte, stateTag: u16,
    authenticated: bool, envelope: seq<byte>, count: byte)

  ghost predicate SendingOk(s: Sending) {
    ValidProfile(s.profile) && s.classId <= CFrame.CLASS_MAX && s.priority <= 15
    && SEMANTIC_HEADER_BYTES <= |s.envelope| <= MAX_ASSEMBLED_BYTES
    && 0 < s.count <= MAX_FRAGMENTS && s.count == CastCount(|s.envelope|, s.profile.fragmentPayloadBytes)
  }

  function FrameAt(s: Sending, i: nat): (f: CFrame.Frame)
    requires SendingOk(s) && i < s.count
    ensures CFrame.Valid(f)
  {
    var p := s.profile.fragmentPayloadBytes;
    CastCountInside(|s.envelope|, p, i);
    assert (i + 1) * p == i * p + p;
    CFrame.Frame(s.profile.profile, (if s.profile.useFec != 0 then CFrame.FLAG_FEC else 0)
                                    + (if s.authenticated then CFrame.FLAG_AUTHENTICATED else 0),
                 s.streamId, s.sequence, i, s.count, s.classId, s.priority, s.stateTag,
                 s.envelope[i * p..Least((i + 1) * p, |s.envelope|)])
  }

  datatype Block = Block(rawLen: u16, bitLen: u16, fec: byte, interleaveRows: byte, data: seq<byte>)

  /** Coded bits of one frame before interleaving. */
  function CodedBits(p: ProfileConfig, f: CFrame.Frame): (bits: seq<bool>)
    requires CFrame.Valid(f)
  {
    if p.useFec != 0 then Trellis.Codeword(BitsOf(CFrame.Encoded(f))) else BitsOf(CFrame.Encoded(f))
  }

  /** The bits of one frame as the channel carries them. */
  function ChannelBits(p: ProfileConfig, f: CFrame.Frame): (bits: seq<bool>)
    requires ValidProfile(p) && CFrame.Valid(f)
    ensures |bits| == |CodedBits(p, f)|
  {
    hide BitsOf, Trellis.Codeword, CFrame.Encoded;
    var bits := CodedBits(p, f);
    if p.interleaveRows == 0 then bits
    else
      Interleaver.Interleaved(bits, Interleaver.Columns(|bits|, p.interleaveRows))
  }

  /** The block carries this frame. */
  ghost predicate Carries(b: Block, p: ProfileConfig, f: CFrame.Frame)
    requires ValidProfile(p) && CFrame.Valid(f)
  {
    && b.rawLen == |CFrame.Encoded(f)| && b.fec == p.useFec && b.interleaveRows == p.interleaveRows
    && |b.data| == FEC_MAX_CODED_BYTES && b.bitLen == |ChannelBits(p, f)| <= 8 * FEC_MAX_CODED_BYTES
    && BitsOf(b.data)[..b.bitLen] == ChannelBits(p, f)
  }

  // ----- one block -----------------------------------------------------------------------------

  lemma EncodedSize(f: CFrame.Frame)
    requires CFrame.Valid(f)
    ensures 16 <= |CFrame.Encoded(f)| <= MAX_WIRE_BYTES
  {}

  method CodeFrame(p: ProfileConfig, f: CFrame.Frame, raw: array<byte>, coded: array<byte>)
      returns (status: Status, bitLen: nat)
    requires ValidProfile(p) && CFrame.Valid(f) && raw != coded
    requires raw.Length >= |CFrame.Encoded(f)| && raw[..|CFrame.Encoded(f)|] == CFrame.Encoded(f)
    requires coded.Length == FEC_MAX_CODED_BYTES
    modifies coded
    ensures status.OK? && bitLen == |CodedBits(p, f)| <= 8 * FEC_MAX_CODED_BYTES
    ensures bitLen > 0 && BitsOf(coded[..])[..bitLen] == CodedBits(p, f)
  {
    hide CFrame.Encoded, Trellis.Codeword, GetBit, CFrame.Valid, CFrame.ValidateFrame;
    var rawLen := |CFrame.Encoded(f)|;
    EncodedSize(f);
    if p.useFec != 0 {
      status, bitLen := CFec.FecEncode(raw[..rawLen], coded);
    } else {
      bitLen := rawLen * 8;
      CFrame.Put(coded, 0, raw[..rawLen]);
      BitsOfPrefix(coded[..], rawLen);
      assert coded[..rawLen] == CFrame.Encoded(f);
      status := OK;
    }
  }

  method SpreadBits(p: ProfileConfig, ghost f: CFrame.Frame, coded: array<byte>, bitLen: nat, data: array<byte>)
      returns (status: Status)
    requires ValidProfile(p) && CFrame.Valid(f) && coded != data
    requires coded.Length == data.Length == FEC_MAX_CODED_BYTES
    requires 0 < bitLen <= 8 * FEC_MAX_CODED_BYTES && bitLen == |CodedBits(p, f)|
    requires BitsOf(coded[..])[..bitLen] == CodedBits(p, f)
    modifies data
    ensures status.OK? && BitsOf(data[..])[..bitLen] == ChannelBits(p, f)
  {
    hide CFrame.Encoded, CodedBits, GetBit, CFrame.Valid, Interleaver.Interleaved, Interleaver.Columns;
    if p.interleaveRows != 0 {
      status := Interleaver.InterleaveBits(coded, bitLen, data, p.interleaveRows);
    } else {
      var n := (bitLen + 7) / 8;
      CFrame.Put(data, 0, coded[..n]);
      status := OK;
      BitsOfPrefix(data[..], n);
      BitsOfPrefix(coded[..], n);
      assert data[..n] == coded[..n];
      assert BitsOf(data[..])[..bitLen] == BitsOf(data[..n])[..bitLen];
      assert BitsOf(coded[..])[..bitLen] == BitsOf(coded[..n])[..bitLen];
    }
  }

  /** Frame, code and interleave: on a valid frame nothing in it can fail. */
  method EmitFrame(p: ProfileConfig, f: CFrame.Frame) returns (status: Status, block: Block)
    requires ValidProfile(p) && CFrame.Valid(f)
    ensures status.OK? && Carries(block, p, f)
  {
    hide CFrame.Encoded, CodedBits, ChannelBits, BitsOf;
    block := Block(0, 0, 0, 0, []);
    var raw := new byte[MAX_WIRE_BYTES](_ => 0);
    var rawLen;
    status, rawLen := CFrame.FrameEncode(f, raw);
    if !status.OK? { return; }
    var coded := new byte[FEC_MAX_CODED_BYTES](_ => 0);
    var bitLen;
    status, bitLen := CodeFrame(p, f, raw, coded);
    if !status.OK? { return; }
    var data := new byte[FEC_MAX_CODED_BYTES](_ => 0);
    status := SpreadBits(p, f, coded, bitLen, data);
    if !status.OK? { return; }
    block := Block(rawLen, bitLen, p.useFec, p.interleaveRows, data[..]);
  }

  // ----- the phase machine -----------------------------------------------------------------------

  datatype Phase = Idle | Emitting | Done | Failed

  type Sign = AirErrors.Option<seq<byte> -> AirErrors.Option<Signature>>

  /** What `begin` decides, before it looks at the fragment count. */
  function BeginError(phase: Phase, sign: Sign, m: Message): Status
    requires |m.body| <= 0xffff
  {
    if m.classId > CFrame.CLASS_MAX || m.priority > 15 then ERR_ARGUMENT
    else if phase == Emitting then ERR_STATE
    else if m.authenticated && sign.None? then ERR_AUTH
    else if EnvelopeLen(m) > MAX_ASSEMBLED_BYTES then ERR_CAPACITY
    else if m.authenticated && sign.value(Canonical(m)).None? then ERR_AUTH
    else OK
  }

  /** The signature the message goes out with. */
  function SignatureOf(sign: Sign, m: Message): AirErrors.Option<Signature>
    requires |m.body| <= 0xffff && (m.authenticated ==> sign.Some?)
  {
    if m.authenticated then sign.value(Canonical(m)) else AirErrors.None
  }

  function EnvelopeOf(sign: Sign, m: Message): (s: seq<byte>)
    requires |m.body| <= 0xffff && BeginError(Idle, sign, m).OK?
    ensures |s| == EnvelopeLen(m)
  {
    Canonical(m) + if m.authenticated then SignatureOf(sign, m).value else []
  }

  /** Begin sends exactly the messages whose cast fragment count is 1 to 32. */
  function BeginStatus(phase: Phase, sign: Sign, p: ProfileConfig, m: Message): Status
    requires |m.body| <= 0xffff && ValidProfile(p)
  {
    var e := BeginError(phase, sign, m);
    if !e.OK? then e
    else if 0 < CastCount(EnvelopeLen(m), p.fragmentPayloadBytes) <= MAX_FRAGMENTS then OK else ERR_CAPACITY
  }

  /** Failures of the hooks and of the count leave the transmitter failed, the
    * others leave it as it was. */
  function PhaseAfterBegin(phase: Phase, sign: Sign, p: ProfileConfig, m: Message): Phase
    requires |m.body| <= 0xffff && ValidProfile(p)
  {
    var e := BeginError(phase, sign, m);
    if e.ERR_AUTH? then Failed
    else if !e.OK? then phase
    else if BeginStatus(phase, sign, p, m).OK? then Emitting else Failed
  }

  class Transmitter {
    const profile: ProfileConfig
    const sign: Sign
    const streamId: u16
    const envelope: array<byte>
    var nextSequence: u16
    var activeSequence: u16
    var fragmentCount: byte
    var fragmentIndex: byte
    var classId: byte
    var priority: byte
    var stateTag: u16
    var envelopeLen: u16
    var phase: Phase

    ghost predicate Valid()
      reads this, envelope
    {
      ValidProfile(profile) && envelope.Length == MAX_ASSEMBLED_BYTES && envelopeLen <= MAX_ASSEMBLED_BYTES
      && (phase == Emitting ==> SendingOk(View()) && fragmentIndex < fragmentCount)
    }

    /** The message being sent. */
    ghost function View(): Sending
      reads this, envelope
      requires envelope.Length == MAX_ASSEMBLED_BYTES && envelopeLen <= MAX_ASSEMBLED_BYTES
    {
      Sending(profile, streamId, activeSequence, classId, priority, stateTag, envelope[5] % 2 == 1,
              envelope[..envelopeLen], fragmentCount)
    }

    constructor (streamId: u16, initialSequence: u16, profile: ProfileConfig, sign: Sign)
      requires ValidProfile(profile)
      ensures Valid() && fresh(envelope) && phase == Idle
      ensures this.profile == profile && this.sign == sign && this.streamId == streamId
              && nextSequence == initialSequence
    {
      this.profile, this.sign, this.streamId := profile, sign, streamId;
      envelope := new byte[MAX_ASSEMBLED_BYTES](_ => 0);
      nextSequence, activeSequence, fragmentCount, fragmentIndex := initialSequence, 0, 0, 0;
      classId, priority, stateTag, envelopeLen, phase := 0, 0, 0, 0, Idle;
    }

    method Begin(m: Message) returns (status: Status)
      requires Valid() && |m.body| <= 0xffff
      modifies this, envelope
      ensures Valid() && status == BeginStatus(old(phase), sign, profile, m)
      ensures phase == PhaseAfterBegin(old(phase), sign, profile, m) && nextSequence == old(nextSequence)
      ensures status.OK? ==> BeginError(Idle, sign, m).OK? && fragmentIndex == 0
                             && View() == SendingOf(this, m, nextSequence)
      ensures !status.OK? && phase == Emitting ==> View() == old(View()) && fragmentIndex == old(fragmentIndex)
    {
      hide Canonical, CastCount, FromBe, SendingOk, FrameAt, Header;
      if m.classId > CFrame.CLASS_MAX || m.priority > 15 { return ERR_ARGUMENT; }
      if phase == Emitting { return ERR_STATE; }
      var signatureLen := if m.authenticated then SIGNATURE_BYTES else 0;
      if m.authenticated && sign.None? {
        phase := Failed;
        return ERR_AUTH;
      }
      var length := SEMANTIC_HEADER_BYTES + |m.body| + signatureLen;
      if length > MAX_ASSEMBLED_BYTES { return ERR_CAPACITY; }
      var signed := WriteEnvelope(m);
      if !signed {
        phase := Failed;
        return ERR_AUTH;
      }
      status := StartEmitting(m, length);
    }

    /** The envelope is in place: count the fragments and start. */
    method StartEmitting(m: Message, length: nat) returns (status: Status)
      requires Valid() && |m.body| <= 0xffff && BeginError(Idle, sign, m).OK? && length == EnvelopeLen(m)
      requires envelope[..length] == EnvelopeOf(sign, m)
      modifies this
      ensures Valid() && nextSequence == old(nextSequence)
      ensures status
              == if 0 < CastCount(length, profile.fragmentPayloadBytes) <= MAX_FRAGMENTS then OK else ERR_CAPACITY
      ensures status.OK? ==> phase == Emitting && fragmentIndex == 0 && View() == SendingOf(this, m, nextSequence)
      ensures !status.OK? ==> phase == Failed
    {
      hide Canonical, CastCount, FromBe, EnvelopeOf;
      envelopeLen := length;
      activeSequence := nextSequence;
      fragmentCount := CastCount(length, profile.fragmentPayloadBytes);
      if fragmentCount == 0 || fragmentCount > MAX_FRAGMENTS {
        phase := Failed;
        return ERR_CAPACITY;
      }
      fragmentIndex := 0;
      classId := m.classId;
      priority := m.priority;
      stateTag := Get16(m.stateHash, 0);
      phase := Emitting;
      AuthenticatedFlag(sign, m);
      return OK;
    }

    /** The envelope, with the signature the hook gives; false if it gives none. */
    method WriteEnvelope(m: Message) returns (signed: bool)
      requires envelope.Length == MAX_ASSEMBLED_BYTES && EnvelopeLen(m) <= MAX_ASSEMBLED_BYTES
      requires m.authenticated ==> sign.Some?
      modifies envelope
      ensures signed <==> (m.authenticated ==> sign.value(Canonical(m)).Some?)
      ensures signed ==> envelope[..EnvelopeLen(m)]
                         == Canonical(m) + if m.authenticated then SignatureOf(sign, m).value else []
    {
      hide Canonical;
      WriteCanonical(m);
      var canonicalLen := SEMANTIC_HEADER_BYTES + |m.body|;
      if m.authenticated {
        var signature := sign.value(envelope[..canonicalLen]);
        if signature.None? { return false; }
        CFrame.Put(envelope, canonicalLen, signature.value);
      }
      assert envelope[..EnvelopeLen(m)] == Canonical(m) + if m.authenticated then SignatureOf(sign, m).value else [];
      return true;
    }

    method WriteCanonical(m: Message)
      requires envelope.Length == MAX_ASSEMBLED_BYTES && SEMANTIC_HEADER_BYTES + |m.body| <= MAX_ASSEMBLED_BYTES
      modifies envelope
      ensures envelope[..SEMANTIC_HEADER_BYTES + |m.body|] == Canonical(m)
    {
      WriteHeader(m);
      hide Header;
      CFrame.Put(envelope, SEMANTIC_HEADER_BYTES, m.body);
      assert envelope[..SEMANTIC_HEADER_BYTES + |m.body|] == Header(m) + m.body;
    }

    method WriteHeader(m: Message)
      requires envelope.Length == MAX_ASSEMBLED_BYTES && |m.body| <= 0xffff
      modifies envelope
      ensures envelope[..SEMANTIC_HEADER_BYTES] == Header(m)
    {
      hide Be;
      CFrame.Put(envelope, 0, MAGIC);
      CFrame.Put(envelope, 4, [VERSION, if m.authenticated then 1 else 0, m.classId, m.priority]);
      ghost var part := MAGIC + [VERSION, if m.authenticated then 1 else 0, m.classId, m.priority];
      assert envelope[..8] == part;
      PutAfter(8, part, Be(m.sourceId, 4));
      part := part + Be(m.sourceId, 4);
      PutAfter(12, part, Be(m.epoch, 4));
      part := part + Be(m.epoch, 4);
      PutAfter(16, part, Be(m.messageId, 4));
      part := part + Be(m.messageId, 4);
      PutAfter(20, part, Be(m.logicalSequence, 8));
      part := part + Be(m.logicalSequence, 8);
      PutAfter(28, part, Be(|m.body|, 2));
      part := part + Be(|m.body|, 2);
      PutAfter(30, part, m.stateHash);
      part := part + m.stateHash;
      PutAfter(46, part, [if m.authenticated then SIGNATURE_BYTES else 0, 0]);
    }

    /** Writes behind what has been written. */
    method PutAfter(at: nat, ghost part: seq<byte>, bytes: seq<byte>)
      requires |part| == at && at + |bytes| <= envelope.Length && envelope[..at] == part
      modifies envelope
      ensures envelope[..at + |bytes|] == part + bytes
    {
      CFrame.Put(envelope, at, bytes);
    }

    /** The frame of the current fragment. */
    method NextFrame() returns (frame: CFrame.Frame)
      requires Valid() && phase == Emitting
      ensures frame == FrameAt(View(), fragmentIndex)
    {
      hide CastCount, CFrame.Valid, SendingOk, FrameAt, ValidProfile;
      var p: nat := profile.fragmentPayloadBytes;
      FragmentInside(View(), fragmentIndex);
      var offset := fragmentIndex * p;
      var remaining := envelopeLen - offset;
      var fragmentLen := if remaining < p then remaining else p;
      var flags := 0;
      if profile.useFec != 0 { flags := flags + CFrame.FLAG_FEC; }
      if envelope[5] % 2 == 1 { flags := flags + CFrame.FLAG_AUTHENTICATED; }
      frame := CFrame.Frame(profile.profile, flags, streamId, activeSequence, fragmentIndex, fragmentCount,
                                classId, priority, stateTag, envelope[offset..offset + fragmentLen]);
      FrameIs(View(), fragmentIndex, offset, frame);
    }

    method Poll() returns (status: Status, block: Block)
      requires Valid()
      modifies this
      ensures Valid()
      ensures old(phase) != Emitting ==> status == (if old(phase) == Done then COMPLETE else ERR_STATE)
      ensures old(phase) != Emitting ==> phase == old(phase) && nextSequence == old(nextSequence)
      ensures old(phase) == Emitting ==> Carries(block, profile, FrameAt(old(View()), old(fragmentIndex)))
      ensures old(phase) == Emitting ==> View() == old(View()) && fragmentIndex == old(fragmentIndex) + 1
      ensures old(phase) == Emitting ==>
                if fragmentIndex == fragmentCount
                then status == COMPLETE && phase == Done && nextSequence == (old(nextSequence) + 1) % 0x1_0000
                else status == MORE && phase == Emitting && nextSequence == old(nextSequence)
    {
      hide CastCount, Carries, CFrame.Valid, SendingOk, FrameAt, BitsOf;
      block := Block(0, 0, 0, 0, []);
      if phase != Emitting {
        return if phase == Done then COMPLETE else ERR_STATE, block;
      }
      var frame := NextFrame();
      status, block := EmitFrame(profile, frame);
      phase := if status.OK? then Emitting else Failed;
      if !status.OK? { return; }
      fragmentIndex := fragmentIndex + 1;
      if fragmentIndex == fragmentCount {
        phase := Done;
        nextSequence := (nextSequence + 1) % 0x1_0000;
        return COMPLETE, block;
      }
      return MORE, block;
    }

    /** Sends a whole message; `emit` is the caller's sink, true for accepted. */
    method Send(m: Message, emit: Block -> bool) returns (status: Status, emitted: seq<Block>)
      requires Valid() && |m.body| <= 0xffff
      modifies this, envelope
      ensures Valid()
      ensures !BeginStatus(old(phase), sign, profile, m).OK? ==>
                status == BeginStatus(old(phase), sign, profile, m) && emitted == []
      ensures BeginStatus(old(phase), sign, profile, m).OK? ==>
                && BeginError(Idle, sign, m).OK? && SendingOk(SendingOf(this, m, old(nextSequence)))
                && CarryAll(emitted, SendingOf(this, m, old(nextSequence)))
                && (forall i :: 0 <= i < |emitted| - 1 ==> emit(emitted[i]))
                && status == (if emit(emitted[|emitted| - 1]) then OK else ERR_CALLBACK)
                && (status.OK? ==> |emitted| == CastCount(EnvelopeLen(m), profile.fragmentPayloadBytes)
                                   && phase == Done && nextSequence == (old(nextSequence) + 1) % 0x1_0000)
                && (!status.OK? ==> phase == Failed)
    {
      hide SendingOk, FrameAt, Carries, CastCount, Canonical;
      emitted := [];
      status := Begin(m);
      if !status.OK? { return; }
      ghost var s := View();
      status := MORE;
      while status == MORE
        invariant Valid() && View() == s && status in {MORE, COMPLETE} && |emitted| == fragmentIndex <= fragmentCount
        invariant status == MORE ==> phase == Emitting && nextSequence == old(nextSequence)
        invariant status == COMPLETE ==> phase == Done && fragmentIndex == fragmentCount
                                         && nextSequence == (old(nextSequence) + 1) % 0x1_0000
        invariant SendingOk(s) && s == SendingOf(this, m, old(nextSequence))
        invariant CarryAll(emitted, s) || emitted == []
        invariant status == COMPLETE ==> emitted != []
        invariant forall i :: 0 <= i < |emitted| ==> emit(emitted[i])
        decreases status == MORE, fragmentCount - fragmentIndex
      {
        assert SendingOk(View());
        var block;
        status, block := Poll();
        emitted := emitted + [block];
        if !emit(block) {
          phase := Failed;
          return ERR_CALLBACK, emitted;
        }
      }
      return OK, emitted;
    }
  }

  /** The frames of message `m` under sequence number `sequence`. */
  ghost function SendingOf(tx: Transmitter, m: Message, sequence: u16): Sending
    requires |m.body| <= 0xffff && BeginError(Idle, tx.sign, m).OK? && ValidProfile(tx.profile)
  {
    SendingFor(tx.profile, tx.sign, tx.streamId, m, sequence)
  }

  function SendingFor(p: ProfileConfig, sign: Sign, streamId: u16, m: Message, sequence: u16): Sending
    requires |m.body| <= 0xffff && BeginError(Idle, sign, m).OK? && ValidProfile(p)
  {
    Sending(p, streamId, sequence, m.classId, m.priority, StateTag(m), m.authenticated,
            EnvelopeOf(sign, m), CastCount(EnvelopeLen(m), p.fragmentPayloadBytes))
  }

  /** The blocks carry the first frames of the message, one each. */
  ghost predicate CarryAll(blocks: seq<Block>, s: Sending)
    requires SendingOk(s)
  {
    0 < |blocks| <= s.count && forall i :: 0 <= i < |blocks| ==> Carries(blocks[i], s.profile, FrameAt(s, i))
  }

  lemma AuthenticatedFlag(sign: Sign, m: Message)
    requires |m.body| <= 0xffff && BeginError(Idle, sign, m).OK?
    ensures (EnvelopeOf(sign, m)[5] % 2 == 1) == m.authenticated
  {
    hide Be;
  }

  lemma FragmentInside(s: Sending, i: nat)
    requires SendingOk(s) && i < s.count
    ensures i * s.profile.fragmentPayloadBytes < |s.envelope| && s.count <= MAX_FRAGMENTS
  {
    hide CastCount;
    CastCountInside(|s.envelope|, s.profile.fragmentPayloadBytes, i);
  }

  lemma FrameIs(s: Sending, i: nat, offset: nat, f: CFrame.Frame)
    requires SendingOk(s) && i < s.count && offset == i * s.profile.fragmentPayloadBytes
    requires var p := s.profile.fragmentPayloadBytes;
             offset < |s.envelope| &&
             f == CFrame.Frame(s.profile.profile, (if s.profile.useFec != 0 then CFrame.FLAG_FEC else 0)
                                                  + (if s.authenticated then CFrame.FLAG_AUTHENTICATED else 0),
                               s.streamId, s.sequence, i, s.count, s.classId, s.priority, s.stateTag,
                               s.envelope[offset..offset + Least(|s.envelope| - offset, p)])
    ensures f == FrameAt(s, i)
  {
    hide CastCount, SendingOk, ValidProfile, CFrame.Valid;
    PayloadEnd(i, s.profile.fragmentPayloadBytes, |s.envelope|);
  }

  lemma PayloadEnd(i: nat, p: nat, length: nat)
    requires i * p < length
    ensures i * p + Least(length - i * p, p) == Least((i + 1) * p, length)
  {
    assert (i + 1) * p == i * p + p;
  }

  // ----- what the frames carry -----------------------------------------------------------------------

  /** Payloads of the first `n` frames, one after the other. */
  ghost function Payloads(s: Sending, n: nat): seq<byte>
    requires SendingOk(s) && n <= s.count
  {
    if n == 0 then [] else Payloads(s, n - 1) + FrameAt(s, n - 1).payload
  }

  lemma {:induction false} PayloadsArePrefix(s: Sending, n: nat)
    requires SendingOk(s) && n <= s.count
    ensures Payloads(s, n) == s.envelope[..Least(n * s.profile.fragmentPayloadBytes, |s.envelope|)]
  {
    hide CastCount;
    var p := s.profile.fragmentPayloadBytes;
    if n > 0 {
      PayloadsArePrefix(s, n - 1);
      CastCountInside(|s.envelope|, p, n - 1);
      assert n * p == (n - 1) * p + p;
    } else {
      assert 0 * p == 0;
    }
  }

  /** All frames together carry the whole envelope exactly when the fragment
    * count fits its eight bits. */
  lemma WholeEnvelopeIff(s: Sending)
    requires SendingOk(s)
    ensures Payloads(s, s.count) == s.envelope <==> DivCeil(|s.envelope|, s.profile.fragmentPayloadBytes) <= 255
  {
    hide DivCeil, Payloads;
    var p := s.profile.fragmentPayloadBytes;
    PayloadsArePrefix(s, s.count);
    CountCoversIff(|s.envelope|, p);
    if s.count * p < |s.envelope| { assert |Payloads(s, s.count)| < |s.envelope|; }
  }

  /** A message that begins well and goes out short: 7680 bytes in payloads of 29
    * need 265 frames, which the cast takes for 9. */
  lemma CountWraps(stateHash: Hash16, sign: Sign)
    ensures var m := Message(0, 0, 0, 0, 0, 0, stateHash, seq(7632, _ => 0), false);
            var p := ProfileConfig(0, 29, 0, 0);
            && ValidProfile(p) && BeginStatus(Idle, sign, p, m) == OK && BeginError(Idle, sign, m).OK?
            && DivCeil(EnvelopeLen(m), 29) == 265 && CastCount(EnvelopeLen(m), 29) == 9
            && SendingOk(SendingFor(p, sign, 0, m, 0))
            && Payloads(SendingFor(p, sign, 0, m, 0), 9) != EnvelopeOf(sign, m)
  {
    hide Canonical, Payloads;
    var m := Message(0, 0, 0, 0, 0, 0, stateHash, seq(7632, _ => 0), false);
    var s := SendingFor(ProfileConfig(0, 29, 0, 0), sign, 0, m, 0);
    assert DivCeil(7680, 29) == 265;
    WholeEnvelopeIff(s);
  }

  /** Payload bytes, error correction and interleaver rows of the ten profiles. */
  const DEFAULTS: seq<(byte, byte, byte)> := [
    (240, 0, 0), (180, 0, 0), (224, 1, 8), (64, 1, 16), (128, 1, 16),
    (160, 1, 16), (96, 1, 16), (160, 1, 8), (240, 0, 0), (211, 0, 0)]

  lemma DefaultsAre(profile: byte)
    ensures ProfileDefaults(profile).Some? <==> profile < 10
    ensures profile < 10 ==>
              ProfileDefaults(profile).value
              == ProfileConfig(profile, DEFAULTS[profile].0, DEFAULTS[profile].1, DEFAULTS[profile].2)
  {}

  // ----- what is refused ---------------------------------------------------------------------

  lemma ProfileValidIff(p: ProfileConfig)
    ensures ValidProfile(p) <==>
              p.profile < 10 && 1 <= p.fragmentPayloadBytes < 241 && p.useFec in {0, 1}
              && (p.interleaveRows == 0 || 2 <= p.interleaveRows < 65)
  {}

  /** Which status each message gets, in the order of the checks. */
  lemma BeginAnswers(phase: Phase, sign: Sign, p: ProfileConfig, m: Message)
    requires |m.body| <= 0xffff && ValidProfile(p)
    ensures var status, total := BeginStatus(phase, sign, p, m), 48 + |m.body| + if m.authenticated then 64 else 0;
            if m.classId >= 5 || m.priority >= 16 then status == ERR_ARGUMENT
            else if phase == Emitting then status == ERR_STATE
            else if m.authenticated && sign.None? then status == ERR_AUTH
            else if total > 7680 then status == ERR_CAPACITY
            else if m.authenticated && sign.value(Canonical(m)).None? then status == ERR_AUTH
            else status == if 1 <= CastCount(total, p.fragmentPayloadBytes) < 33 then OK else ERR_CAPACITY
  {
    hide Canonical;
  }
}
