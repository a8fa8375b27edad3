/** Reading a semantic delta back: a cursor over the bytes, and the proof that
  * exactly the encoder's own output is accepted.
  */
module DeltaDecoder {
  import opened Words
  import opened BigEndian
  import opened AirErrors
  import opened CriticalStates
  import opened Sorting
  import opened DeltaCodec

  /** A value and the bytes after it. */
  datatype Parsed<+T> = Parsed(item: T, rest: seq<byte>)

  function TakeN(s: seq<byte>, n: nat): Result<Parsed<seq<byte>>> {
    if n <= |s| then Ok(Parsed(s[..n], s[n..])) else Err(Truncated)
  }

  function TakeU8(s: seq<byte>): Result<Parsed<byte>> {
    if |s| >= 1 then Ok(Parsed(s[0], s[1..])) else Err(Truncated)
  }

  function TakeU16(s: seq<byte>): Result<Parsed<u16>> {
    if |s| >= 2 then Ok(Parsed(Get16(s, 0), s[2..])) else Err(Truncated)
  }

  function TakeU32(s: seq<byte>): Result<Parsed<u32>> {
    if |s| >= 4 then Ok(Parsed(Get32(s, 0), s[4..])) else Err(Truncated)
  }

  /** The cursor's answer and position are those of `spec`. */
  ghost predicate Follows<T>(r: Result<T>, rest: seq<byte>, spec: Result<Parsed<T>>) {
    match spec
    case Ok(p) => r == Ok(p.item) && rest == p.rest
    case Err(e) => r == Err(e)
  }

  class Reader {
    const bytes: seq<byte>
    var at: nat

    ghost predicate Valid()
      reads this
    {
      at <= |bytes|
    }

    ghost function Rest(): seq<byte>
      reads this
      requires Valid()
    {
      bytes[at..]
    }

    constructor (input: seq<byte>)
      ensures Valid() && Rest() == input
    {
      bytes := input;
      at := 0;
    }

    method Take(count: nat) returns (r: Result<seq<byte>>)
      requires Valid()
      modifies this
      ensures Valid() && Follows(r, Rest(), TakeN(old(Rest()), count))
    {
      if at + count > |bytes| { return Err(Truncated); }
      r := Ok(bytes[at..at + count]);
      at := at + count;
      assert old(Rest())[..count] == bytes[at - count..at] && old(Rest())[count..] == bytes[at..];
    }

    method U8() returns (r: Result<byte>)
      requires Valid()
      modifies this
      ensures Valid() && Follows(r, Rest(), TakeU8(old(Rest())))
    {
      var taken :- Take(1);
      return Ok(taken[0]);
    }

    method U16() returns (r: Result<u16>)
      requires Valid()
      modifies this
      ensures Valid() && Follows(r, Rest(), TakeU16(old(Rest())))
    {
      var taken :- Take(2);
      assert taken[0..2] == old(Rest())[0..2];
      return Ok(Get16(taken, 0));
    }

    method U32() returns (r: Result<u32>)
      requires Valid()
      modifies this
      ensures Valid() && Follows(r, Rest(), TakeU32(old(Rest())))
    {
      var taken :- Take(4);
      assert taken[0..4] == old(Rest())[0..4];
      return Ok(Get32(taken, 0));
    }

    predicate IsEmpty()
      reads this
    {
      at == |bytes|
    }
  }

  // ----- one update, one residual -----------------------------------------------

  function ParseUpdate(s: seq<byte>, previous: Option<u16>): Result<Parsed<SymbolUpdate>> {
    var id :- TakeU16(s);
    if previous.Some? && id.item <= previous.value then Err(InvalidSemanticValue)
    else
      var code :- TakeU8(id.rest);
      var len :- TakeU8(code.rest);
      if len.item > MAX_SYMBOL_BYTES then Err(LimitExceeded)
      else if code.item == 0 then
        if len.item != 0 then Err(InvalidSemanticValue) else Ok(Parsed(Delete(id.item), len.rest))
      else
        var taken :- TakeN(len.rest, len.item);
        var value :- DecodeValue(code.item, taken.item);
        Ok(Parsed(Set(id.item, value), taken.rest))
  }

  function ParseResidual(s: seq<byte>, previous: Option<byte>): Result<Parsed<Residual>> {
    var slot :- TakeU8(s);
    if previous.Some? && slot.item <= previous.value then Err(InvalidSemanticValue)
    else
      var importance :- TakeU8(slot.rest);
      var scale :- TakeU8(importance.rest);
      var len :- TakeU8(scale.rest);
      if len.item > MAX_RESIDUAL_VALUES then Err(LimitExceeded)
      else
        var taken :- TakeN(len.rest, len.item);
        Ok(Parsed(Residual(slot.item, importance.item, AsSigned(scale.item), AllAsSigned(taken.item)), taken.rest))
  }

  /** The next update of a written list is the one written. */
  lemma UpdateParses(u: SymbolUpdate, tail: seq<byte>, previous: Option<u16>)
    requires UpdateOk(u) && (previous.Some? ==> previous.value < u.id)
    ensures ParseUpdate(UpdateBytes(u) + tail, previous) == Ok(Parsed(u, tail))
  {
    hide FromBe, Be, ValueBytes, DecodeValue;
    Pow256Values();
    FromBeOfBe(u.id, 2);
    var s := UpdateBytes(u) + tail;
    assert s[0..2] == Be(u.id, 2);
    match u
    case Delete(_) => assert s[2..][1..][1..] == tail;
    case Set(_, value) =>
      DecodeValueOfBytes(value);
      var n := |ValueBytes(value)|;
      assert s[2..][1..][1..] == ValueBytes(value) + tail;
      assert (ValueBytes(value) + tail)[..n] == ValueBytes(value);
      assert (ValueBytes(value) + tail)[n..] == tail;
  }

  /** An update that parses was written there, in its only form. */
  lemma ParsedUpdateBytes(s: seq<byte>, previous: Option<u16>)
    requires ParseUpdate(s, previous).Ok?
    ensures var p := ParseUpdate(s, previous).value;
            && UpdateOk(p.item) && (previous.Some? ==> previous.value < p.item.id)
            && s == UpdateBytes(p.item) + p.rest
  {
    hide FromBe, Be, ValueBytes, DecodeValue;
    BeOfFromBe(s[..2]);
    var p := ParseUpdate(s, previous).value;
    if p.item.Set? {
      var n := s[3];
      BytesOfDecodedValue(s[2], s[4..][..n]);
      assert s[2..][1..][1..] == s[4..];
      assert s == s[..2] + [s[2], s[3]] + s[4..][..n] + s[4..][n..];
    } else {
      assert s == s[..2] + [s[2], s[3]] + s[4..];
    }
  }

  lemma ResidualParses(r: Residual, tail: seq<byte>, previous: Option<byte>)
    requires ResidualOk(r) && (previous.Some? ==> previous.value < r.slot)
    ensures ParseResidual(ResidualBytes(r) + tail, previous) == Ok(Parsed(r, tail))
  {
    hide AllAsBytes, AllAsSigned;
    SignedBytesInvert(r.values, []);
    var s := ResidualBytes(r) + tail;
    var body := AllAsBytes(r.values) + tail;
    assert s[1..][1..][1..][1..] == body;
    assert body[..|r.values|] == AllAsBytes(r.values) && body[|r.values|..] == tail;
  }

  lemma ParsedResidualBytes(s: seq<byte>, previous: Option<byte>)
    requires ParseResidual(s, previous).Ok?
    ensures var p := ParseResidual(s, previous).value;
            && ResidualOk(p.item) && (previous.Some? ==> previous.value < p.item.slot)
            && s == ResidualBytes(p.item) + p.rest
  {
    hide AllAsBytes, AllAsSigned;
    var n := s[3];
    SignedBytesInvert([], s[4..][..n]);
    assert s[1..][1..][1..][1..] == s[4..];
    assert s == s[..4] + s[4..][..n] + s[4..][n..];
  }

  method DecodeUpdate(reader: Reader, previous: Option<u16>) returns (r: Result<SymbolUpdate>)
    requires reader.Valid()
    modifies reader
    ensures reader.Valid() && Follows(r, reader.Rest(), ParseUpdate(old(reader.Rest()), previous))
  {
    hide FromBe, DecodeValue, TypeCode;
    var id :- reader.U16();
    if previous.Some? && id <= previous.value { return Err(InvalidSemanticValue); }
    var code :- reader.U8();
    var len :- reader.U8();
    if len > MAX_SYMBOL_BYTES { return Err(LimitExceeded); }
    if code == 0 {
      if len != 0 { return Err(InvalidSemanticValue); }
      return Ok(Delete(id));
    }
    var taken :- reader.Take(len);
    var value :- DecodeValue(code, taken);
    return Ok(Set(id, value));
  }

  method DecodeResidual(reader: Reader, previous: Option<byte>) returns (r: Result<Residual>)
    requires reader.Valid()
    modifies reader
    ensures reader.Valid() && Follows(r, reader.Rest(), ParseResidual(old(reader.Rest()), previous))
  {
    hide AllAsSigned;
    var slot :- reader.U8();
    if previous.Some? && slot <= previous.value { return Err(InvalidSemanticValue); }
    var importance :- reader.U8();
    var scale :- reader.U8();
    var len :- reader.U8();
    if len > MAX_RESIDUAL_VALUES { return Err(LimitExceeded); }
    var taken :- reader.Take(len);
    return Ok(Residual(slot, importance, AsSigned(scale), AllAsSigned(taken)));
  }

  // ----- lists -------------------------------------------------------------------

  /** `count` updates with increasing ids, after those in `done`. */
  function ParseUpdates(count: nat, previous: Option<u16>, done: seq<SymbolUpdate>, s: seq<byte>)
    : Result<Parsed<seq<SymbolUpdate>>>
  {
    if count == 0 then Ok(Parsed(done, s))
    else
      var p :- ParseUpdate(s, previous);
      ParseUpdates(count - 1, Some(p.item.id), done + [p.item], p.rest)
  }

  function ParseResiduals(count: nat, previous: Option<byte>, done: seq<Residual>, s: seq<byte>)
    : Result<Parsed<seq<Residual>>>
  {
    if count == 0 then Ok(Parsed(done, s))
    else
      var p :- ParseResidual(s, previous);
      ParseResiduals(count - 1, Some(p.item.slot), done + [p.item], p.rest)
  }

  ghost predicate After(us: seq<SymbolUpdate>, previous: Option<u16>) {
    us != [] && previous.Some? ==> previous.value < us[0].id
  }

  ghost predicate SlotsAfter(rs: seq<Residual>, previous: Option<byte>) {
    rs != [] && previous.Some? ==> previous.value < rs[0].slot
  }

  lemma {:induction false} UpdatesParse(us: seq<SymbolUpdate>, previous: Option<u16>, done: seq<SymbolUpdate>,
      tail: seq<byte>)
    requires StrictlySorted(us, UpdateId) && UpdatesOk(us) && After(us, previous)
    ensures ParseUpdates(|us|, previous, done, UpdatesBytes(us) + tail) == Ok(Parsed(done + us, tail))
  {
    hide ParseUpdate, UpdateBytes, UpdateOk;
    if us == [] {
      assert done + us == done;
      assert UpdatesBytes(us) + tail == tail;
    } else {
      var rest := UpdatesBytes(us[1..]) + tail;
      UpdateParses(us[0], rest, previous);
      assert UpdatesBytes(us) + tail == UpdateBytes(us[0]) + rest;
      if |us| > 1 { assert UpdateId(us[0]) < UpdateId(us[1]); }
      UpdatesParse(us[1..], Some(us[0].id), done + [us[0]], tail);
      assert done + [us[0]] + us[1..] == done + us;
    }
  }

  lemma {:induction false} ResidualsParse(rs: seq<Residual>, previous: Option<byte>, done: seq<Residual>,
      tail: seq<byte>)
    requires StrictlySorted(rs, SlotOf) && ResidualsOk(rs) && SlotsAfter(rs, previous)
    ensures ParseResiduals(|rs|, previous, done, ResidualsBytes(rs) + tail) == Ok(Parsed(done + rs, tail))
  {
    hide ParseResidual, ResidualBytes, ResidualOk;
    if rs == [] {
      assert done + rs == done;
      assert ResidualsBytes(rs) + tail == tail;
    } else {
      var rest := ResidualsBytes(rs[1..]) + tail;
      ResidualParses(rs[0], rest, previous);
      assert ResidualsBytes(rs) + tail == ResidualBytes(rs[0]) + rest;
      if |rs| > 1 { assert SlotOf(rs[0]) < SlotOf(rs[1]); }
      ResidualsParse(rs[1..], Some(rs[0].slot), done + [rs[0]], tail);
      assert done + [rs[0]] + rs[1..] == done + rs;
    }
  }

  lemma {:induction false} ParsedUpdatesBytes(count: nat, previous: Option<u16>, done: seq<SymbolUpdate>, s: seq<byte>)
    returns (us: seq<SymbolUpdate>)
    requires ParseUpdates(count, previous, done, s).Ok?
    ensures var p := ParseUpdates(count, previous, done, s).value;
            && |us| == count && p.item == done + us
            && StrictlySorted(us, UpdateId) && UpdatesOk(us) && After(us, previous)
            && s == UpdatesBytes(us) + p.rest
  {
    hide ParseUpdate, UpdateBytes, UpdateOk;
    if count == 0 {
      us := [];
      assert s == UpdatesBytes(us) + s;
      assert done == done + us;
    } else {
      hide StrictlySorted, UpdatesOk, UpdatesBytes, After;
      ParsedUpdateBytes(s, previous);
      var p := ParseUpdate(s, previous).value;
      var vs := ParsedUpdatesBytes(count - 1, Some(p.item.id), done + [p.item], p.rest);
      us := [p.item] + vs;
      OneUpdateMore(p.item, vs, previous);
      var rest := ParseUpdates(count, previous, done, s).value.rest;
      assert UpdateBytes(p.item) + (UpdatesBytes(vs) + rest) == UpdateBytes(p.item) + UpdatesBytes(vs) + rest;
      assert done + [p.item] + vs == done + us;
    }
  }

  lemma OneUpdateMore(u: SymbolUpdate, us: seq<SymbolUpdate>, previous: Option<u16>)
    requires StrictlySorted(us, UpdateId) && UpdatesOk(us) && After(us, Some(u.id)) && UpdateOk(u)
    requires previous.Some? ==> previous.value < u.id
    ensures var all := [u] + us;
            && StrictlySorted(all, UpdateId) && UpdatesOk(all) && After(all, previous)
            && UpdatesBytes(all) == UpdateBytes(u) + UpdatesBytes(us)
  {
    hide UpdateBytes, UpdateOk;
    assert ([u] + us)[1..] == us;
  }

  lemma {:induction false} ParsedResidualsBytes(count: nat, previous: Option<byte>, done: seq<Residual>, s: seq<byte>)
    returns (rs: seq<Residual>)
    requires ParseResiduals(count, previous, done, s).Ok?
    ensures var p := ParseResiduals(count, previous, done, s).value;
            && |rs| == count && p.item == done + rs
            && StrictlySorted(rs, SlotOf) && ResidualsOk(rs) && SlotsAfter(rs, previous)
            && s == ResidualsBytes(rs) + p.rest
  {
    hide ParseResidual, ResidualBytes, ResidualOk;
    if count == 0 {
      rs := [];
      assert s == ResidualsBytes(rs) + s;
      assert done == done + rs;
    } else {
      hide StrictlySorted, ResidualsOk, ResidualsBytes, SlotsAfter;
      ParsedResidualBytes(s, previous);
      var p := ParseResidual(s, previous).value;
      var vs := ParsedResidualsBytes(count - 1, Some(p.item.slot), done + [p.item], p.rest);
      rs := [p.item] + vs;
      OneResidualMore(p.item, vs, previous);
      var rest := ParseResiduals(count, previous, done, s).value.rest;
      assert ResidualBytes(p.item) + (ResidualsBytes(vs) + rest) == ResidualBytes(p.item) + ResidualsBytes(vs) + rest;
      assert done + [p.item] + vs == done + rs;
    }
  }

  lemma OneResidualMore(r: Residual, rs: seq<Residual>, previous: Option<byte>)
    requires StrictlySorted(rs, SlotOf) && ResidualsOk(rs) && SlotsAfter(rs, Some(r.slot)) && ResidualOk(r)
    requires previous.Some? ==> previous.value < r.slot
    ensures var all := [r] + rs;
            && StrictlySorted(all, SlotOf) && ResidualsOk(all) && SlotsAfter(all, previous)
            && ResidualsBytes(all) == ResidualBytes(r) + ResidualsBytes(rs)
  {
    hide ResidualBytes, ResidualOk;
    assert ([r] + rs)[1..] == rs;
  }

  method DecodeUpdates(reader: Reader, count: nat) returns (r: Result<seq<SymbolUpdate>>)
    requires reader.Valid()
    modifies reader
    ensures reader.Valid() && Follows(r, reader.Rest(), ParseUpdates(count, None, [], old(reader.Rest())))
  {
    hide ParseUpdate;
    var updates: seq<SymbolUpdate> := [];
    var previous := None;
    for i := 0 to count
      invariant reader.Valid()
      invariant ParseUpdates(count, None, [], old(reader.Rest()))
             == ParseUpdates(count - i, previous, updates, reader.Rest())
    {
      var update :- DecodeUpdate(reader, previous);
      previous := Some(update.id);
      updates := updates + [update];
    }
    return Ok(updates);
  }

  method DecodeResiduals(reader: Reader, count: nat) returns (r: Result<seq<Residual>>)
    requires reader.Valid()
    modifies reader
    ensures reader.Valid() && Follows(r, reader.Rest(), ParseResiduals(count, None, [], old(reader.Rest())))
  {
    hide ParseResidual;
    var residuals: seq<Residual> := [];
    var previous := None;
    for i := 0 to count
      invariant reader.Valid()
      invariant ParseResiduals(count, None, [], old(reader.Rest()))
             == ParseResiduals(count - i, previous, residuals, reader.Rest())
    {
      var residual :- DecodeResidual(reader, previous);
      previous := Some(residual.slot);
      residuals := residuals + [residual];
    }
    return Ok(residuals);
  }

  // ----- the whole delta ------------------------------------------------------------

  function HeaderError(input: seq<byte>): Result<()> {
    if |input| < FIXED_LEN then Err(Truncated)
    else if |input| > MAX_MESSAGE_BYTES then Err(LimitExceeded)
    else if input[..4] != DELTA_MAGIC then Err(InvalidMarker)
    else if input[4] != DELTA_VERSION then Err(UnsupportedVersion)
    else if input[5] > 1 then Err(InvalidFlags)
    else if input[50] > MAX_CRITICAL_FIELDS || input[51] > MAX_RESIDUALS then Err(LimitExceeded)
    else if (input[5] == 1) != (input[51] != 0) then Err(InvalidFlags)
    else Ok(())
  }

  function ParsedDelta(input: seq<byte>, updates: seq<SymbolUpdate>, residuals: seq<Residual>): SemanticDelta
    requires |input| >= FIXED_LEN
  {
    SemanticDelta(Get32(input, 6), Get32(input, 10), Get32(input, 14), input[18..34], input[34..50], updates, residuals)
  }

  function Decode(input: seq<byte>): Result<SemanticDelta> {
    var _ :- HeaderError(input);
    var updates :- ParseUpdates(input[50], None, [], input[52..]);
    var residuals :- ParseResiduals(input[51], None, [], updates.rest);
    if residuals.rest != [] then Err(TrailingBytes)
    else
      var delta := ParsedDelta(input, updates.item, residuals.item);
      var _ :- Validate(delta);
      Ok(delta)
  }

  method ReadHash(reader: Reader) returns (r: Result<Hash16>)
    requires reader.Valid()
    modifies reader
    ensures reader.Valid() && Follows(r, reader.Rest(), TakeN(old(reader.Rest()), 16))
  {
    var taken :- reader.Take(16);
    return Ok(taken);
  }

  /** The six fixed fields before the lists, and the two counts again. */
  method ReadFixed(reader: Reader, ghost input: seq<byte>) returns (r: Result<(SemanticDelta, byte, byte)>)
    requires reader.Valid() && |input| >= FIXED_LEN && reader.Rest() == input[6..]
    modifies reader
    ensures r == Ok((ParsedDelta(input, [], []), input[50], input[51]))
    ensures reader.Valid() && reader.Rest() == input[52..]
  {
    hide FromBe;
    r := Err(Truncated);
    var source := reader.U32();
    if source.Err? { return; }
    assert reader.Rest() == input[10..] && input[6..][0..4] == input[6..10];
    var epoch := reader.U32();
    if epoch.Err? { return; }
    assert reader.Rest() == input[14..] && input[10..][0..4] == input[10..14];
    var message := reader.U32();
    if message.Err? { return; }
    assert reader.Rest() == input[18..] && input[14..][0..4] == input[14..18];
    var baseHash := ReadHash(reader);
    if baseHash.Err? { return; }
    assert reader.Rest() == input[34..] && input[18..][..16] == input[18..34];
    var resultHash := ReadHash(reader);
    if resultHash.Err? { return; }
    assert reader.Rest() == input[50..] && input[34..][..16] == input[34..50];
    var updateCount := reader.U8();
    if updateCount.Err? { return; }
    assert reader.Rest() == input[51..];
    var residualCount := reader.U8();
    if residualCount.Err? { return; }
    var fixed := SemanticDelta(source.value, epoch.value, message.value, baseHash.value, resultHash.value, [], []);
    return Ok((fixed, updateCount.value, residualCount.value));
  }

  method DecodeDelta(input: seq<byte>) returns (r: Result<SemanticDelta>)
    ensures r == Decode(input)
  {
    hide ParseUpdates, ParseResiduals, Validate, FromBe;
    if |input| < FIXED_LEN { return Err(Truncated); }
    if |input| > MAX_MESSAGE_BYTES { return Err(LimitExceeded); }
    if input[..4] != DELTA_MAGIC { return Err(InvalidMarker); }
    if input[4] != DELTA_VERSION { return Err(UnsupportedVersion); }
    if input[5] > 1 { return Err(InvalidFlags); }
    var updateCount, residualCount := input[50], input[51];
    if updateCount > MAX_CRITICAL_FIELDS || residualCount > MAX_RESIDUALS { return Err(LimitExceeded); }
    if (input[5] == 1) != (residualCount != 0) { return Err(InvalidFlags); }
    var cursor := new Reader(input[6..]);
    var fixed := ReadFixed(cursor, input);
    r := Err(Truncated);
    if fixed.Err? { return; }
    r := Err(InvalidLength);
    if fixed.value.1 != updateCount || fixed.value.2 != residualCount { return; }
    var updates :- DecodeUpdates(cursor, updateCount);
    var residuals :- DecodeResiduals(cursor, residualCount);
    if !cursor.IsEmpty() { return Err(TrailingBytes); }
    var delta := fixed.value.0.(updates := updates, residuals := residuals);
    var _ :- Validate(delta);
    return Ok(delta);
  }

  // ----- the codec is canonical --------------------------------------------------------

  lemma FixedFields(d: SemanticDelta, tail: seq<byte>)
    requires |d.updates| <= MAX_CRITICAL_FIELDS && |d.residuals| <= MAX_RESIDUALS
    requires |tail| <= MAX_MESSAGE_BYTES - FIXED_LEN
    ensures var w := FixedPart(d) + tail;
            && HeaderError(w) == Ok(()) && w[50] == |d.updates| && w[51] == |d.residuals| && w[52..] == tail
            && forall us, rs :: ParsedDelta(w, us, rs) == d.(updates := us, residuals := rs)
  {
    hide FromBe, Be;
    var w := FixedPart(d) + tail;
    Pow256Values();
    FromBeOfBe(d.sourceId, 4);
    FromBeOfBe(d.epoch, 4);
    FromBeOfBe(d.messageId, 4);
    assert w[6..10] == Be(d.sourceId, 4) && w[10..14] == Be(d.epoch, 4) && w[14..18] == Be(d.messageId, 4);
    assert w[18..34] == d.baseHash && w[34..50] == d.resultHash;
    assert w[..4] == DELTA_MAGIC;
  }

  lemma OrderedRoundTrip(d: SemanticDelta)
    requires Valid(d) && InOrder(d)
    ensures Decode(OrderedBytes(d)) == Ok(d)
  {
    hide HeaderError, ParseUpdates, ParseResiduals, ParsedDelta, FixedPart, UpdatesBytes, ResidualsBytes, Validate;
    hide Sorted;
    var tail := UpdatesBytes(d.updates) + ResidualsBytes(d.residuals);
    FixedFields(d, tail);
    assert OrderedBytes(d) == FixedPart(d) + tail;
    UpdatesParse(d.updates, None, [], ResidualsBytes(d.residuals));
    ResidualsParse(d.residuals, None, [], []);
    assert ResidualsBytes(d.residuals) + [] == ResidualsBytes(d.residuals);
    assert [] + d.updates == d.updates && [] + d.residuals == d.residuals;
    ValidIff(d);
  }

  /** Reading back what was written gives the delta with its lists sorted. */
  lemma DecodeOfEncode(d: SemanticDelta)
    requires Valid(d)
    ensures Decode(Encoded(d)) == Ok(Canonical(d))
  {
    hide Decode, OrderedBytes, Canonical;
    CanonicalValid(d);
    OrderedRoundTrip(Canonical(d));
  }

  lemma HeaderRebuilt(input: seq<byte>, d: SemanticDelta)
    requires HeaderError(input).Ok? && |d.updates| == input[50] && |d.residuals| == input[51]
    requires d == ParsedDelta(input, d.updates, d.residuals)
    ensures FixedPart(d) == input[..52]
  {
    hide FromBe, Be;
    BeOfFromBe(input[6..10]);
    BeOfFromBe(input[10..14]);
    BeOfFromBe(input[14..18]);
    assert input[..52] == input[..4] + [input[4], input[5]] + input[6..10] + input[10..14] + input[14..18]
                          + input[18..34] + input[34..50] + [input[50], input[51]];
  }

  /** The lists read are in order, so the closing validation always passes. */
  lemma DecodedLists(input: seq<byte>) returns (d: SemanticDelta)
    requires HeaderError(input).Ok?
    requires ParseUpdates(input[50], None, [], input[52..]).Ok?
    requires var us := ParseUpdates(input[50], None, [], input[52..]).value;
             ParseResiduals(input[51], None, [], us.rest).Ok?
             && ParseResiduals(input[51], None, [], us.rest).value.rest == []
    ensures Valid(d) && InOrder(d) && OrderedBytes(d) == input && Decode(input) == Ok(d)
  {
    hide ParseUpdates, ParseResiduals, FixedPart, UpdatesBytes, ResidualsBytes, Validate, FromBe, Sorted;
    var us := ParsedUpdatesBytes(input[50], None, [], input[52..]);
    var p := ParseUpdates(input[50], None, [], input[52..]).value;
    var rs := ParsedResidualsBytes(input[51], None, [], p.rest);
    assert p.item == us && ParseResiduals(input[51], None, [], p.rest).value.item == rs;
    d := ParsedDelta(input, us, rs);
    HeaderRebuilt(input, d);
    ValidIff(d);
    hide ParsedDelta, HeaderError;
    assert input == input[..52] + (UpdatesBytes(us) + (ResidualsBytes(rs) + []));
  }

  /** Only the encoder's own output is accepted: equal deltas, equal bytes. */
  lemma EncodeOfDecode(input: seq<byte>, d: SemanticDelta)
    requires Decode(input) == Ok(d)
    ensures Valid(d) && InOrder(d) && Encoded(d) == input
  {
    hide HeaderError, ParseUpdates, ParseResiduals, Validate, Valid, OrderedBytes, Canonical;
    var e := DecodedLists(input);
    CanonicalOfOrdered(d);
  }

  /** The closing `validate` of `decode` never refuses what was read. */
  lemma ClosingValidationPasses(input: seq<byte>)
    requires HeaderError(input).Ok?
    requires ParseUpdates(input[50], None, [], input[52..]).Ok?
    requires var us := ParseUpdates(input[50], None, [], input[52..]).value;
             ParseResiduals(input[51], None, [], us.rest).Ok?
             && ParseResiduals(input[51], None, [], us.rest).value.rest == []
    ensures Decode(input).Ok?
  {
    var d := DecodedLists(input);
  }

  /** Which error each string gets whose fixed part is refused, in the order of the
    * checks. */
  lemma FixedPartRefused(input: seq<byte>)
    ensures var r := Decode(input);
            if |input| < 52 then r == Err(Truncated)
            else if |input| > 7680 then r == Err(LimitExceeded)
            else if input[..4] != [76, 77, 65, 68] then r == Err(InvalidMarker)
            else if input[4] != 1 then r == Err(UnsupportedVersion)
            else if input[5] > 1 then r == Err(InvalidFlags)
            else if input[50] > 64 || input[51] > 16 then r == Err(LimitExceeded)
            else (input[5] == 0 && input[51] > 0) || (input[5] == 1 && input[51] == 0) ==> r == Err(InvalidFlags)
  {
    hide ParseUpdates, ParseResiduals, Validate;
  }

  /** Nothing may follow an encoded delta. */
  lemma TrailingRefused(d: SemanticDelta, tail: seq<byte>)
    requires Valid(d) && tail != [] && |Encoded(d)| + |tail| <= 7680
    ensures Decode(Encoded(d) + tail) == Err(TrailingBytes)
  {
    hide Decode, OrderedBytes, Canonical;
    CanonicalValid(d);
    OrderedTrailing(Canonical(d), tail);
  }

  lemma OrderedTrailing(d: SemanticDelta, tail: seq<byte>)
    requires Valid(d) && InOrder(d) && tail != [] && |OrderedBytes(d)| + |tail| <= 7680
    ensures Decode(OrderedBytes(d) + tail) == Err(TrailingBytes)
  {
    hide HeaderError, ParseUpdates, ParseResiduals, ParsedDelta, FixedPart, UpdatesBytes, ResidualsBytes, Validate;
    hide Sorted;
    var behind := ResidualsBytes(d.residuals) + tail;
    FixedFields(d, UpdatesBytes(d.updates) + behind);
    assert OrderedBytes(d) + tail == FixedPart(d) + (UpdatesBytes(d.updates) + behind);
    UpdatesParse(d.updates, None, [], behind);
    ResidualsParse(d.residuals, None, [], tail);
  }

  /** Which error a refused update gets, in the order of the checks: cut short, not
    * behind the last id, too long, a deletion with a value, or no value of its
    * kind. */
  lemma UpdateRefusedBecause(s: seq<byte>, previous: Option<u16>)
    requires ParseUpdate(s, previous).Err?
    ensures var error := ParseUpdate(s, previous).error;
            if |s| < 2 then error == Truncated
            else if previous.Some? && Get16(s, 0) <= previous.value then error == InvalidSemanticValue
            else if |s| < 4 then error == Truncated
            else if s[3] > 32 then error == LimitExceeded
            else if s[2] == 0 then error == InvalidSemanticValue && s[3] > 0
            else if |s| - 4 < s[3] then error == Truncated
            else error == InvalidSemanticValue
  {
    hide FromBe;
  }

  lemma ResidualRefusedBecause(s: seq<byte>, previous: Option<byte>)
    requires ParseResidual(s, previous).Err?
    ensures var error := ParseResidual(s, previous).error;
            if |s| < 1 then error == Truncated
            else if previous.Some? && s[0] <= previous.value then error == InvalidSemanticValue
            else if |s| < 4 then error == Truncated
            else if s[3] > 64 then error == LimitExceeded
            else error == Truncated && |s| - 4 < s[3]
  {
    hide AllAsSigned;
  }
}
