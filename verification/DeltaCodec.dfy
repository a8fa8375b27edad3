/** The "LMAD" byte form of a semantic delta. */
module DeltaCodec {
  import opened Words
  import opened BigEndian
  import opened AirErrors
  import opened CriticalStates
  import opened Sorting

  const MAX_RESIDUALS := 16
  const MAX_RESIDUAL_VALUES := 64
  const MAX_MESSAGE_BYTES := 7680
  const FIXED_LEN := 52

  /** "LMAD" */
  const DELTA_MAGIC: seq<byte> := [76, 77, 65, 68]
  const DELTA_VERSION: byte := 1

  type Hash16 = s: seq<byte> | |s| == 16 witness seq(16, _ => 0)

  datatype SymbolUpdate = Set(id: u16, value: SymbolValue) | Delete(id: u16)

  datatype Residual = Residual(slot: byte, importance: byte, scaleExp: int8, values: seq<int8>)

  datatype SemanticDelta = SemanticDelta(
    sourceId: u32, epoch: u32, messageId: u32, baseHash: Hash16, resultHash: Hash16,
    updates: seq<SymbolUpdate>, residuals: seq<Residual>)

  // ----- validity -------------------------------------------------------------

  function UpdateId(u: SymbolUpdate): int { u.id }
  function SlotOf(r: Residual): int { r.slot }
  function Itself(x: int): int { x }

  function Keys<T>(s: seq<T>, key: T -> int): (ks: seq<int>)
    ensures |ks| == |s|
  {
    seq(|s|, i requires 0 <= i < |s| => key(s[i]))
  }

  /** Two equal neighbours. */
  predicate RepeatsAdjacent(s: seq<int>) {
    exists i :: 0 <= i < |s| - 1 && s[i] == s[i + 1]
  }

  /** The check by sorting the keys and comparing neighbours. */
  predicate HasDuplicate<T>(s: seq<T>, key: T -> int) {
    RepeatsAdjacent(SortByKey(Keys(s, key), Itself))
  }

  predicate UpdateOk(u: SymbolUpdate) { u.Set? ==> ValueOk(u.value) }

  predicate ResidualOk(r: Residual) { |r.values| <= MAX_RESIDUAL_VALUES }

  function Validate(d: SemanticDelta): Result<()> {
    if |d.updates| > MAX_CRITICAL_FIELDS || |d.residuals| > MAX_RESIDUALS then Err(LimitExceeded)
    else if HasDuplicate(d.updates, UpdateId) then Err(InvalidSemanticValue)
    else if exists i :: 0 <= i < |d.updates| && !UpdateOk(d.updates[i]) then Err(LimitExceeded)
    else if HasDuplicate(d.residuals, SlotOf) then Err(InvalidSemanticValue)
    else if exists i :: 0 <= i < |d.residuals| && !ResidualOk(d.residuals[i]) then Err(LimitExceeded)
    else Ok(())
  }

  ghost predicate Valid(d: SemanticDelta) {
    && |d.updates| <= MAX_CRITICAL_FIELDS && |d.residuals| <= MAX_RESIDUALS
    && DistinctKeys(d.updates, UpdateId) && UpdatesOk(d.updates)
    && DistinctKeys(d.residuals, SlotOf) && ResidualsOk(d.residuals)
  }

  ghost predicate UpdatesOk(us: seq<SymbolUpdate>) { forall i :: 0 <= i < |us| ==> UpdateOk(us[i]) }

  ghost predicate ResidualsOk(rs: seq<Residual>) { forall i :: 0 <= i < |rs| ==> ResidualOk(rs[i]) }

  lemma StepwiseSorted(s: seq<int>)
    requires Sorted(s, Itself) && !RepeatsAdjacent(s)
    ensures DistinctKeys(s, Itself)
  {
    forall i, j | 0 <= i < j < |s| ensures Itself(s[i]) != Itself(s[j]) {
      assert Itself(s[i]) <= Itself(s[j - 1]) <= Itself(s[j]);
      assert s[j - 1] != s[j - 1 + 1];
      if i < j - 1 { assert Itself(s[i]) <= Itself(s[i + 1]) <= Itself(s[j]); }
      assert s[i] != s[i + 1];
    }
  }

  /** Sorting and comparing neighbours finds exactly the repeated keys. */
  lemma DuplicateCheck<T>(s: seq<T>, key: T -> int)
    ensures HasDuplicate(s, key) <==> !DistinctKeys(s, key)
  {
    var ks := Keys(s, key);
    var sorted := SortByKey(ks, Itself);
    SortSorts(ks, Itself);
    if DistinctKeys(s, key) {
      assert DistinctKeys(ks, Itself);
      DistinctPermuted(ks, sorted, Itself);
      assert forall i :: 0 <= i < |sorted| - 1 ==> Itself(sorted[i]) != Itself(sorted[i + 1]);
    }
    if !HasDuplicate(s, key) {
      StepwiseSorted(sorted);
      DistinctPermuted(sorted, ks, Itself);
      forall i, j | 0 <= i < j < |s| ensures key(s[i]) != key(s[j]) {
        assert Itself(ks[i]) != Itself(ks[j]);
      }
    }
  }

  lemma ValidIff(d: SemanticDelta)
    ensures Validate(d).Ok? <==> Valid(d)
  {
    hide HasDuplicate, SortByKey, UpdateOk, ResidualOk;
    DuplicateCheck(d.updates, UpdateId);
    DuplicateCheck(d.residuals, SlotOf);
  }

  /** Which error an invalid delta gets, in the order of the checks. */
  lemma ValidateAnswers(d: SemanticDelta)
    ensures Validate(d)
         == if |d.updates| > 64 || |d.residuals| > 16 then Err(LimitExceeded)
            else if !DistinctKeys(d.updates, UpdateId) then Err(InvalidSemanticValue)
            else if exists u :: u in d.updates && u.Set? && u.value.Bytes? && |u.value.bytes| > 32 then
              Err(LimitExceeded)
            else if !DistinctKeys(d.residuals, SlotOf) then Err(InvalidSemanticValue)
            else if exists r :: r in d.residuals && |r.values| > 64 then Err(LimitExceeded)
            else Ok(())
  {
    hide HasDuplicate, SortByKey;
    DuplicateCheck(d.updates, UpdateId);
    DuplicateCheck(d.residuals, SlotOf);
  }

  // ----- encoding -------------------------------------------------------------

  function UpdateBytes(u: SymbolUpdate): (s: seq<byte>)
    requires UpdateOk(u)
    ensures 4 <= |s| <= 36
  {
    match u
    case Delete(id) => Be(id, 2) + [0, 0]
    case Set(id, value) => Be(id, 2) + [TypeCode(value), |ValueBytes(value)|] + ValueBytes(value)
  }

  function UpdatesBytes(us: seq<SymbolUpdate>): (s: seq<byte>)
    requires UpdatesOk(us)
    ensures |s| <= 36 * |us|
  {
    if us == [] then [] else UpdateBytes(us[0]) + UpdatesBytes(us[1..])
  }

  /** `v as u8` for a signed byte. */
  function AsByte(v: int8): byte { if v < 0 then v + 0x100 else v }

  /** `b as i8` */
  function AsSigned(b: byte): int8 { if b >= 0x80 then b - 0x100 else b }

  function AllAsBytes(vs: seq<int8>): (s: seq<byte>)
    ensures |s| == |vs|
  {
    seq(|vs|, i requires 0 <= i < |vs| => AsByte(vs[i]))
  }

  function AllAsSigned(s: seq<byte>): (vs: seq<int8>)
    ensures |vs| == |s|
  {
    seq(|s|, i requires 0 <= i < |s| => AsSigned(s[i]))
  }

  lemma SignedBytesInvert(vs: seq<int8>, s: seq<byte>)
    ensures AllAsSigned(AllAsBytes(vs)) == vs && AllAsBytes(AllAsSigned(s)) == s
  {}

  function ResidualBytes(r: Residual): (s: seq<byte>)
    requires ResidualOk(r)
    ensures 4 <= |s| <= 68
  {
    [r.slot, r.importance, AsByte(r.scaleExp), |r.values|] + AllAsBytes(r.values)
  }

  function ResidualsBytes(rs: seq<Residual>): (s: seq<byte>)
    requires ResidualsOk(rs)
    ensures |s| <= 68 * |rs|
  {
    if rs == [] then [] else ResidualBytes(rs[0]) + ResidualsBytes(rs[1..])
  }

  function FixedPart(d: SemanticDelta): (s: seq<byte>)
    requires |d.updates| < 0x100 && |d.residuals| < 0x100
    ensures |s| == FIXED_LEN
  {
    DELTA_MAGIC + [DELTA_VERSION, if d.residuals == [] then 0 else 1]
    + Be(d.sourceId, 4) + Be(d.epoch, 4) + Be(d.messageId, 4) + d.baseHash + d.resultHash
    + [|d.updates|, |d.residuals|]
  }

  /** The delta with updates and residuals in canonical order. */
  function Canonical(d: SemanticDelta): SemanticDelta {
    d.(updates := SortByKey(d.updates, UpdateId), residuals := SortByKey(d.residuals, SlotOf))
  }

  ghost predicate InOrder(d: SemanticDelta) {
    StrictlySorted(d.updates, UpdateId) && StrictlySorted(d.residuals, SlotOf)
  }

  lemma PermutedOk<T>(a: seq<T>, b: seq<T>, ok: T -> bool)
    requires multiset(a) == multiset(b) && forall i :: 0 <= i < |a| ==> ok(a[i])
    ensures forall i :: 0 <= i < |b| ==> ok(b[i])
  {
    forall i | 0 <= i < |b| ensures ok(b[i]) { assert b[i] in multiset(a); }
  }

  lemma CanonicalValid(d: SemanticDelta)
    requires Valid(d)
    ensures Valid(Canonical(d)) && InOrder(Canonical(d))
    ensures multiset(Canonical(d).updates) == multiset(d.updates)
  {
    hide SortByKey, UpdateOk, ResidualOk, UpdateId, SlotOf;
    var us, rs := SortByKey(d.updates, UpdateId), SortByKey(d.residuals, SlotOf);
    SortSorts(d.updates, UpdateId);
    SortSorts(d.residuals, SlotOf);
    DistinctPermuted(d.updates, us, UpdateId);
    DistinctPermuted(d.residuals, rs, SlotOf);
    PermutedOk(d.updates, us, UpdateOk);
    PermutedOk(d.residuals, rs, ResidualOk);
  }

  lemma CanonicalOfOrdered(d: SemanticDelta)
    requires InOrder(d)
    ensures Canonical(d) == d
  {
    StrictIsDistinct(d.updates, UpdateId);
    StrictIsDistinct(d.residuals, SlotOf);
  }

  /** The bytes of a delta already in order. */
  function OrderedBytes(d: SemanticDelta): (s: seq<byte>)
    requires Valid(d)
    ensures |s| <= 3444
  {
    FixedPart(d) + UpdatesBytes(d.updates) + ResidualsBytes(d.residuals)
  }

  function Encoded(d: SemanticDelta): (s: seq<byte>)
    requires Valid(d)
    ensures |s| <= 3444
  {
    CanonicalValid(d);
    OrderedBytes(Canonical(d))
  }

  lemma {:induction false} UpdatesBytesBack(us: seq<SymbolUpdate>)
    requires us != [] && UpdatesOk(us)
    ensures UpdatesBytes(us) == UpdatesBytes(us[..|us| - 1]) + UpdateBytes(us[|us| - 1])
  {
    hide UpdateBytes;
    if |us| > 1 {
      UpdatesBytesBack(us[1..]);
      assert us[1..][..|us| - 2] == us[..|us| - 1][1..];
    }
  }

  lemma {:induction false} ResidualsBytesBack(rs: seq<Residual>)
    requires rs != [] && ResidualsOk(rs)
    ensures ResidualsBytes(rs) == ResidualsBytes(rs[..|rs| - 1]) + ResidualBytes(rs[|rs| - 1])
  {
    hide ResidualBytes;
    if |rs| > 1 {
      ResidualsBytesBack(rs[1..]);
      assert rs[1..][..|rs| - 2] == rs[..|rs| - 1][1..];
    }
  }

  method AppendUpdate(out: seq<byte>, u: SymbolUpdate) returns (longer: seq<byte>)
    requires UpdateOk(u)
    ensures longer == out + UpdateBytes(u)
  {
    longer := out + Be(u.id, 2);
    match u {
      case Delete(_) => longer := longer + [0, 0];
      case Set(_, value) =>
        longer := longer + [TypeCode(value)];
        longer := longer + [|ValueBytes(value)|];
        longer := longer + ValueBytes(value);
    }
  }

  method EncodeUpdates(us: seq<SymbolUpdate>) returns (out: seq<byte>)
    requires UpdatesOk(us)
    ensures out == UpdatesBytes(us)
  {
    hide UpdateBytes, UpdateOk;
    out := [];
    for i := 0 to |us|
      invariant out == UpdatesBytes(us[..i])
    {
      UpdatesBytesBack(us[..i + 1]);
      assert us[..i + 1][..i] == us[..i];
      out := AppendUpdate(out, us[i]);
    }
    assert us[..|us|] == us;
  }

  method EncodeResiduals(rs: seq<Residual>) returns (out: seq<byte>)
    requires ResidualsOk(rs)
    ensures out == ResidualsBytes(rs)
  {
    hide AsByte;
    out := [];
    for i := 0 to |rs|
      invariant out == ResidualsBytes(rs[..i])
    {
      ResidualsBytesBack(rs[..i + 1]);
      assert rs[..i + 1][..i] == rs[..i];
      ghost var before := out;
      out := out + [rs[i].slot, rs[i].importance, AsByte(rs[i].scaleExp), |rs[i].values|];
      out := out + AllAsBytes(rs[i].values);
      assert out == before + ResidualBytes(rs[i]);
    }
    assert rs[..|rs|] == rs;
  }

  /** Insertion order does not matter, and the closing size check never fires. */
  method Encode(d: SemanticDelta) returns (r: Result<seq<byte>>)
    ensures r.Ok? <==> Valid(d)
    ensures r.Ok? ==> r.value == Encoded(d)
    ensures r.Err? ==> Validate(d) == Err(r.error)
  {
    hide SortByKey, HasDuplicate, Be, UpdatesBytes, ResidualsBytes, DistinctKeys;
    ValidIff(d);
    var check := Validate(d);
    hide Validate;
    if check.Err? { return Err(check.error); }
    CanonicalValid(d);
    var updates := SortByKey(d.updates, UpdateId);
    var residuals := SortByKey(d.residuals, SlotOf);
    var out := DELTA_MAGIC;
    out := out + [DELTA_VERSION];
    out := out + [if residuals != [] then 1 else 0];
    out := out + Be(d.sourceId, 4);
    out := out + Be(d.epoch, 4);
    out := out + Be(d.messageId, 4);
    out := out + d.baseHash;
    out := out + d.resultHash;
    out := out + [|updates|];
    out := out + [|residuals|];
    assert out == FixedPart(Canonical(d));
    var part := EncodeUpdates(updates);
    out := out + part;
    part := EncodeResiduals(residuals);
    out := out + part;
    assert out == Encoded(d);
    if |out| > MAX_MESSAGE_BYTES { return Err(LimitExceeded); }
    return Ok(out);
  }

  // ----- the layout ------------------------------------------------------------------------

  /** The fixed part: "LMAD", version, whether there are residuals, the source,
    * the two hashes and the two counts. */
  lemma FixedBytes(d: SemanticDelta)
    requires Valid(d)
    ensures var w, c := Encoded(d), Canonical(d);
            && |w| >= 52 && w[0..6] == [76, 77, 65, 68, 1, if d.residuals == [] then 0 else 1]
            && w[6..10] == Number32(d.sourceId) && w[10..14] == Number32(d.epoch) && w[14..18] == Number32(d.messageId)
            && w[18..34] == d.baseHash && w[34..50] == d.resultHash && w[50..52] == [|d.updates|, |d.residuals|]
            && UpdatesOk(c.updates) && ResidualsOk(c.residuals)
            && w[52..] == UpdatesBytes(c.updates) + ResidualsBytes(c.residuals)
  {
    CanonicalValid(d);
    var c := Canonical(d);
    SameCounts(d);
    FixedPartBytes(c);
    OrderedParts(c);
    hide Canonical, UpdatesBytes, ResidualsBytes, UpdatesOk, ResidualsOk, FixedPart, OrderedBytes, Valid;
  }

  lemma OrderedParts(c: SemanticDelta)
    requires Valid(c)
    ensures UpdatesOk(c.updates) && ResidualsOk(c.residuals)
    ensures var w, p := OrderedBytes(c), FixedPart(c);
            |p| == 52 && w[..52] == p && w[52..] == UpdatesBytes(c.updates) + ResidualsBytes(c.residuals)
            && forall i, j :: 0 <= i <= j <= 52 ==> w[i..j] == p[i..j]
  {
    hide UpdatesBytes, ResidualsBytes, FixedPart;
    var w, p := OrderedBytes(c), FixedPart(c);
    assert w == p + (UpdatesBytes(c.updates) + ResidualsBytes(c.residuals));
    forall i, j | 0 <= i <= j <= 52 ensures w[i..j] == p[i..j] {
      assert w[..52][i..j] == w[i..j];
    }
  }

  lemma FixedPartBytes(c: SemanticDelta)
    requires |c.updates| < 0x100 && |c.residuals| < 0x100
    ensures var p := FixedPart(c);
            && p[0..6] == [76, 77, 65, 68, 1, if c.residuals == [] then 0 else 1]
            && p[6..10] == Number32(c.sourceId) && p[10..14] == Number32(c.epoch) && p[14..18] == Number32(c.messageId)
            && p[18..34] == c.baseHash && p[34..50] == c.resultHash && p[50..52] == [|c.updates|, |c.residuals|]
  {
    FourBytes(c.sourceId);
    FourBytes(c.epoch);
    FourBytes(c.messageId);
    hide Be, Number32;
  }

  lemma SameCounts(d: SemanticDelta)
    ensures var c := Canonical(d);
            && |c.updates| == |d.updates| && |c.residuals| == |d.residuals| && c.sourceId == d.sourceId
            && c.epoch == d.epoch && c.messageId == d.messageId && c.baseHash == d.baseHash
            && c.resultHash == d.resultHash
  {}

  /** A signed byte in eight bits. */
  function Wrapped(v: int8): nat {
    var n: int := v;
    n % 0x100
  }

  /** One update, and one residual. */
  lemma ItemBytes(u: SymbolUpdate, r: Residual)
    requires UpdateOk(u) && ResidualOk(r)
    ensures UpdateBytes(u) == match u
                              case Delete(id) => [id / 0x100, id % 0x100, 0, 0]
                              case Set(id, value) =>
                                [id / 0x100, id % 0x100, TypeCode(value), |ValueBytes(value)|] + ValueBytes(value)
    ensures |ResidualBytes(r)| == 4 + |r.values| && ResidualBytes(r)[0] == r.slot && ResidualBytes(r)[1] == r.importance
    ensures ResidualBytes(r)[2] == Wrapped(r.scaleExp) && ResidualBytes(r)[3] == |r.values|
    ensures forall i :: 0 <= i < |r.values| ==> ResidualBytes(r)[4 + i] == Wrapped(r.values[i])
  {
    TwoBytes(u.id);
    hide Be, ValueBytes, TypeCode;
    forall i | 0 <= i < |r.values| ensures ResidualBytes(r)[4 + i] == Wrapped(r.values[i]) {
      assert ResidualBytes(r)[4 + i] == AllAsBytes(r.values)[i];
    }
  }
}
