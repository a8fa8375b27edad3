/** Deterministic symbolic values, the ordered state they make up, and the
  * canonical byte string whose digest two nodes compare.
  */
module CriticalStates {
  import opened Words
  import opened BigEndian
  import opened AirErrors

  const CRITICAL_HASH_BYTES := 16
  const MAX_CRITICAL_FIELDS := 64
  const MAX_SYMBOL_BYTES := 32

  /** A SHA-256 digest; the hash itself is a parameter, `Sha256`. */
  type Digest = s: seq<byte> | |s| == 32 witness seq(32, _ => 0)
  type Sha256 = seq<byte> -> Digest

  datatype SymbolValue = BoolValue(flag: bool) | I64(i: int64) | U64(u: u64) | Q16_16(q: int32)
      | Bytes(bytes: seq<byte>)

  type State = map<u16, SymbolValue>

  function TypeCode(v: SymbolValue): (c: byte)
    ensures 1 <= c <= 5
  {
    match v case BoolValue(_) => 1 case I64(_) => 2 case U64(_) => 3 case Q16_16(_) => 4 case Bytes(_) => 5
  }

  predicate ValueOk(v: SymbolValue) { v.Bytes? ==> |v.bytes| <= MAX_SYMBOL_BYTES }

  function ValidateValue(v: SymbolValue): Result<()> {
    if ValueOk(v) then Ok(()) else Err(LimitExceeded)
  }

  /** Two's complement, most significant byte first. */
  function SignedBe(v: int, n: nat): (s: seq<byte>)
    requires 0 <= v + Pow256(n)
    ensures |s| == n
  {
    Be(if v < 0 then v + Pow256(n) else v, n)
  }

  function FromSignedBe(s: seq<byte>): int {
    var v := FromBe(s);
    if 2 * v >= Pow256(|s|) then v - Pow256(|s|) else v
  }

  function ValueBytes(v: SymbolValue): (s: seq<byte>)
    ensures !v.Bytes? ==> |s| <= 8
  {
    Pow256Values();
    match v
    case BoolValue(flag) => [if flag then 1 else 0]
    case I64(i) => SignedBe(i, 8)
    case U64(u) => Be(u, 8)
    case Q16_16(q) => SignedBe(q, 4)
    case Bytes(bytes) => bytes
  }

  function DecodeValue(code: byte, s: seq<byte>): Result<SymbolValue> {
    Pow256Values();
    if code == 1 && |s| == 1 && s[0] <= 1 then Ok(BoolValue(s[0] != 0))
    else if code == 2 && |s| == 8 then Ok(I64(FromSignedBe(s)))
    else if code == 3 && |s| == 8 then Ok(U64(FromBe(s)))
    else if code == 4 && |s| == 4 then Ok(Q16_16(FromSignedBe(s)))
    else if code == 5 && |s| <= MAX_SYMBOL_BYTES then Ok(Bytes(s))
    else Err(InvalidSemanticValue)
  }

  lemma SignedRoundTrip(v: int, n: nat)
    requires 0 <= 2 * v + Pow256(n) && 2 * v < Pow256(n)
    ensures FromSignedBe(SignedBe(v, n)) == v
  {
    FromBeOfBe(if v < 0 then v + Pow256(n) else v, n);
  }

  lemma SignedCanonical(s: seq<byte>)
    ensures 0 <= FromSignedBe(s) + Pow256(|s|) && SignedBe(FromSignedBe(s), |s|) == s
  {
    hide FromBe, Be;
    BeOfFromBe(s);
  }

  lemma DecodeValueOfBytes(v: SymbolValue)
    ensures DecodeValue(TypeCode(v), ValueBytes(v)) == if ValueOk(v) then Ok(v) else Err(InvalidSemanticValue)
  {
    hide FromBe, Be, FromSignedBe, SignedBe;
    Pow256Values();
    match v
    case BoolValue(_) =>
    case I64(i) => SignedRoundTrip(i, 8);
    case U64(u) => FromBeOfBe(u, 8);
    case Q16_16(q) => SignedRoundTrip(q, 4);
    case Bytes(_) =>
  }

  /** A value has one encoding only. */
  lemma BytesOfDecodedValue(code: byte, s: seq<byte>)
    requires DecodeValue(code, s).Ok?
    ensures var v := DecodeValue(code, s).value;
            ValueOk(v) && TypeCode(v) == code && ValueBytes(v) == s
  {
    hide FromBe, Be, FromSignedBe, SignedBe;
    Pow256Values();
    SignedCanonical(s);
    BeOfFromBe(s);
  }

  // ----- states -------------------------------------------------------------

  datatype Entry = Entry(id: u16, value: SymbolValue)

  ghost predicate ValuesOk(m: State) { forall id :: id in m ==> ValueOk(m[id]) }

  /** What `set` and `remove` keep. */
  ghost predicate StateOk(m: State) { |m| <= MAX_CRITICAL_FIELDS && ValuesOk(m) }

  /** The entries with id at least `from`, by increasing id. */
  function Entries(m: State, from: nat): (es: seq<Entry>)
    requires from <= 0x1_0000
    decreases 0x1_0000 - from
  {
    if from == 0x1_0000 then []
    else if from in m then [Entry(from, m[from])] + Entries(m, from + 1)
    else Entries(m, from + 1)
  }

  ghost predicate EntriesOf(es: seq<Entry>, m: State, from: nat) {
    (forall i, j :: 0 <= i < j < |es| ==> es[i].id < es[j].id)
    && (forall i :: 0 <= i < |es| ==> es[i].id >= from && es[i].id in m && m[es[i].id] == es[i].value)
    && (forall id :: id in m && id >= from ==> Entry(id, m[id]) in es)
  }

  lemma {:induction false} EntriesHold(m: State, from: nat)
    requires from <= 0x1_0000
    ensures EntriesOf(Entries(m, from), m, from)
    decreases 0x1_0000 - from
  {
    if from < 0x1_0000 {
      EntriesHold(m, from + 1);
    }
  }

  /** The entries are the state. */
  lemma EntriesDetermine(m: State, n: State)
    requires Entries(m, 0) == Entries(n, 0)
    ensures m == n
  {
    hide Entries;
    EntriesHold(m, 0);
    EntriesHold(n, 0);
    var es := Entries(m, 0);
    assert forall id :: id in m ==> Entry(id, m[id]) in es;
    assert forall id :: id in n ==> Entry(id, n[id]) in es;
    assert forall id :: id in m ==> id in n && n[id] == m[id];
    assert forall id :: id in n ==> id in m;
  }

  function EntryBytes(e: Entry): (s: seq<byte>)
    requires ValueOk(e.value)
    ensures |s| == 4 + |ValueBytes(e.value)|
  {
    Be(e.id, 2) + [TypeCode(e.value), |ValueBytes(e.value)|] + ValueBytes(e.value)
  }

  predicate EntriesOk(es: seq<Entry>) { forall i :: 0 <= i < |es| ==> ValueOk(es[i].value) }

  function EntriesBytes(es: seq<Entry>): (s: seq<byte>)
    requires EntriesOk(es)
  {
    if es == [] then [] else EntryBytes(es[0]) + EntriesBytes(es[1..])
  }

  /** "LatentMesh-Critical-State-v1" */
  const HASH_TAG: seq<byte> :=
    [76, 97, 116, 101, 110, 116, 77, 101, 115, 104, 45, 67, 114, 105, 116, 105, 99, 97, 108, 45, 83, 116, 97, 116,
     101, 45, 118, 49]

  function Preimage(m: State): seq<byte>
    requires StateOk(m)
  {
    EntriesHold(m, 0);
    HASH_TAG + Be(|m|, 2) + EntriesBytes(Entries(m, 0))
  }

  function CriticalHashOf(sha: Sha256, m: State): (h: seq<byte>)
    requires StateOk(m)
    ensures |h| == CRITICAL_HASH_BYTES
  {
    sha(Preimage(m))[..CRITICAL_HASH_BYTES]
  }

  lemma EntryPrefix(e: Entry, f: Entry, s: seq<byte>, t: seq<byte>)
    requires ValueOk(e.value) && ValueOk(f.value) && EntryBytes(e) + s == EntryBytes(f) + t
    ensures e == f && s == t
  {
    hide ValueBytes, TypeCode, DecodeValue, FromBe, Be;
    var a, b := EntryBytes(e) + s, EntryBytes(f) + t;
    Pow256Values();
    FromBeOfBe(e.id, 2);
    FromBeOfBe(f.id, 2);
    assert a[..2] == Be(e.id, 2) && b[..2] == Be(f.id, 2);
    assert a[2] == TypeCode(e.value) && b[2] == TypeCode(f.value);
    var n := |ValueBytes(e.value)|;
    assert a[3] == n && b[3] == |ValueBytes(f.value)|;
    assert a[4..4 + n] == ValueBytes(e.value) && b[4..4 + n] == ValueBytes(f.value);
    assert a[4 + n..] == s && b[4 + n..] == t;
    DecodeValueOfBytes(e.value);
    DecodeValueOfBytes(f.value);
  }

  lemma {:induction false} EntriesBytesBack(es: seq<Entry>)
    requires es != [] && EntriesOk(es)
    ensures EntriesBytes(es) == EntriesBytes(es[..|es| - 1]) + EntryBytes(es[|es| - 1])
  {
    hide EntryBytes, ValueOk;
    if |es| > 1 {
      EntriesBytesBack(es[1..]);
      assert es[1..][..|es| - 2] == es[..|es| - 1][1..];
    }
  }

  lemma {:induction false} EntriesInjective(es: seq<Entry>, fs: seq<Entry>)
    requires EntriesOk(es) && EntriesOk(fs)
    requires EntriesBytes(es) == EntriesBytes(fs)
    ensures es == fs
  {
    hide EntryBytes;
    if es != [] && fs != [] {
      hide EntriesBytes;
      EntryPrefix(es[0], fs[0], EntriesBytes(es[1..]), EntriesBytes(fs[1..]));
      EntriesInjective(es[1..], fs[1..]);
      assert es == [es[0]] + es[1..] && fs == [fs[0]] + fs[1..];
    }
  }

  /** Different states never feed the same bytes to the digest. */
  lemma PreimageInjective(m: State, n: State)
    requires StateOk(m) && StateOk(n)
    ensures Preimage(m) == Preimage(n) <==> m == n
  {
    hide EntriesBytes, Entries, Be;
    if Preimage(m) == Preimage(n) {
      EntriesHold(m, 0);
      EntriesHold(n, 0);
      var at := |HASH_TAG| + 2;
      assert Preimage(m)[at..] == EntriesBytes(Entries(m, 0));
      assert Preimage(n)[at..] == EntriesBytes(Entries(n, 0));
      EntriesInjective(Entries(m, 0), Entries(n, 0));
      EntriesDetermine(m, n);
    }
  }

  /** Different states are hashed from different strings, whatever the digest. */
  lemma HashedStrings(m: State, n: State) returns (x: seq<byte>, y: seq<byte>)
    requires StateOk(m) && StateOk(n) && m != n
    ensures x != y
    ensures forall sha: Sha256 :: CriticalHashOf(sha, m) == sha(x)[..16] && CriticalHashOf(sha, n) == sha(y)[..16]
  {
    PreimageInjective(m, n);
    hide Preimage, StateOk;
    x, y := Preimage(m), Preimage(n);
  }

  /** A digest that tells one state from all others. */
  lemma TellingDigest(n: State) returns (sha: Sha256)
    requires StateOk(n)
    ensures forall m: State :: StateOk(m) && m != n ==> CriticalHashOf(sha, m) != CriticalHashOf(sha, n)
  {
    hide Preimage, StateOk;
    var ones: Digest, zeros: Digest := seq(32, _ => 1), seq(32, _ => 0);
    var y := Preimage(n);
    sha := (s: seq<byte>) => if s == y then ones else zeros;
    forall m: State | StateOk(m) && m != n ensures CriticalHashOf(sha, m) != CriticalHashOf(sha, n) {
      PreimageInjective(m, n);
      assert CriticalHashOf(sha, m)[0] == 0 && CriticalHashOf(sha, n)[0] == 1;
    }
  }

  const HASH_TEXT := "LatentMesh-Critical-State-v1"

  /** The text in front of every hashed state. */
  lemma TagIsText()
    ensures |HASH_TAG| == |HASH_TEXT| == 28 && forall i :: 0 <= i < 28 ==> HASH_TAG[i] == HASH_TEXT[i] as int
  {}

  /** The string of a state of one field, written out. */
  lemma OneFieldHashed(id: u16, v: SymbolValue)
    requires ValueOk(v)
    ensures StateOk(map[id := v])
    ensures Preimage(map[id := v])
         == HASH_TAG + [0, 1, id / 0x100, id % 0x100, TypeCode(v), |ValueBytes(v)|] + ValueBytes(v)
  {
    hide ValueBytes, TypeCode, Be, Entries;
    var m: State := map[id := v];
    TwoBytes(id);
    TwoBytes(1);
    OneEntry(id, v, 0);
    var e := Entry(id, v);
    assert EntriesBytes([e]) == EntryBytes(e) + EntriesBytes([e][1..]) && [e][1..] == [];
    assert HASH_TAG + Be(1, 2) + EntryBytes(e)
        == HASH_TAG + [0, 1, id / 0x100, id % 0x100, TypeCode(v), |ValueBytes(v)|] + ValueBytes(v);
  }

  lemma {:induction false} OneEntry(id: u16, v: SymbolValue, from: nat)
    requires from <= 0x1_0000
    ensures Entries(map[id := v], from) == if from <= id then [Entry(id, v)] else []
    decreases 0x1_0000 - from
  {
    if from < 0x1_0000 { OneEntry(id, v, from + 1); }
  }

  /** Codes and widths of the values; negative numbers in two's complement. */
  lemma ValuesAre(v: SymbolValue)
    ensures TypeCode(v)
         == match v case BoolValue(_) => 1 case I64(_) => 2 case U64(_) => 3 case Q16_16(_) => 4 case Bytes(_) => 5
    ensures match v
            case BoolValue(flag) => ValueBytes(v) == [if flag then 1 else 0]
            case I64(i) => ValueBytes(v) == Be(if i < 0 then i + 0x1_0000_0000_0000_0000 else i, 8)
            case U64(u) => ValueBytes(v) == Be(u, 8)
            case Q16_16(q) => ValueBytes(v) == Be(if q < 0 then q + 0x1_0000_0000 else q, 4)
            case Bytes(bytes) => ValueBytes(v) == bytes
  {
    Pow256Values();
  }

  function SetField(m: State, id: u16, value: SymbolValue): Result<State> {
    if !ValueOk(value) then Err(LimitExceeded)
    else if id !in m && |m| == MAX_CRITICAL_FIELDS then Err(LimitExceeded)
    else Ok(m[id := value])
  }

  /** A field is refused only if its value is too long, or if it is the 65th. */
  lemma SetAnswers(m: State, id: u16, value: SymbolValue)
    ensures SetField(m, id, value)
         == if (value.Bytes? && |value.bytes| > 32) || (id !in m.Keys && |m| == 64) then Err(LimitExceeded)
            else Ok(m[id := value])
  {}

  function RemoveField(m: State, id: u16): State { m - {id} }

  class CriticalState {
    var fields: State

    ghost predicate Valid()
      reads this
    {
      StateOk(fields)
    }

    constructor ()
      ensures Valid() && fields == map[]
    {
      fields := map[];
    }

    constructor Clone(other: CriticalState)
      requires other.Valid()
      ensures Valid() && fields == other.fields
    {
      fields := other.fields;
    }

    method Set(id: u16, value: SymbolValue) returns (r: Result<()>)
      requires Valid()
      modifies this
      ensures Valid()
      ensures r == (if SetField(old(fields), id, value).Ok? then Ok(()) else Err(LimitExceeded))
      ensures fields == if r.Ok? then SetField(old(fields), id, value).value else old(fields)
    {
      var _ :- ValidateValue(value);
      if id !in fields && |fields| == MAX_CRITICAL_FIELDS { return Err(LimitExceeded); }
      fields := fields[id := value];
      return Ok(());
    }

    method Remove(id: u16) returns (removed: Option<SymbolValue>)
      requires Valid()
      modifies this
      ensures Valid() && fields == RemoveField(old(fields), id)
      ensures removed == if id in old(fields) then Some(old(fields)[id]) else None
    {
      removed := if id in fields then Some(fields[id]) else None;
      fields := fields - {id};
    }

    method CriticalHash(sha: Sha256) returns (h: seq<byte>)
      requires Valid()
      ensures h == CriticalHashOf(sha, fields)
    {
      hide Entries, ValueBytes, TypeCode;
      EntriesHold(fields, 0);
      var entries := Entries(fields, 0);
      var hashed := HASH_TAG + Be(|fields|, 2);
      var done: seq<byte> := [];
      for i := 0 to |entries|
        invariant done == EntriesBytes(entries[..i])
      {
        EntriesBytesBack(entries[..i + 1]);
        assert entries[..i + 1][..i] == entries[..i];
        done := done + EntryBytes(entries[i]);
      }
      assert entries[..|entries|] == entries;
      return sha(hashed + done)[..CRITICAL_HASH_BYTES];
    }
  }
}
