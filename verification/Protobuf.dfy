/** The slice of the protobuf wire format the Meshtastic crate needs: varints,
  * length-delimited bytes and fixed-width numbers.  Writers are functions to
  * byte strings; readers return a value and what follows it, or the error
  * the Rust code returns for truncated or overlong input.
  */
module Protobuf {
  import opened Words
  import opened MeshErrors

  type Bytes = seq<byte>

  const WIRE_VARINT := 0
  const WIRE_FIXED64 := 1
  const WIRE_LEN := 2
  const WIRE_FIXED32 := 5

  // ----- varints ----------------------------------------------------------------------

  /** Base 128, low group first; all but the last group carry the bit 0x80. */
  function Varint(v: nat): (s: Bytes)
    ensures s != []
  {
    if v < 0x80 then [v] else [v % 0x80 + 0x80] + Varint(v / 0x80)
  }

  method EncodeVarint(v: u64, out: Bytes) returns (after: Bytes)
    ensures after == out + Varint(v)
  {
    after := out;
    var value: nat := v;
    while true
      invariant after + Varint(value) == out + Varint(v)
      decreases value
    {
      var group := value % 0x80;
      ghost var before, whole := after, Varint(value);
      value := value / 0x80;
      if value == 0 {
        after := after + [group];
        return;
      }
      after := after + [group + 0x80];
      assert whole == [group + 0x80] + Varint(value);
      assert before + ([group + 0x80] + Varint(value)) == before + [group + 0x80] + Varint(value);
    }
  }

  /** A value and how many bytes it took. */
  datatype Taken<+T> = Taken(value: T, consumed: nat)

  const U64_SIZE := 0x1_0000_0000_0000_0000

  /** `(byte & 0x7f) << (7 * index)` in 64 bits; only the tenth group can lose
    * bits, all but its lowest. */
  function Group(b: byte, index: nat): (g: u64)
  {
    b % 0x80 * Pow2(7 * index) % U64_SIZE
  }

  /** The groups from number `index` on, with those before them. */
  function DecodeFrom(input: Bytes, index: nat, value: nat): (r: Result<Taken<nat>>)
    requires index <= 10
    ensures r.Ok? ==> index < r.value.consumed <= index + |input| && r.value.consumed <= 10
    ensures r.Err? ==> r.error == Truncated
    decreases 10 - index
  {
    if index == 10 || input == [] then Err(Truncated)
    else if input[0] < 0x80 then Ok(Taken(Or(value, Group(input[0], index)), index + 1))
    else DecodeFrom(input[1..], index + 1, Or(value, Group(input[0], index)))
  }

  function DecodeVarint(input: Bytes): (r: Result<Taken<nat>>)
    ensures r.Ok? ==> 0 < r.value.consumed <= |input|
  {
    DecodeFrom(input, 0, 0)
  }

  method ReadVarint(input: Bytes) returns (r: Result<Taken<nat>>)
    ensures r == DecodeVarint(input)
  {
    hide Group, DecodeFrom, Or;
    var value: nat := 0;
    var index := 0;
    assert input[0..] == input;
    while index < 10 && index < |input|
      invariant 0 <= index <= 10 && index <= |input|
      invariant DecodeVarint(input) == DecodeFrom(input[index..], index, value)
    {
      DecodeStep(input[index..], index, value);
      assert input[index..][1..] == input[index + 1..];
      value := Or(value, Group(input[index], index));
      if input[index] < 0x80 { return Ok(Taken(value, index + 1)); }
      index := index + 1;
    }
    DecodeStep(input[index..], index, value);
    return Err(Truncated);
  }

  lemma DecodeStep(input: Bytes, index: nat, value: nat)
    requires index <= 10
    ensures DecodeFrom(input, index, value)
         == if index == 10 || input == [] then Err(Truncated)
            else if input[0] < 0x80 then Ok(Taken(Or(value, Group(input[0], index)), index + 1))
            else DecodeFrom(input[1..], index + 1, Or(value, Group(input[0], index)))
  {
    hide Group, Or;
  }

  /** Groups that a 64-bit value needs. */
  lemma {:induction false} GroupCount(v: nat, room: nat)
    requires v < Pow2(7 * room) && room > 0
    ensures |Varint(v)| <= room
  {
    if v >= 0x80 {
      assert room > 1;
      Pow2Add(7 * (room - 1), 7);
      GroupCount(v / 0x80, room - 1);
    }
  }

  lemma GroupFits(b: byte, index: nat, v: nat)
    requires b % 0x80 * Pow2(7 * index) + v < U64_SIZE
    ensures Group(b, index) == b % 0x80 * Pow2(7 * index)
  {}

  lemma {:induction false} DecodesFrom(v: nat, tail: Bytes, index: nat, value: nat)
    requires index < 10 && value < Pow2(7 * index) && value + v * Pow2(7 * index) < U64_SIZE
    requires |Varint(v)| + index <= 10
    ensures DecodeFrom(Varint(v) + tail, index, value) == Ok(Taken(value + v * Pow2(7 * index), index + |Varint(v)|))
    decreases v
  {
    hide Pow2, Group, Or;
    var s := Varint(v) + tail;
    if v < 0x80 {
      GroupFits(v, index, value);
      OrIsSum(value, v, 7 * index);
    } else {
      var low, high := v % 0x80, v / 0x80;
      NextGroup(v, index, value);
      OrIsSum(value, low, 7 * index);
      GroupBelow(value, low, index);
      assert s[0] == low + 0x80 && s[1..] == Varint(high) + tail;
      DecodesFrom(high, tail, index + 1, value + low * Pow2(7 * index));
    }
  }

  /** A value of `index` groups with one more group on top has one group more. */
  lemma GroupBelow(value: nat, low: nat, index: nat)
    requires value < Pow2(7 * index) && low < 0x80
    ensures value + low * Pow2(7 * index) < Pow2(7 * (index + 1))
  {
    hide Pow2;
    SplitGroups(0, index);
    OneGroupMore(value, low, Pow2(7 * index));
  }

  lemma OneGroupMore(value: nat, low: nat, unit: nat)
    requires value < unit && low < 0x80
    ensures value + low * unit < 0x80 * unit
  {
    assert (low + 1) * unit <= 0x80 * unit;
  }

  /** One group off the front of a longer value. */
  lemma NextGroup(v: nat, index: nat, value: nat)
    requires value + v * Pow2(7 * index) < U64_SIZE
    ensures var low, high := v % 0x80, v / 0x80;
            && Group(low + 0x80, index) == low * Pow2(7 * index)
            && value + v * Pow2(7 * index) == (value + low * Pow2(7 * index)) + high * Pow2(7 * (index + 1))
  {
    hide Pow2, Group;
    var low, high := v % 0x80, v / 0x80;
    SplitGroups(v, index);
    Below(low, high, Pow2(7 * index), v * Pow2(7 * index));
    GroupFits(low + 0x80, index, 0);
  }

  lemma Below(low: nat, high: nat, unit: nat, total: nat)
    requires low * unit + high * (0x80 * unit) <= total
    ensures low * unit <= total
  {}

  lemma SplitGroups(v: nat, index: nat)
    ensures v * Pow2(7 * index) == v % 0x80 * Pow2(7 * index) + v / 0x80 * (0x80 * Pow2(7 * index))
    ensures Pow2(7 * (index + 1)) == 0x80 * Pow2(7 * index)
  {
    Pow2Add(7, 7 * index);
    hide Pow2;
    var p := Pow2(7 * index);
    assert v == v % 0x80 + 0x80 * (v / 0x80);
  }

  /** Every 64-bit value is read back, with whatever follows it. */
  lemma VarintRoundTrip(v: u64, tail: Bytes)
    ensures |Varint(v)| <= 10
    ensures DecodeVarint(Varint(v) + tail) == Ok(Taken(v, |Varint(v)|))
  {
    TenGroups();
    GroupCount(v, 10);
    assert v * Pow2(7 * 0) == v;
    DecodesFrom(v, tail, 0, 0);
  }

  lemma TenGroups()
    ensures Pow2(70) >= U64_SIZE
  {
    Pow2Values();
    Pow2Add(64, 6);
    hide Pow2;
    assert Pow2(64) * Pow2(6) >= Pow2(64);
  }

  // ----- fields ---------------------------------------------------------------------------

  /** Little-endian, `n` bytes. */
  function Le(v: nat, n: nat): (s: Bytes)
    ensures |s| == n
  {
    if n == 0 then [] else [v % 0x100] + Le(v / 0x100, n - 1)
  }

  function FromLe(s: Bytes): (v: nat)
    ensures v < Pow2(8 * |s|)
  {
    if s == [] then 0
    else
      assert Pow2(8 * |s|) == 0x100 * Pow2(8 * |s[1..]|) by { Pow2Add(8, 8 * |s[1..]|); Pow2Values(); }
      s[0] + 0x100 * FromLe(s[1..])
  }

  lemma {:induction false} LeRoundTrip(v: nat, n: nat)
    requires v < Pow2(8 * n)
    ensures FromLe(Le(v, n)) == v
  {
    if n > 0 {
      Pow2Add(8, 8 * (n - 1));
      Pow2Values();
      LeRoundTrip(v / 0x100, n - 1);
    }
  }

  function Tag(field: u32, wireType: nat): Bytes
    requires wireType < 8
  {
    Varint(8 * field + wireType)
  }

  function VarintField(field: u32, v: u64): Bytes { Tag(field, WIRE_VARINT) + Varint(v) }

  function Fixed32Field(field: u32, v: u32): Bytes { Tag(field, WIRE_FIXED32) + Le(v, 4) }

  function BytesField(field: u32, bytes: Bytes): Bytes { Tag(field, WIRE_LEN) + Varint(|bytes|) + bytes }

  method EncodeVarintField(field: u32, v: u64, out: Bytes) returns (after: Bytes)
    ensures after == out + VarintField(field, v)
  {
    hide Varint;
    after := EncodeVarint(8 * field + WIRE_VARINT, out);
    after := EncodeVarint(v, after);
    assert after == out + VarintField(field, v);
  }

  method EncodeFixed32Field(field: u32, v: u32, out: Bytes) returns (after: Bytes)
    ensures after == out + Fixed32Field(field, v)
  {
    hide Varint, Le;
    after := EncodeVarint(8 * field + WIRE_FIXED32, out);
    after := after + Le(v, 4);
    assert after == out + Fixed32Field(field, v);
  }

  method EncodeBytesField(field: u32, bytes: Bytes, out: Bytes) returns (after: Bytes)
    requires |bytes| < U64_SIZE
    ensures after == out + BytesField(field, bytes)
  {
    hide Varint;
    after := EncodeVarint(8 * field + WIRE_LEN, out);
    after := EncodeVarint(|bytes|, after);
    after := after + bytes;
    assert after == out + BytesField(field, bytes);
  }

  datatype FieldValue = VarintValue(v: nat) | Fixed64Value(v: nat) | BytesValue(bytes: Bytes) | Fixed32Value(v: nat)

  /** A field number and value. */
  datatype Field = Field(number: u32, value: FieldValue)

  function AfterTag(number: u32, wireType: nat, s: Bytes, offset: nat): (r: Result<Taken<Field>>)
    ensures r.Ok? ==> offset <= r.value.consumed <= offset + |s|
  {
    if wireType == WIRE_VARINT then
      var v :- DecodeVarint(s);
      Ok(Taken(Field(number, VarintValue(v.value)), offset + v.consumed))
    else if wireType == WIRE_FIXED64 then
      if |s| < 8 then Err(Truncated) else Ok(Taken(Field(number, Fixed64Value(FromLe(s[..8]))), offset + 8))
    else if wireType == WIRE_LEN then
      var n :- DecodeVarint(s);
      if n.consumed + n.value > |s| then Err(InvalidLength)
      else Ok(Taken(Field(number, BytesValue(s[n.consumed..n.consumed + n.value])), offset + n.consumed + n.value))
    else if wireType == WIRE_FIXED32 then
      if |s| < 4 then Err(Truncated) else Ok(Taken(Field(number, Fixed32Value(FromLe(s[..4]))), offset + 4))
    else Err(InvalidWireType)
  }

  /** The first field of a message; its number keeps the low 32 bits. */
  function ReadField(input: Bytes): (r: Result<Taken<Field>>)
    ensures r.Ok? ==> 0 < r.value.consumed <= |input|
  {
    var tag :- DecodeVarint(input);
    AfterTag(tag.value / 8 % 0x1_0000_0000, tag.value % 8, input[tag.consumed..], tag.consumed)
  }

  lemma TagReads(field: u32, wireType: nat, tail: Bytes)
    requires wireType < 8
    ensures var t := Tag(field, wireType);
            ReadField(t + tail) == AfterTag(field, wireType, tail, |t|)
  {
    hide Varint, DecodeVarint, AfterTag;
    var t := Tag(field, wireType);
    VarintRoundTrip(8 * field + wireType, tail);
    assert (t + tail)[|t|..] == tail;
  }

  lemma VarintFieldReads(field: u32, v: u64, tail: Bytes)
    ensures ReadField(VarintField(field, v) + tail) == Ok(Taken(Field(field, VarintValue(v)), |VarintField(field, v)|))
  {
    hide Varint, DecodeVarint, ReadField;
    VarintRoundTrip(v, tail);
    TagReads(field, WIRE_VARINT, Varint(v) + tail);
    assert VarintField(field, v) + tail == Tag(field, WIRE_VARINT) + (Varint(v) + tail);
  }

  lemma Fixed32FieldReads(field: u32, v: u32, tail: Bytes)
    ensures ReadField(Fixed32Field(field, v) + tail)
            == Ok(Taken(Field(field, Fixed32Value(v)), |Fixed32Field(field, v)|))
  {
    hide Varint, DecodeVarint, ReadField, Le, FromLe, Pow2;
    Pow2Values();
    LeRoundTrip(v, 4);
    TagReads(field, WIRE_FIXED32, Le(v, 4) + tail);
    assert (Le(v, 4) + tail)[..4] == Le(v, 4);
    assert Fixed32Field(field, v) + tail == Tag(field, WIRE_FIXED32) + (Le(v, 4) + tail);
  }

  lemma BytesFieldReads(field: u32, bytes: Bytes, tail: Bytes)
    requires |bytes| < U64_SIZE
    ensures ReadField(BytesField(field, bytes) + tail)
            == Ok(Taken(Field(field, BytesValue(bytes)), |BytesField(field, bytes)|))
  {
    hide Varint, DecodeVarint, ReadField;
    var n := Varint(|bytes|);
    VarintRoundTrip(|bytes|, bytes + tail);
    var s := n + (bytes + tail);
    TagReads(field, WIRE_LEN, s);
    assert s[|n|..|n| + |bytes|] == bytes;
    assert BytesField(field, bytes) + tail == Tag(field, WIRE_LEN) + s;
  }

  /** The fourth kind of value, which is read but never written. */
  lemma Fixed64FieldReads(field: u32, v: u64, tail: Bytes)
    ensures ReadField(Varint(8 * field + 1) + Le(v, 8) + tail)
            == Ok(Taken(Field(field, Fixed64Value(v)), |Varint(8 * field + 1)| + 8))
  {
    hide Varint, DecodeVarint, ReadField, Le, FromLe, Pow2;
    Pow2Values();
    LeRoundTrip(v, 8);
    TagReads(field, WIRE_FIXED64, Le(v, 8) + tail);
    assert (Le(v, 8) + tail)[..8] == Le(v, 8);
    assert Varint(8 * field + 1) + Le(v, 8) + tail == Tag(field, WIRE_FIXED64) + (Le(v, 8) + tail);
  }

  /** A varint is refused exactly if none of its first ten bytes ends it. */
  lemma VarintRefusedIff(input: Bytes)
    ensures DecodeVarint(input) == Err(Truncated) <==> forall i :: 0 <= i < 10 && i < |input| ==> input[i] >= 0x80
    ensures DecodeVarint(input).Err? ==> DecodeVarint(input) == Err(Truncated)
  {
    hide Or, Group;
    EndsIff(input, 0, 0);
  }

  lemma {:induction false} EndsIff(input: Bytes, index: nat, value: nat)
    requires index <= 10
    ensures DecodeFrom(input, index, value).Err?
       <==> forall i :: 0 <= i < 10 - index && i < |input| ==> input[i] >= 0x80
    decreases 10 - index
  {
    hide Or, Group;
    DecodeStep(input, index, value);
    if index < 10 && input != [] && input[0] >= 0x80 {
      EndsIff(input[1..], index + 1, Or(value, Group(input[0], index)));
      assert forall i :: 0 <= i < |input| - 1 ==> input[1..][i] == input[i + 1];
      assert forall i :: 0 < i < |input| ==> input[i] == input[1..][i - 1];
    }
  }

  /** Which fields are refused, and why, by the kind of value their tag names. */
  lemma FieldRefusedBecause(field: u32, wireType: nat, s: Bytes)
    requires wireType < 8
    ensures var r, n := ReadField(Varint(8 * field + wireType) + s), DecodeVarint(s);
            if wireType == 0 then r.Err? <==> n.Err?
            else if wireType == 1 then r == Err(Truncated) <==> |s| < 8
            else if wireType == 2 then
              if n.Err? then r == Err(Truncated)
              else r == Err(InvalidLength) <==> n.value.consumed + n.value.value > |s|
            else if wireType == 5 then r == Err(Truncated) <==> |s| < 4
            else r == Err(InvalidWireType)
  {
    hide Varint, DecodeVarint, ReadField;
    TagReads(field, wireType, s);
    VarintRefusedIff(s);
  }

  // ----- whole messages ------------------------------------------------------------------------

  /** Visits every field in order; the visitor's state is threaded through. */
  function FoldFields<S(!new)>(input: Bytes, s: S, visit: (S, Field) -> Result<S>): Result<S>
    decreases |input|
  {
    if input == [] then Ok(s)
    else
      var f :- ReadField(input);
      var next :- visit(s, f.value);
      FoldFields(input[f.consumed..], next, visit)
  }

  method ForEachField<S(!new)>(input: Bytes, s: S, visit: (S, Field) -> Result<S>) returns (r: Result<S>)
    ensures r == FoldFields(input, s, visit)
  {
    hide ReadField;
    var state := s;
    var offset := 0;
    while offset < |input|
      invariant 0 <= offset <= |input|
      invariant FoldFields(input, s, visit) == FoldFields(input[offset..], state, visit)
    {
      var f :- ReadField(input[offset..]);
      state :- visit(state, f.value);
      assert input[offset..][f.consumed..] == input[offset + f.consumed..];
      offset := offset + f.consumed;
    }
    return Ok(state);
  }

  /** The fold steps over a field that reads. */
  lemma FoldStep<S(!new)>(bytes: Bytes, rest: Bytes, f: Field, s: S, visit: (S, Field) -> Result<S>)
    requires bytes != [] && ReadField(bytes + rest) == Ok(Taken(f, |bytes|))
    ensures FoldFields(bytes + rest, s, visit)
         == if visit(s, f).Ok? then FoldFields(rest, visit(s, f).value, visit) else Err(visit(s, f).error)
  {
    hide ReadField;
    assert (bytes + rest)[|bytes|..] == rest;
  }
}
