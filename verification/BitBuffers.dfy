/** Bits packed into byte buffers, most significant bit first.  The methods write
  * single bits of an array in place, as the C sources do, and are specified by
  * what they do to the string of all the bits of the buffer: one position
  * changes, or a prefix is cleared.
  */
module BitBuffers {
  import opened Words

  /** `(data[bit >> 3] >> (7 - (bit & 7))) & 1` */
  predicate GetBit(data: seq<byte>, bit: nat)
    requires bit < 8 * |data|
  {
    Bit(data[bit / 8], 7 - bit % 8)
  }

  /** The bit string a buffer holds. */
  function BitsOf(data: seq<byte>): (bits: seq<bool>)
    ensures |bits| == 8 * |data|
    ensures forall k :: 0 <= k < |bits| ==> bits[k] == GetBit(data, k)
  {
    seq(8 * |data|, k requires 0 <= k < 8 * |data| => GetBit(data, k))
  }

  /** Sets one bit in place and no other. */
  method PutBit(data: array<byte>, bit: nat, value: bool)
    requires bit < 8 * data.Length
    modifies data
    ensures BitsOf(data[..]) == old(BitsOf(data[..]))[bit := value]
    ensures forall i :: 0 <= i < data.Length && i != bit / 8 ==> data[i] == old(data[i])
  {
    var at, shift, was := bit / 8, 7 - bit % 8, data[bit / 8];
    Pow2Values();
    SetBitBound(was, shift, 8);
    data[at] := if value then SetBit(was, shift) else ClearBit(was, shift);
    forall k | 0 <= k < 8 * data.Length
      ensures GetBit(data[..], k) == if k == bit then value else GetBit(old(data[..]), k)
    {
      if k / 8 == at {
        BitOfSetBit(was, shift, 7 - k % 8);
        BitOfClearBit(was, shift, 7 - k % 8);
        assert 7 - k % 8 == shift <==> k == bit;
      }
    }
  }

  /** `memset(data, 0, bytes)` */
  method Clear(data: array<byte>, bytes: nat)
    requires bytes <= data.Length
    modifies data
    ensures data[..] == seq(bytes, _ => 0) + old(data[bytes..])
    ensures forall k :: 0 <= k < 8 * bytes ==> !BitsOf(data[..])[k]
    ensures forall k :: 8 * bytes <= k < 8 * data.Length ==> BitsOf(data[..])[k] == old(BitsOf(data[..]))[k]
  {
    var i := 0;
    while i < bytes
      invariant 0 <= i <= bytes
      invariant forall j :: 0 <= j < i ==> data[j] == 0
      invariant forall j :: i <= j < data.Length ==> data[j] == old(data[j])
    {
      data[i] := 0;
      i := i + 1;
    }
    forall k | 0 <= k < 8 * bytes ensures !GetBit(data[..], k) { ZeroBits(7 - k % 8); }
  }

  /** Two buffers holding the same bits hold the same bytes. */
  lemma BitsOfInjective(a: seq<byte>, b: seq<byte>)
    requires |a| == |b| && BitsOf(a) == BitsOf(b)
    ensures a == b
  {
    hide Bit;
    forall i | 0 <= i < |a| ensures a[i] == b[i] { SameByte(a, b, i); }
  }

  lemma SameByte(a: seq<byte>, b: seq<byte>, i: nat)
    requires |a| == |b| && BitsOf(a) == BitsOf(b) && i < |a|
    ensures a[i] == b[i]
  {
    hide Bit;
    Pow2Values();
    forall j: nat | j < 8 ensures Bit(a[i], j) == Bit(b[i], j) {
      var k := 8 * i + 7 - j;
      assert k / 8 == i && k % 8 == 7 - j;
      assert GetBit(a, k) == BitsOf(a)[k] == BitsOf(b)[k] == GetBit(b, k);
    }
    BitsDetermine(a[i], b[i], 8);
  }

  lemma BitsOfPrefix(data: seq<byte>, n: nat)
    requires n <= |data|
    ensures BitsOf(data[..n]) == BitsOf(data)[..8 * n]
  {}

  function Weighed(bit: bool, weight: nat): nat { if bit then weight else 0 }

  /** Eight bits of the string, the first with the highest weight, are a byte of
    * the buffer. */
  lemma ByteIsItsBits(data: seq<byte>, i: nat)
    requires i < |data|
    ensures var bits := BitsOf(data)[8 * i..8 * i + 8];
            data[i] == Weighed(bits[0], 128) + Weighed(bits[1], 64) + Weighed(bits[2], 32) + Weighed(bits[3], 16)
                       + Weighed(bits[4], 8) + Weighed(bits[5], 4) + Weighed(bits[6], 2) + Weighed(bits[7], 1)
  {
    hide Bit;
    ByteDigits(data[i]);
    forall k | 8 * i <= k < 8 * i + 8 ensures BitsOf(data)[k] == Bit(data[i], 7 - (k - 8 * i)) {
      assert k / 8 == i && k % 8 == k - 8 * i;
    }
    hide BitsOf, Weighed;
  }

  lemma ByteDigits(b: byte)
    ensures b == Weighed(Bit(b, 7), 128) + Weighed(Bit(b, 6), 64) + Weighed(Bit(b, 5), 32) + Weighed(Bit(b, 4), 16)
               + Weighed(Bit(b, 3), 8) + Weighed(Bit(b, 2), 4) + Weighed(Bit(b, 1), 2) + Weighed(Bit(b, 0), 1)
  {
    SmallPowers();
    WeighedDigit(b, 0, 1);
    WeighedDigit(b, 1, 2);
    WeighedDigit(b, 2, 4);
    WeighedDigit(b, 3, 8);
    WeighedDigit(b, 4, 16);
    WeighedDigit(b, 5, 32);
    WeighedDigit(b, 6, 64);
    WeighedDigit(b, 7, 128);
    Halves(b);
    hide Bit, Pow2, Weighed;
  }

  lemma WeighedDigit(b: byte, i: nat, p: nat)
    requires Pow2(i) == p
    ensures Weighed(Bit(b, i), p) == p * (b / p % 2)
  {
    BitIsDigit(b, i);
    hide Bit, Pow2;
  }

  lemma Halves(b: byte)
    ensures b == 128 * (b / 128 % 2) + 64 * (b / 64 % 2) + 32 * (b / 32 % 2) + 16 * (b / 16 % 2)
               + 8 * (b / 8 % 2) + 4 * (b / 4 % 2) + 2 * (b / 2 % 2) + 1 * (b / 1 % 2)
  {
    HighHalves(b);
    assert b / 8 == 2 * (b / 16) + b / 8 % 2 && b / 4 == 2 * (b / 8) + b / 4 % 2;
    assert b / 2 == 2 * (b / 4) + b / 2 % 2 && b == 2 * (b / 2) + b % 2;
  }

  lemma HighHalves(b: byte)
    ensures b / 16 == 8 * (b / 128 % 2) + 4 * (b / 64 % 2) + 2 * (b / 32 % 2) + b / 16 % 2
  {
    assert b / 128 == b / 128 % 2 && b / 64 == 2 * (b / 128) + b / 64 % 2;
    assert b / 32 == 2 * (b / 64) + b / 32 % 2 && b / 16 == 2 * (b / 32) + b / 16 % 2;
  }

  lemma SmallPowers()
    ensures Pow2(0) == 1 && Pow2(1) == 2 && Pow2(2) == 4 && Pow2(3) == 8 && Pow2(4) == 16 && Pow2(5) == 32
    ensures Pow2(6) == 64 && Pow2(7) == 128
  {
    assert Pow2(4) == 2 * Pow2(3);
  }
}
