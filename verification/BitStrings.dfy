/** Bit strings as numbers and as bytes, and what reordering does to the
  * distance between two of them.  A permutation of the positions keeps the
  * number of differing bits, which is why an interleaved block survives exactly
  * the bit errors its code corrects.
  */
module BitStrings {
  import opened Words
  import opened BitBuffers
  import opened Trellis
  import Interleaver

  /** The number the bits denote, most significant first. */
  function ByteOf(bits: seq<bool>): (v: nat)
    ensures v < Pow2(|bits|)
  {
    if bits == [] then 0 else 2 * ByteOf(Front(bits)) + Int(Last(bits))
  }

  lemma {:induction false} BitOfByteOf(bits: seq<bool>, i: nat)
    requires i < |bits|
    ensures Bit(ByteOf(bits), i) == bits[|bits| - 1 - i]
  {
    if i > 0 { BitOfByteOf(Front(bits), i - 1); }
  }

  /** The low `width` bits of `v`, most significant first. */
  function BitsOfNumber(v: nat, width: nat): (bits: seq<bool>)
    ensures |bits| == width
  {
    seq(width, i requires 0 <= i < width => Bit(v, width - 1 - i))
  }

  lemma NumberOfBits(v: nat, bits: seq<bool>)
    requires v < Pow2(|bits|)
    ensures ByteOf(bits) == v <==> bits == BitsOfNumber(v, |bits|)
  {
    hide Bit, ByteOf;
    forall i: nat | i < |bits| ensures Bit(ByteOf(bits), i) == bits[|bits| - 1 - i] { BitOfByteOf(bits, i); }
    if ByteOf(bits) == v {
      forall i | 0 <= i < |bits| ensures bits[i] == BitsOfNumber(v, |bits|)[i] {
        assert Bit(ByteOf(bits), |bits| - 1 - i) == bits[i];
      }
    }
    if bits == BitsOfNumber(v, |bits|) {
      forall j: nat | j < |bits| ensures Bit(ByteOf(bits), j) == Bit(v, j) {
        assert bits[|bits| - 1 - j] == Bit(v, j);
      }
      BitsDetermine(ByteOf(bits), v, |bits|);
    }
  }

  lemma ChunksHold(bits: seq<bool>, bytes: seq<byte>)
    requires |bits| == 8 * |bytes| && forall i :: 0 <= i < |bytes| ==> bytes[i] == ByteOf(bits[8 * i..8 * i + 8])
    ensures BitsOf(bytes) == bits
  {
    hide Bit, ByteOf;
    forall k | 0 <= k < |bits| ensures GetBit(bytes, k) == bits[k] {
      BitOfByteOf(bits[8 * (k / 8)..8 * (k / 8) + 8], 7 - k % 8);
    }
  }

  /** The bytes that hold these bits. */
  function BytesOf(bits: seq<bool>): (bytes: seq<byte>)
    requires |bits| % 8 == 0
    ensures BitsOf(bytes) == bits
  {
    hide Bit, ByteOf;
    Pow2Values();
    var bytes: seq<byte> := seq(|bits| / 8, i requires 0 <= i < |bits| / 8 => ByteOf(bits[8 * i..8 * i + 8]));
    assert BitsOf(bytes) == bits by { ChunksHold(bits, bytes); }
    bytes
  }

  lemma BytesAre(bytes: seq<byte>, bits: seq<bool>)
    requires BitsOf(bytes) == bits
    ensures |bits| % 8 == 0 && bytes == BytesOf(bits)
  {
    hide Bit, ByteOf;
    BitsOfInjective(bytes, BytesOf(bits));
  }

  // ----- the interleaver keeps distances ---------------------------------------------

  function Differences(a: seq<bool>, b: seq<bool>): set<nat>
    requires |a| == |b|
  {
    set i: nat | i < |a| && a[i] != b[i]
  }

  lemma {:induction false} DistanceCounts(a: seq<bool>, b: seq<bool>)
    requires |a| == |b|
    ensures Distance(a, b) == |Differences(a, b)|
  {
    if a != [] {
      var n := |a| - 1;
      DistanceCounts(a[..n], b[..n]);
      var front := Differences(a[..n], b[..n]);
      assert Differences(a, b) == if a[n] != b[n] then front + {n} else front;
      assert n !in front;
    }
  }

  lemma {:induction false} InjectionSize(s: set<nat>, t: set<nat>, f: nat -> nat)
    requires forall x :: x in s ==> f(x) in t
    requires forall x, y :: x in s && y in s && f(x) == f(y) ==> x == y
    ensures |s| <= |t|
    decreases |s|
  {
    if s != {} {
      var x :| x in s;
      InjectionSize(s - {x}, t - {f(x)}, f);
    }
  }

  lemma DeinterleavedDistance(a: seq<bool>, b: seq<bool>, c: nat)
    requires c > 0 && |a| == |b|
    ensures Distance(Interleaver.Deinterleaved(a, c), Interleaver.Deinterleaved(b, c)) <= Distance(a, b)
  {
    hide Interleaver.Position, Interleaver.Source, Distance;
    var n := |a|;
    var da, db := Interleaver.Deinterleaved(a, c), Interleaver.Deinterleaved(b, c);
    DistanceCounts(a, b);
    DistanceCounts(da, db);
    var f := (i: nat) => if i < n then Interleaver.Position(n, c, i) else i;
    forall x, y | x in Differences(da, db) && y in Differences(da, db) && f(x) == f(y) ensures x == y {
      Interleaver.Permutation(n, c, x);
      Interleaver.Permutation(n, c, y);
    }
    InjectionSize(Differences(da, db), Differences(a, b), f);
  }
}
