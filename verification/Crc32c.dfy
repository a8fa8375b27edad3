/** CRC-32C, reflected: the bitwise Rust form, the nibble-table C form, and the
  * error detection both give.  Registers are 32-bit vectors; that the table form
  * is the bitwise one, and that changed bytes change the result, follows from
  * both being linear.
  */
module Crc32c {
  import opened Words

  const POLYNOMIAL: bv32 := 0x82f6_3b78

  function Xor(x: bv32, y: bv32): bv32 { x ^ y }
  function Half(x: bv32): bv32 { x >> 1 }
  predicate Odd(x: bv32) { x & 1 == 1 }
  function Word(b: byte): bv32 { (b as bv8) as bv32 }

  /** One turn of the loop: shift, and reduce if a one fell out. */
  function BitStep(crc: bv32): bv32 {
    if Odd(crc) then Xor(Half(crc), POLYNOMIAL) else Half(crc)
  }

  /** The turn as the Rust source writes it, with a mask of ones or zeros. */
  function MaskedStep(crc: bv32): bv32 {
    var mask := 0 - (crc & 1);
    (crc >> 1) ^ (0x82f6_3b78 & mask)
  }

  lemma MaskedIsBitStep(crc: bv32)
    ensures MaskedStep(crc) == BitStep(crc)
  {
    MaskOf(crc & 1);
    LowBit(crc);
  }

  lemma LowBit(crc: bv32)
    ensures crc & 1 <= 1
  {}

  lemma MaskOf(bit: bv32)
    requires bit <= 1
    ensures POLYNOMIAL & (0 - bit) == if bit == 1 then POLYNOMIAL else 0
  {
    if bit == 1 { assert (0 as bv32) - 1 == 0xffff_ffff; } else { assert bit == 0; }
  }

  function FourBits(crc: bv32): bv32 { BitStep(BitStep(BitStep(BitStep(crc)))) }
  function EightBits(crc: bv32): bv32 { FourBits(FourBits(crc)) }

  /** The register after a byte string, starting from all ones. */
  function Register(bytes: seq<byte>): bv32 {
    if bytes == [] then 0xffff_ffff
    else EightBits(Xor(Register(bytes[..|bytes| - 1]), Word(bytes[|bytes| - 1])))
  }

  function Complement(x: bv32): bv32 { !x }

  function Number(x: bv32): (n: u32) { x as int }

  function Crc(bytes: seq<byte>): u32 { Number(Complement(Register(bytes))) }

  lemma RegisterExtend(bytes: seq<byte>, b: byte)
    ensures Register(bytes + [b]) == EightBits(Xor(Register(bytes), Word(b)))
  {
    hide EightBits, Xor, Word;
    assert (bytes + [b])[..|bytes|] == bytes;
  }

  method BitwiseCrc32c(bytes: seq<byte>) returns (crc: u32)
    ensures crc == Crc(bytes)
  {
    hide EightBits, Xor, Word, Complement, Number;
    var c: bv32 := 0xffff_ffff;
    assert bytes[..0] == [];
    for i := 0 to |bytes|
      invariant c == Register(bytes[..i])
    {
      assert bytes[..i + 1] == bytes[..i] + [bytes[i]];
      RegisterExtend(bytes[..i], bytes[i]);
      c := EightTurnsOf(Xor(c, Word(bytes[i])));
    }
    assert bytes[..|bytes|] == bytes;
    crc := Number(Complement(c));
  }

  /** The Rust inner loop. */
  method EightTurnsOf(crc: bv32) returns (c: bv32)
    ensures c == EightBits(crc)
  {
    hide BitStep, MaskedStep;
    c := crc;
    for k := 0 to 8
      invariant c == Turns(crc, k)
    {
      MaskedIsBitStep(c);
      c := MaskedStep(c);
    }
    EightTurns(crc);
  }

  function Turns(crc: bv32, k: nat): bv32 {
    if k == 0 then crc else BitStep(Turns(crc, k - 1))
  }

  lemma EightTurns(crc: bv32)
    ensures Turns(crc, 8) == EightBits(crc)
  {
    hide BitStep;
    assert Turns(crc, 0) == crc;
    var t1, t2, t3 := Turns(crc, 1), Turns(crc, 2), Turns(crc, 3);
    assert t1 == BitStep(crc) && t2 == BitStep(t1) && t3 == BitStep(t2);
    var t4, t5, t6, t7 := Turns(crc, 4), Turns(crc, 5), Turns(crc, 6), Turns(crc, 7);
    assert t4 == BitStep(t3) && t5 == BitStep(t4) && t6 == BitStep(t5) && t7 == BitStep(t6);
  }

  /** The table of the C source. */
  function NibbleTable(nibble: bv32): bv32 {
    if nibble < 8 then
      if nibble < 4 then
        if nibble < 2 then (if nibble == 0 then 0x0000_0000 else 0x105e_c76f)
        else (if nibble == 2 then 0x20bd_8ede else 0x30e3_49b1)
      else
        if nibble < 6 then (if nibble == 4 then 0x417b_1dbc else 0x5125_dad3)
        else (if nibble == 6 then 0x61c6_9362 else 0x7198_540d)
    else
      if nibble < 12 then
        if nibble < 10 then (if nibble == 8 then 0x82f6_3b78 else 0x92a8_fc17)
        else (if nibble == 10 then 0xa24b_b5a6 else 0xb215_72c9)
      else
        if nibble < 14 then (if nibble == 12 then 0xc38d_26c4 else 0xd3d3_e1ab)
        else (if nibble == 14 then 0xe330_a81a else 0xf36e_6f75)
  }

  function LowPart(crc: bv32): bv32 { crc & 0xf }
  function HighPart(crc: bv32): bv32 { crc & 0xffff_fff0 }
  function Shifted(crc: bv32): bv32 { crc >> 4 }

  function NibbleStep(crc: bv32): bv32 { Xor(Shifted(crc), NibbleTable(LowPart(crc))) }

  /** One table lookup is four turns of the bitwise loop. */
  lemma NibbleIsFourBits(crc: bv32)
    ensures NibbleStep(crc) == FourBits(crc)
  {
    hide FourBits, NibbleTable, Xor, Shifted, LowPart, HighPart;
    SplitNibble(crc);
    FourBitsLinear(HighPart(crc), LowPart(crc));
    HighNibbles(crc);
    LowNibble(LowPart(crc));
  }

  lemma SplitNibble(crc: bv32)
    ensures Xor(HighPart(crc), LowPart(crc)) == crc && LowPart(crc) < 16
  {}

  /** Four turns on a register whose low four bits are zero only shift it. */
  lemma HighNibbles(crc: bv32)
    ensures FourBits(HighPart(crc)) == Shifted(crc)
  {
    hide Half, Odd, Xor, Shifted, HighPart;
    EvenHalves(crc);
  }

  lemma EvenHalves(crc: bv32)
    ensures var h := HighPart(crc);
            && !Odd(h) && !Odd(Half(h)) && !Odd(Half(Half(h))) && !Odd(Half(Half(Half(h))))
            && Half(Half(Half(Half(h)))) == Shifted(crc)
  {}

  /** The table is four turns on each of its sixteen indices. */
  lemma LowNibble(low: bv32)
    requires low < 16
    ensures FourBits(low) == NibbleTable(low)
  {
    if low < 8 {
      if low < 4 {
        if low == 0 {} else if low == 1 {} else if low == 2 {} else { assert low == 3; }
      } else {
        if low == 4 {} else if low == 5 {} else if low == 6 {} else { assert low == 7; }
      }
    } else {
      if low < 12 {
        if low == 8 {} else if low == 9 {} else if low == 10 {} else { assert low == 11; }
      } else {
        if low == 12 {} else if low == 13 {} else if low == 14 {} else { assert low == 15; }
      }
    }
  }

  method NibbleCrc32c(data: seq<byte>) returns (crc: u32)
    ensures crc == Crc(data)
  {
    hide NibbleStep, FourBits, Xor, Word, Complement, Number;
    var c: bv32 := 0xffff_ffff;
    assert data[..0] == [];
    for i := 0 to |data|
      invariant c == Register(data[..i])
    {
      assert data[..i + 1] == data[..i] + [data[i]];
      RegisterExtend(data[..i], data[i]);
      c := Xor(c, Word(data[i]));
      NibbleIsFourBits(c);
      c := NibbleStep(c);
      NibbleIsFourBits(c);
      c := NibbleStep(c);
    }
    assert data[..|data|] == data;
    crc := Number(Complement(c));
  }

  // ---------------------------------------------------------- error detection

  lemma XorLaws(x: bv32, y: bv32, z: bv32)
    ensures Xor(x, y) == Xor(y, x)
    ensures Xor(Xor(x, y), z) == Xor(x, Xor(y, z))
    ensures Xor(x, x) == 0 && Xor(x, 0) == x && Xor(0, x) == x
    ensures Xor(x, y) == 0 <==> x == y
  {
    XorLawsRaw(x, y, z);
  }

  lemma XorLawsRaw(x: bv32, y: bv32, z: bv32)
    ensures x ^ y == y ^ x
    ensures (x ^ y) ^ z == x ^ (y ^ z)
    ensures x ^ x == 0 && x ^ 0 == x && 0 ^ x == x
    ensures x ^ y == 0 <==> x == y
  {}

  /** (p + x) - (q + y) == (p - q) + (x - y) */
  lemma XorExchange(p: bv32, x: bv32, q: bv32, y: bv32)
    ensures Xor(Xor(p, x), Xor(q, y)) == Xor(Xor(p, q), Xor(x, y))
  {
    XorLaws(p, x, Xor(q, y));
    XorLaws(x, q, y);
    XorLaws(q, x, y);
    XorLaws(p, q, Xor(x, y));
    hide Xor;
  }

  lemma HalfLinear(x: bv32, y: bv32)
    ensures Half(Xor(x, y)) == Xor(Half(x), Half(y))
    ensures Odd(Xor(x, y)) == (Odd(x) != Odd(y))
  {}

  lemma BitStepLinear(x: bv32, y: bv32)
    ensures BitStep(Xor(x, y)) == Xor(BitStep(x), BitStep(y))
  {
    HalfLinear(x, y);
    XorExchange(Half(x), POLYNOMIAL, Half(y), POLYNOMIAL);
    XorExchange(Half(x), POLYNOMIAL, Half(y), 0);
    XorExchange(Half(x), 0, Half(y), POLYNOMIAL);
    XorLaws(Half(y), POLYNOMIAL, 0);
    XorLaws(Half(x), POLYNOMIAL, 0);
    XorLaws(Xor(Half(x), Half(y)), 0, 0);
    XorLaws(POLYNOMIAL, 0, 0);
    hide Xor, Half, Odd, POLYNOMIAL;
  }

  lemma BitStepInjective(x: bv32)
    ensures BitStep(x) == 0 ==> x == 0
  {}

  lemma FourBitsLinear(x: bv32, y: bv32)
    ensures FourBits(Xor(x, y)) == Xor(FourBits(x), FourBits(y))
  {
    hide BitStep, Xor;
    var x1, y1 := BitStep(x), BitStep(y);
    var x2, y2 := BitStep(x1), BitStep(y1);
    BitStepLinear(x, y);
    BitStepLinear(x1, y1);
    BitStepLinear(x2, y2);
    BitStepLinear(BitStep(x2), BitStep(y2));
  }

  lemma EightBitsLinear(x: bv32, y: bv32)
    ensures EightBits(Xor(x, y)) == Xor(EightBits(x), EightBits(y))
  {
    hide FourBits, Xor;
    FourBitsLinear(x, y);
    FourBitsLinear(FourBits(x), FourBits(y));
  }

  /** A difference in the register never dies out on equal input. */
  lemma EightBitsInjective(x: bv32)
    requires x != 0
    ensures EightBits(x) != 0
  {
    hide FourBits;
    FourBitsInjective(x);
    FourBitsInjective(FourBits(x));
  }

  lemma FourBitsInjective(x: bv32)
    requires x != 0
    ensures FourBits(x) != 0
  {
    hide BitStep;
    BitStepInjective(x);
    BitStepInjective(BitStep(x));
    BitStepInjective(BitStep(BitStep(x)));
    BitStepInjective(BitStep(BitStep(BitStep(x))));
  }

  /** Placed one byte higher. */
  function Raised(x: bv32): bv32 { x << 8 }

  /** Eight turns only shift a value whose low byte is clear. */
  lemma EightBitsOfRaised(x: bv32)
    requires x <= 0xff_ffff
    ensures EightBits(Raised(x)) == x
  {}

  lemma RaisedFits(x: bv32, d: bv32)
    requires x <= 0xffff && d <= 0xff
    ensures Xor(d, Raised(x)) <= 0xff_ffff
    ensures x <= 0xff ==> Xor(d, Raised(x)) <= 0xffff
  {}

  lemma RaisedZero(x: bv32, d: bv32)
    requires x <= 0xff_ffff && d <= 0xff
    ensures Xor(d, Raised(x)) == 0 <==> d == 0 && x == 0
  {}

  /** Feeding a byte and the rest of a window is feeding the window at once. */
  lemma PushWindow(r: bv32, d: bv32, rest: bv32)
    requires rest <= 0xff_ffff
    ensures EightBits(Xor(r, Xor(d, Raised(rest)))) == Xor(EightBits(Xor(r, d)), rest)
  {
    XorLaws(r, d, Raised(rest));
    EightBitsLinear(Xor(r, d), Raised(rest));
    EightBitsOfRaised(rest);
    hide Xor, Raised, EightBits;
  }

  /** The register difference after four bytes is their difference word pushed
    * through 32 turns, so it is zero only if all four bytes agree. */
  lemma FourByteWindow(d0: bv32, d1: bv32, d2: bv32, d3: bv32)
    requires d0 <= 0xff && d1 <= 0xff && d2 <= 0xff && d3 <= 0xff
    requires d0 != 0 || d1 != 0 || d2 != 0 || d3 != 0
    ensures EightBits(Xor(EightBits(Xor(EightBits(Xor(EightBits(Xor(0, d0)), d1)), d2)), d3)) != 0
  {
    hide EightBits, Raised, Xor;
    var w2 := Xor(d2, Raised(d3));
    var w1 := Xor(d1, Raised(w2));
    var w0 := Xor(d0, Raised(w1));
    RaisedFits(d3, d2);
    RaisedFits(w2, d1);
    RaisedZero(d3, d2);
    RaisedZero(w2, d1);
    RaisedZero(w1, d0);
    PushWindow(0, d0, w1);
    XorLaws(w0, 0, 0);
    var r1 := EightBits(Xor(0, d0));
    PushWindow(r1, d1, w2);
    var r2 := EightBits(Xor(r1, d1));
    PushWindow(r2, d2, d3);
    EightBitsInjective(w0);
    EightBitsInjective(EightBits(w0));
    EightBitsInjective(EightBits(EightBits(w0)));
    EightBitsInjective(EightBits(EightBits(EightBits(w0))));
  }

  lemma WordBits(b: byte)
    ensures Word(b) as int == b && Word(b) <= 0xff
  {
    ByteAsBits(b);
    BitsWidened(b as bv8);
  }

  /** Said range by range, which the solver decides more steadily. */
  lemma ByteAsBits(b: byte)
    ensures 0 <= b < 32 ==> (b as bv8) as int == b
    ensures 32 <= b < 64 ==> (b as bv8) as int == b
    ensures 64 <= b < 96 ==> (b as bv8) as int == b
    ensures 96 <= b < 128 ==> (b as bv8) as int == b
    ensures 128 <= b < 160 ==> (b as bv8) as int == b
    ensures 160 <= b < 192 ==> (b as bv8) as int == b
    ensures 192 <= b < 224 ==> (b as bv8) as int == b
    ensures 224 <= b < 256 ==> (b as bv8) as int == b
  {}

  lemma BitsWidened(x: bv8)
    ensures (x as bv32) as int == x as int && x as bv32 <= 0xff
  {}

  lemma WordDifference(a: byte, b: byte)
    ensures Xor(Word(a), Word(b)) <= 0xff
    ensures Xor(Word(a), Word(b)) == 0 <==> a == b
  {
    WordBits(a);
    WordBits(b);
    hide Word;
    XorLaws(Word(a), Word(b), 0);
    XorSmall(Word(a), Word(b));
    hide Xor;
  }

  lemma XorSmall(x: bv32, y: bv32)
    requires x <= 0xff && y <= 0xff
    ensures Xor(x, y) <= 0xff
  {}

  function Difference(a: seq<byte>, b: seq<byte>): bv32 { Xor(Register(a), Register(b)) }

  lemma DifferenceExtend(a: seq<byte>, b: seq<byte>, x: byte, y: byte)
    ensures Difference(a + [x], b + [y]) == EightBits(Xor(Difference(a, b), Xor(Word(x), Word(y))))
  {
    hide EightBits, Xor, Word, Register;
    RegisterExtend(a, x);
    RegisterExtend(b, y);
    EightBitsLinear(Xor(Register(a), Word(x)), Xor(Register(b), Word(y)));
    XorExchange(Register(a), Word(x), Register(b), Word(y));
  }

  lemma {:induction false} EqualTailKeepsDifference(a: seq<byte>, b: seq<byte>, tail: seq<byte>)
    requires Difference(a, b) != 0
    ensures Difference(a + tail, b + tail) != 0
  {
    hide Difference, EightBits, Xor, Word;
    if tail == [] {
      assert a + tail == a && b + tail == b;
    } else {
      var t, x := tail[..|tail| - 1], tail[|tail| - 1];
      assert a + tail == (a + t) + [x] && b + tail == (b + t) + [x];
      EqualTailKeepsDifference(a, b, t);
      DifferenceExtend(a + t, b + t, x, x);
      XorLaws(Word(x), 0, 0);
      XorLaws(Difference(a + t, b + t), 0, 0);
      EightBitsInjective(Difference(a + t, b + t));
    }
  }

  /** Two strings of one length that differ only inside four consecutive bytes
    * have different checksums. */
  lemma DetectsFourByteBurst(prefix: seq<byte>, p: seq<byte>, q: seq<byte>, tail: seq<byte>)
    requires |p| == |q| == 4 && p != q
    ensures Crc(prefix + p + tail) != Crc(prefix + q + tail)
  {
    hide Difference, Register, Crc;
    WindowDifference(prefix, p, q);
    EqualTailKeepsDifference(prefix + p, prefix + q, tail);
    RegistersDiffer(prefix + p + tail, prefix + q + tail);
  }

  lemma RegistersDiffer(a: seq<byte>, b: seq<byte>)
    requires Difference(a, b) != 0
    ensures Crc(a) != Crc(b)
  {
    hide Register, Xor;
    XorLaws(Register(a), Register(b), 0);
    ComplementInjective(Register(a), Register(b));
  }

  lemma ComplementInjective(x: bv32, y: bv32)
    requires x != y
    ensures Number(Complement(x)) != Number(Complement(y))
  {
    ComplementTwice(x, y);
    hide Complement;
    NumberBack(Complement(x));
    NumberBack(Complement(y));
    hide Number;
  }

  lemma ComplementTwice(x: bv32, y: bv32)
    ensures Complement(x) == Complement(y) ==> x == y
  {}

  lemma NumberBack(x: bv32)
    ensures Number(x) as bv32 == x
  {}

  lemma WindowDifference(prefix: seq<byte>, p: seq<byte>, q: seq<byte>)
    requires |p| == |q| == 4 && p != q
    ensures Difference(prefix + p, prefix + q) != 0
  {
    hide EightBits, Xor, Word, Register;
    XorLaws(Register(prefix), 0, 0);
    assert Difference(prefix, prefix) == 0;
    hide Difference;
    var d0, d1, d2, d3 := Xor(Word(p[0]), Word(q[0])), Xor(Word(p[1]), Word(q[1])), Xor(Word(p[2]), Word(q[2])),
        Xor(Word(p[3]), Word(q[3]));
    var a1, b1 := prefix + [p[0]], prefix + [q[0]];
    var a2, b2 := a1 + [p[1]], b1 + [q[1]];
    var a3, b3 := a2 + [p[2]], b2 + [q[2]];
    assert prefix + p == a3 + [p[3]] && prefix + q == b3 + [q[3]];
    DifferenceExtend(prefix, prefix, p[0], q[0]);
    DifferenceExtend(a1, b1, p[1], q[1]);
    DifferenceExtend(a2, b2, p[2], q[2]);
    DifferenceExtend(a3, b3, p[3], q[3]);
    WordDifference(p[0], q[0]);
    WordDifference(p[1], q[1]);
    WordDifference(p[2], q[2]);
    WordDifference(p[3], q[3]);
    assert d0 != 0 || d1 != 0 || d2 != 0 || d3 != 0 by {
      assert p[0] != q[0] || p[1] != q[1] || p[2] != q[2] || p[3] != q[3];
    }
    FourByteWindow(d0, d1, d2, d3);
  }

  // ----- which checksum it is --------------------------------------------------------------

  function Low(x: bv32): bv32 { x & 0xff }
  function Dropped(x: bv32): bv32 { x >> 8 }
  function LowByte(x: bv32): (b: byte) { (Low(x) as bv8) as int }

  /** The four bytes of a checksum, low byte first. */
  function LowFirst(n: u32): (bytes: seq<byte>) {
    var v0 := n as bv32;
    var v1 := Dropped(v0);
    var v2 := Dropped(v1);
    [LowByte(v0), LowByte(v1), LowByte(v2), LowByte(Dropped(v2))]
  }

  lemma WordOfLowByte(x: bv32)
    ensures Word(LowByte(x)) == Low(x)
  {
    BitsBack(Low(x) as bv8);
  }

  lemma BitsBack(x: bv8)
    ensures (x as int) as bv8 == x
  {}

  /** The four bytes make up the word again. */
  lemma WindowIsWord(v: bv32) returns (w1: bv32, w2: bv32)
    ensures var b := LowFirst(Number(v));
            && w2 == Xor(Word(b[2]), Raised(Word(b[3]))) && w2 <= 0xffff
            && w1 == Xor(Word(b[1]), Raised(w2)) && w1 <= 0xff_ffff
            && Xor(Word(b[0]), Raised(w1)) == v
  {
    hide Xor, Raised, Word, LowByte, Low, Dropped, Number;
    w1 := Dropped(v);
    w2 := Dropped(w1);
    var w3 := Dropped(w2);
    NumberBack(v);
    WordOfLowByte(v);
    WordOfLowByte(w1);
    WordOfLowByte(w2);
    WordOfLowByte(w3);
    LowAndRest(v);
    LowAndRest(w1);
    LowAndRest(w2);
    DroppedFits(v);
  }

  lemma LowAndRest(x: bv32)
    ensures x == Xor(Low(x), Raised(Dropped(x)))
  {}

  lemma DroppedFits(v: bv32)
    ensures Dropped(v) <= 0xff_ffff && Dropped(Dropped(v)) <= 0xffff
    ensures Low(Dropped(Dropped(Dropped(v)))) == Dropped(Dropped(Dropped(v)))
  {}

  lemma PushFour(r: bv32, d0: bv32, d1: bv32, d2: bv32, d3: bv32, w1: bv32, w2: bv32)
    requires d3 <= 0xff && w2 == Xor(d2, Raised(d3)) <= 0xffff && w1 == Xor(d1, Raised(w2)) <= 0xff_ffff
    ensures EightBits(Xor(EightBits(Xor(EightBits(Xor(EightBits(Xor(r, d0)), d1)), d2)), d3))
         == EightBits(EightBits(EightBits(EightBits(Xor(r, Xor(d0, Raised(w1)))))))
  {
    hide EightBits, Raised, Xor;
    PushWindow(r, d0, w1);
    var r1 := EightBits(Xor(r, d0));
    PushWindow(r1, d1, w2);
    PushWindow(EightBits(Xor(r1, d1)), d2, d3);
  }

  lemma XorComplement(x: bv32)
    ensures Xor(x, Complement(x)) == 0xffff_ffff
  {}

  lemma AllOnesPushed()
    ensures EightBits(EightBits(EightBits(EightBits(0xffff_ffff)))) == 0xb798_b438
  {
    OnesTurned();
    hide EightBits;
  }

  lemma OnesTurned()
    ensures EightBits(0xffff_ffff) == 0xad82_acae
    ensures EightBits(0xad82_acae) == 0x0e9e_882d
    ensures EightBits(0x0e9e_882d) == 0x9f9b_5c85
    ensures EightBits(0x9f9b_5c85) == 0xb798_b438
  {}

  lemma FinalComplement()
    ensures Number(Complement(0xb798_b438)) == 0x4867_4bc7
  {}

  /** A byte string with its checksum behind it, low byte first, has the residue
    * of CRC-32C, whatever the string is. */
  lemma ResidueIsConstant(bytes: seq<byte>)
    ensures Crc(bytes + LowFirst(Crc(bytes))) == 0x4867_4bc7
  {
    hide EightBits, Xor, Word, Complement, Number, Register;
    var r := Register(bytes);
    var v := Complement(r);
    var b := LowFirst(Number(v));
    var w1, w2 := WindowIsWord(v);
    WordBits(b[3]);
    PushFour(r, Word(b[0]), Word(b[1]), Word(b[2]), Word(b[3]), w1, w2);
    XorComplement(r);
    AllOnesPushed();
    FinalComplement();
    RegisterExtend(bytes, b[0]);
    RegisterExtend(bytes + [b[0]], b[1]);
    RegisterExtend(bytes + [b[0]] + [b[1]], b[2]);
    RegisterExtend(bytes + [b[0]] + [b[1]] + [b[2]], b[3]);
    assert bytes + [b[0]] + [b[1]] + [b[2]] + [b[3]] == bytes + b;
  }

  lemma EmptyChecksum()
    ensures Crc([]) == 0
  {}

  lemma Digit1Turned()
    ensures EightBits(Xor(0xffff_ffff, 0x31)) == 0x6f0a_661c
  {}

  lemma Digit2Turned()
    ensures EightBits(Xor(0x6f0a_661c, 0x32)) == 0x8caa_3b9f
  {}

  lemma Digit3Turned()
    ensures EightBits(Xor(0x8caa_3b9f, 0x33)) == 0xef84_d04d
  {}

  lemma Digit4Turned()
    ensures EightBits(Xor(0xef84_d04d, 0x34)) == 0x09c5_0b11
  {}

  lemma Digit5Turned()
    ensures EightBits(Xor(0x09c5_0b11, 0x35)) == 0xe72e_dcca
  {}

  lemma Digit6Turned()
    ensures EightBits(Xor(0xe72e_dcca, 0x36)) == 0xbeca_8e79
  {}

  lemma Digit7Turned()
    ensures EightBits(Xor(0xbeca_8e79, 0x37)) == 0xedbd_6815
  {}

  lemma Digit8Turned()
    ensures EightBits(Xor(0xedbd_6815, 0x38)) == 0x9f78_7f65
  {}

  lemma Digit9Turned()
    ensures EightBits(Xor(0x9f78_7f65, 0x39)) == 0x1cf9_6d7c
  {}

  /** The check value of CRC-32C: the checksum of the digits 1 to 9. */
  lemma CheckValue()
    ensures Crc([49, 50, 51, 52, 53, 54, 55, 56, 57]) == 0xe306_9283
  {
    hide Register, Crc;
    NineDigits([49, 50, 51, 52, 53, 54, 55, 56, 57]);
  }

  lemma {:induction false} NineDigits(d: seq<byte>)
    requires |d| == 9 && d[0] == 49 && d[1] == 50 && d[2] == 51 && d[3] == 52 && d[4] == 53 && d[5] == 54
    requires d[6] == 55 && d[7] == 56 && d[8] == 57
    ensures Crc(d) == 0xe306_9283
  {
    assert d[..0] == [] && d[..9] == d;
    assert Register([]) == 0xffff_ffff;
    FinalDigits();
    DigitNumbers();
    hide Register, EightBits, Xor, Word, Complement, Number;
    Digit1Turned();
    NextRegister(d, 0, 0x31, 0xffff_ffff, 0x6f0a_661c);
    Digit2Turned();
    NextRegister(d, 1, 0x32, 0x6f0a_661c, 0x8caa_3b9f);
    Digit3Turned();
    NextRegister(d, 2, 0x33, 0x8caa_3b9f, 0xef84_d04d);
    Digit4Turned();
    NextRegister(d, 3, 0x34, 0xef84_d04d, 0x09c5_0b11);
    Digit5Turned();
    NextRegister(d, 4, 0x35, 0x09c5_0b11, 0xe72e_dcca);
    Digit6Turned();
    NextRegister(d, 5, 0x36, 0xe72e_dcca, 0xbeca_8e79);
    Digit7Turned();
    NextRegister(d, 6, 0x37, 0xbeca_8e79, 0xedbd_6815);
    Digit8Turned();
    NextRegister(d, 7, 0x38, 0xedbd_6815, 0x9f78_7f65);
    Digit9Turned();
    NextRegister(d, 8, 0x39, 0x9f78_7f65, 0x1cf9_6d7c);
  }

  lemma NextRegister(bytes: seq<byte>, i: nat, word: bv32, before: bv32, after: bv32)
    requires i < |bytes| && Number(word) == bytes[i]
    requires Register(bytes[..i]) == before && EightBits(Xor(before, word)) == after
    ensures Register(bytes[..i + 1]) == after
  {
    WordBits(bytes[i]);
    NumberBack(word);
    NumberBack(Word(bytes[i]));
    hide Register, EightBits, Xor, Word;
    assert bytes[..i + 1] == bytes[..i] + [bytes[i]];
    RegisterExtend(bytes[..i], bytes[i]);
  }

  lemma DigitNumbers()
    ensures Number(0x31) == 49 && Number(0x32) == 50 && Number(0x33) == 51 && Number(0x34) == 52 && Number(0x35) == 53
    ensures Number(0x36) == 54 && Number(0x37) == 55 && Number(0x38) == 56 && Number(0x39) == 57
  {}

  lemma FinalDigits()
    ensures Number(Complement(0x1cf9_6d7c)) == 0xe306_9283
  {}
}
