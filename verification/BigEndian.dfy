/** Unsigned numbers as big-endian byte strings of a fixed length.  Writing a
  * number that fits and reading it back gives the number, and reading a byte
  * string and writing the number gives the bytes; every header field of the
  * frames and envelopes is read and written this way.
  */
module BigEndian {
  import opened Words

  function Pow256(n: nat): (r: nat)
    ensures r >= 1
  {
    if n == 0 then 1 else 256 * Pow256(n - 1)
  }

  lemma Pow256Values()
    ensures Pow256(1) == 0x100 && Pow256(2) == 0x1_0000 && Pow256(4) == 0x1_0000_0000
    ensures Pow256(8) == 0x1_0000_0000_0000_0000
  {
    assert Pow256(4) == 0x1_0000_0000;
    assert Pow256(6) == 0x1_0000_0000_0000;
  }

  /** The low `n` bytes of `v`, most significant first. */
  function Be(v: nat, n: nat): (s: seq<byte>)
    ensures |s| == n
  {
    if n == 0 then [] else Be(v / 256, n - 1) + [v % 256]
  }

  function FromBe(s: seq<byte>): (v: nat)
    ensures v < Pow256(|s|)
  {
    if s == [] then 0 else 256 * FromBe(s[..|s| - 1]) + s[|s| - 1]
  }

  lemma {:induction false} FromBeOfBe(v: nat, n: nat)
    requires v < Pow256(n)
    ensures FromBe(Be(v, n)) == v
  {
    if n > 0 {
      FromBeOfBe(v / 256, n - 1);
      assert Be(v, n)[..n - 1] == Be(v / 256, n - 1);
    }
  }

  lemma {:induction false} BeOfFromBe(s: seq<byte>)
    ensures Be(FromBe(s), |s|) == s
  {
    if s != [] {
      var front, last := s[..|s| - 1], s[|s| - 1];
      BeOfFromBe(front);
      BeLast(FromBe(front), last, |s| - 1);
      assert FromBe(s) == 256 * FromBe(front) + last;
      hide FromBe, Be;
      assert s == front + [last];
    }
  }

  lemma BeLast(v: nat, last: byte, n: nat)
    ensures Be(256 * v + last, n + 1) == Be(v, n) + [last]
  {}

  function Get16(s: seq<byte>, at: nat): (v: u16)
    requires at + 2 <= |s|
  {
    Pow256Values();
    FromBe(s[at..at + 2])
  }

  function Get32(s: seq<byte>, at: nat): (v: u32)
    requires at + 4 <= |s|
  {
    Pow256Values();
    FromBe(s[at..at + 4])
  }

  function Get64(s: seq<byte>, at: nat): (v: u64)
    requires at + 8 <= |s|
  {
    Pow256Values();
    FromBe(s[at..at + 8])
  }

  /** The digit of weight 256 to the power `n - 1 - i` is at place `i`. */
  lemma {:induction false} BeDigit(v: nat, n: nat, i: nat)
    requires i < n
    ensures Be(v, n)[i] == v / Pow256(n - 1 - i) % 0x100
  {
    if i < n - 1 {
      BeDigit(v / 0x100, n - 1, i);
      DivTwice(v, Pow256(n - 2 - i));
    }
  }

  lemma DivTwice(v: nat, p: nat)
    requires p > 0
    ensures v / 0x100 / p == v / (0x100 * p)
  {
    var q := v / 0x100 / p;
    var a, b := v / 0x100 % p, v % 0x100;
    assert v == 0x100 * (p * q + a) + b;
    assert v == (0x100 * p) * q + (0x100 * a + b) by { assert 0x100 * (p * q) == (0x100 * p) * q; }
    assert 0x100 * a + b < 0x100 * p;
    DivModUnique(v, 0x100 * p, q, 0x100 * a + b);
  }

  /** Two bytes, the high one first. */
  lemma TwoBytes(v: u16)
    ensures Be(v, 2) == [v / 0x100, v % 0x100]
  {
    BeDigit(v, 2, 0);
    BeDigit(v, 2, 1);
  }

  lemma SmallPowers()
    ensures Pow256(0) == 1 && Pow256(1) == 0x100 && Pow256(2) == 0x1_0000 && Pow256(3) == 0x100_0000
  {
    assert Pow256(1) == 0x100 * Pow256(0);
  }

  /** Four bytes, the high one first. */
  function Number32(v: u32): (s: seq<byte>) {
    [v / 0x100_0000, v / 0x1_0000 % 0x100, v / 0x100 % 0x100, v % 0x100]
  }

  lemma FourBytes(v: u32)
    ensures Be(v, 4) == Number32(v)
  {
    SmallPowers();
    DigitOf(v, 4, 0, 0x100_0000);
    DigitOf(v, 4, 1, 0x1_0000);
    DigitOf(v, 4, 2, 0x100);
    DigitOf(v, 4, 3, 1);
    TopByte(v);
    hide Pow256, Be;
  }

  lemma DigitOf(v: nat, n: nat, i: nat, p: nat)
    requires i < n && Pow256(n - 1 - i) == p
    ensures p > 0 && Be(v, n)[i] == v / p % 0x100
  {
    BeDigit(v, n, i);
    hide Pow256, Be;
  }

  lemma TopByte(v: u32)
    ensures v / 0x100_0000 % 0x100 == v / 0x100_0000
  {}
}
