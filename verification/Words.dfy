/** Fixed-width unsigned words of the C and Rust sources, as the numbers they
  * denote.  Shifts and bitwise operations on them are written out as
  * arithmetic, with one law per operation saying what every bit of the
  * result is.
  */
module Words {

  type byte = x: int | 0 <= x < 0x100
  type u16 = x: int | 0 <= x < 0x1_0000
  type u32 = x: int | 0 <= x < 0x1_0000_0000
  type u64 = x: int | 0 <= x < 0x1_0000_0000_0000_0000

  type int8 = x: int | -0x80 <= x < 0x80
  type int32 = x: int | -0x8000_0000 <= x < 0x8000_0000
  type int64 = x: int | -0x8000_0000_0000_0000 <= x < 0x8000_0000_0000_0000

  function Pow2(n: nat): (r: nat)
    ensures r >= 1
  {
    if n == 0 then 1 else 2 * Pow2(n - 1)
  }

  lemma Pow2Values()
    ensures Pow2(8) == 0x100 && Pow2(16) == 0x1_0000 && Pow2(32) == 0x1_0000_0000
    ensures Pow2(64) == 0x1_0000_0000_0000_0000
  {
    assert Pow2(4) == 0x10;
    Pow2Add(4, 4);
    Pow2Add(8, 8);
    Pow2Add(16, 16);
    Pow2Add(32, 32);
    hide Pow2;
  }

  lemma {:induction false} Pow2Add(m: nat, n: nat)
    ensures Pow2(m + n) == Pow2(m) * Pow2(n)
  {
    if m > 0 {
      Pow2Add(m - 1, n);
      assert Pow2(m + n) == 2 * (Pow2(m - 1) * Pow2(n));
    }
  }

  /** `(w >> i) & 1` */
  predicate Bit(w: nat, i: nat) {
    if i == 0 then w % 2 == 1 else Bit(w / 2, i - 1)
  }

  /** `w | (1 << i)` */
  function SetBit(w: nat, i: nat): nat {
    if i == 0 then w / 2 * 2 + 1 else SetBit(w / 2, i - 1) * 2 + w % 2
  }

  /** `w & ~(1 << i)` */
  function ClearBit(w: nat, i: nat): nat {
    if i == 0 then w / 2 * 2 else ClearBit(w / 2, i - 1) * 2 + w % 2
  }

  /** `v | w` */
  function Or(v: nat, w: nat): nat
    decreases v + w
  {
    if v == 0 then w else if w == 0 then v else 2 * Or(v / 2, w / 2) + (if v % 2 == 1 || w % 2 == 1 then 1 else 0)
  }

  lemma {:induction false} BitOfOr(v: nat, w: nat, i: nat)
    ensures Bit(Or(v, w), i) == (Bit(v, i) || Bit(w, i))
    decreases v + w
  {
    if v == 0 {
      ZeroBits(i);
    } else if w == 0 {
      ZeroBits(i);
    } else if i > 0 {
      BitOfOr(v / 2, w / 2, i - 1);
    }
  }

  /** Where the bits of one lie above all bits of the other, `|` is addition. */
  lemma {:induction false} OrIsSum(v: nat, high: nat, k: nat)
    requires v < Pow2(k)
    ensures Or(v, high * Pow2(k)) == v + high * Pow2(k)
    decreases k
  {
    if k > 0 && v > 0 && high > 0 {
      var w := high * Pow2(k - 1);
      assert high * Pow2(k) == 2 * w;
      OrIsSum(v / 2, high, k - 1);
    }
  }

  /** `w << d` in a word of `width` bits */
  function ShiftLeft(w: nat, d: nat, width: nat): nat {
    w * Pow2(d) % Pow2(width)
  }

  lemma {:induction false} BitOfSetBit(w: nat, i: nat, j: nat)
    ensures Bit(SetBit(w, i), j) == (i == j || Bit(w, j))
  {
    if i > 0 && j > 0 { BitOfSetBit(w / 2, i - 1, j - 1); }
  }

  lemma {:induction false} BitOfClearBit(w: nat, i: nat, j: nat)
    ensures Bit(ClearBit(w, i), j) == (i != j && Bit(w, j))
  {
    if i > 0 && j > 0 { BitOfClearBit(w / 2, i - 1, j - 1); }
  }

  /** Setting a bit that is clear adds its weight; setting a set bit, or
    * clearing a clear one, changes nothing. */
  lemma {:induction false} SetBitValue(w: nat, i: nat)
    ensures SetBit(w, i) == if Bit(w, i) then w else w + Pow2(i)
    ensures ClearBit(w, i) == if Bit(w, i) then w - Pow2(i) else w
  {
    if i > 0 { SetBitValue(w / 2, i - 1); }
  }

  lemma {:induction false} SetBitBound(w: nat, i: nat, width: nat)
    requires i < width && w < Pow2(width)
    ensures SetBit(w, i) < Pow2(width) && ClearBit(w, i) < Pow2(width)
  {
    var half := Pow2(width - 1);
    assert Pow2(width) == 2 * half;
    if i > 0 {
      SetBitBound(w / 2, i - 1, width - 1);
      assert SetBit(w, i) == 2 * SetBit(w / 2, i - 1) + w % 2 && ClearBit(w, i) == 2 * ClearBit(w / 2, i - 1) + w % 2;
    } else {
      assert w / 2 < half;
    }
  }

  lemma {:induction false} BitOfMod(w: nat, width: nat, j: nat)
    ensures Bit(w % Pow2(width), j) == (j < width && Bit(w, j))
  {
    if width == 0 {
      ZeroBits(j);
    } else {
      var m := Pow2(width - 1);
      ModHalves(w, m);
      DoubleParts(w / 2 % m, w % 2);
      if j > 0 { BitOfMod(w / 2, width - 1, j - 1); }
    }
  }

  /** Bit `i` is the binary digit of weight two to the power `i`. */
  lemma {:induction false} BitIsDigit(w: nat, i: nat)
    ensures Bit(w, i) <==> w / Pow2(i) % 2 == 1
  {
    if i > 0 {
      BitIsDigit(w / 2, i - 1);
      HalfThenRest(w, Pow2(i - 1));
    }
  }

  lemma HalfThenRest(w: nat, p: nat)
    requires p > 0
    ensures w / 2 / p == w / (2 * p)
  {
    var q, r := w / 2 / p, w / 2 % p;
    assert w == 2 * (p * q + r) + w % 2;
    assert w == (2 * p) * q + (2 * r + w % 2) by { MulRearrangeTwo(p, q); }
    DivModUnique(w, 2 * p, q, 2 * r + w % 2);
  }

  lemma MulRearrangeTwo(p: nat, q: nat)
    ensures 2 * (p * q) == (2 * p) * q
  {}

  lemma DoubleParts(high: nat, low: nat)
    requires low < 2
    ensures (2 * high + low) / 2 == high && (2 * high + low) % 2 == low
  {}

  lemma ModHalves(w: nat, m: nat)
    requires m >= 1
    ensures w % (2 * m) == 2 * (w / 2 % m) + w % 2
  {
    var q, r := w / 2 / m, w / 2 % m;
    assert w == 2 * (m * q + r) + w % 2;
    assert w == (2 * m) * q + (2 * r + w % 2);
    DivModUnique(w, 2 * m, q, 2 * r + w % 2);
  }

  lemma DivModUnique(w: int, m: int, q: int, r: int)
    requires m > 0 && w == m * q + r && 0 <= r < m
    ensures w / m == q && w % m == r
  {
    var k := w / m - q;
    assert w == m * (w / m) + w % m;
    assert m * k == r - w % m by { assert m * k == m * (w / m) - m * q; }
  }

  lemma {:induction false} ZeroBits(j: nat)
    ensures !Bit(0, j)
  {
    if j > 0 { ZeroBits(j - 1); }
  }

  lemma {:induction false} BitOfDouble(w: nat, d: nat, j: nat)
    ensures Bit(w * Pow2(d), j) == (j >= d && Bit(w, j - d))
  {
    if d > 0 {
      assert w * Pow2(d) == 2 * (w * Pow2(d - 1));
      if j > 0 { BitOfDouble(w, d - 1, j - 1); }
    }
  }

  lemma BitOfShiftLeft(w: nat, d: nat, width: nat, j: nat)
    ensures Bit(ShiftLeft(w, d, width), j) == (d <= j < width && Bit(w, j - d))
  {
    BitOfMod(w * Pow2(d), width, j);
    BitOfDouble(w, d, j);
  }

  /** A word is determined by its bits. */
  lemma {:induction false} BitsDetermine(v: nat, w: nat, width: nat)
    requires v < Pow2(width) && w < Pow2(width)
    requires forall j: nat :: j < width ==> Bit(v, j) == Bit(w, j)
    ensures v == w
  {
    if width > 0 {
      assert Bit(v, 0) == Bit(w, 0);
      forall j: nat | j < width - 1 ensures Bit(v / 2, j) == Bit(w / 2, j) {
        assert Bit(v, j + 1) == Bit(w, j + 1);
      }
      BitsDetermine(v / 2, w / 2, width - 1);
    }
  }
}
