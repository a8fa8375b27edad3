/** The K = 7, rate 1/2 convolutional code 171/133 octal and its free distance. */
module Trellis {
  // A path is the sequence of bits shifted into the register, starting from
  // state 0.  Paths are read from their last bit, the way both encoders and
  // both decoders extend them.

  const MEMORY := 6
  const STATES := 64
  const G0: bv8 := 0x79
  const G1: bv8 := 0x5b

  function Int(b: bool): (n: nat)
    ensures n <= 1
  {
    if b then 1 else 0
  }

  /** The six stages of the shift register; `b0` holds the latest bit. */
  datatype State = State(b5: bool, b4: bool, b3: bool, b2: bool, b1: bool, b0: bool)

  const ZERO := State(false, false, false, false, false, false)

  function Next(s: State, bit: bool): State {
    State(s.b4, s.b3, s.b2, s.b1, s.b0, bit)
  }

  /** The states `Next` comes from: `high` is the bit that was shifted out. */
  function Previous(s: State, high: bool): State {
    State(high, s.b5, s.b4, s.b3, s.b2, s.b1)
  }

  predicate Xor5(a: bool, b: bool, c: bool, d: bool, e: bool) { a != (b != (c != (d != e))) }

  predicate Out0(s: State, bit: bool) { Xor5(s.b5, s.b4, s.b3, s.b2, bit) }
  predicate Out1(s: State, bit: bool) { Xor5(s.b5, s.b3, s.b2, s.b0, bit) }

  // ------------------------------------- the sources' arithmetic on registers

  function Byte(b: bool, weight: bv8): bv8 { if b then weight else 0 }

  /** The register as the unsigned number the sources keep. */
  function Packed(s: State): bv8 {
    Byte(s.b5, 32) | Byte(s.b4, 16) | Byte(s.b3, 8) | Byte(s.b2, 4) | Byte(s.b1, 2) | Byte(s.b0, 1)
  }

  /** Parity by folding the word onto its lowest bit, as the C source does. */
  predicate Parity7(value: bv8) {
    var a := value ^ (value >> 4);
    var b := a ^ (a >> 2);
    var c := b ^ (b >> 1);
    c & 1 == 1
  }

  /** Parity by counting ones, as the Rust source does. */
  predicate OddOnes(value: bv8) {
    (Int(value & 1 == 1) + Int(value & 2 == 2) + Int(value & 4 == 4) + Int(value & 8 == 8) +
     Int(value & 16 == 16) + Int(value & 32 == 32) + Int(value & 64 == 64) + Int(value & 128 == 128)) % 2 == 1
  }

  /** `((state << 1) | bit) & 0x7f` */
  function Shifted(state: bv8, bit: bool): bv8 { ((state << 1) | Byte(bit, 1)) & 0x7f }

  function LowSix(register: bv8): bv8 { register & 0x3f }

  predicate Folded0(register: bv8) { Parity7(register & G0) }
  predicate Folded1(register: bv8) { Parity7(register & G1) }
  predicate Counted0(register: bv8) { OddOnes(register & G0) }
  predicate Counted1(register: bv8) { OddOnes(register & G1) }

  /** The sources' shift, mask and parity compute the trellis. */
  lemma RegisterArithmetic(s: State, bit: bool)
    ensures var register := Shifted(Packed(s), bit);
            && LowSix(register) == Packed(Next(s, bit))
            && Folded0(register) == Out0(s, bit) && Folded1(register) == Out1(s, bit)
            && Counted0(register) == Out0(s, bit) && Counted1(register) == Out1(s, bit)
  {
    FoldedParity(s, bit);
    CountedParity(s, bit);
    hide Folded0, Folded1, Counted0, Counted1;
  }

  lemma FoldedParity(s: State, bit: bool)
    ensures Folded0(Shifted(Packed(s), bit)) == Out0(s, bit) && Folded1(Shifted(Packed(s), bit)) == Out1(s, bit)
  {}

  lemma CountedParity(s: State, bit: bool)
    ensures Counted0(Shifted(Packed(s), bit)) == Out0(s, bit) && Counted1(Shifted(Packed(s), bit)) == Out1(s, bit)
  {}

  /** The register as an array index. */
  function Index(s: State): (i: nat)
    ensures i < STATES
  {
    32 * Int(s.b5) + 16 * Int(s.b4) + 8 * Int(s.b3) + 4 * Int(s.b2) + 2 * Int(s.b1) + Int(s.b0)
  }

  function At(i: nat): (s: State)
    requires i < STATES
    ensures Index(s) == i
  {
    var i4 := if i >= 32 then i - 32 else i;
    var i3 := if i4 >= 16 then i4 - 16 else i4;
    var i2 := if i3 >= 8 then i3 - 8 else i3;
    var i1 := if i2 >= 4 then i2 - 4 else i2;
    State(i >= 32, i4 >= 16, i3 >= 8, i2 >= 4, i1 >= 2, i1 == 1 || i1 == 3)
  }

  lemma AtIndex(s: State)
    ensures At(Index(s)) == s
  {}

  /** `next_state & 1`, `next_state >> 1` and `(next_state >> 1) | 0x20`, and
    * forwards `((state << 1) | bit) & 63`. */
  lemma IndexArithmetic(i: nat, bit: bool)
    requires i < STATES
    ensures At(i).b0 == (i % 2 == 1)
    ensures i / 2 < 32 && Previous(At(i), false) == At(i / 2) && Previous(At(i), true) == At(i / 2 + 32)
    ensures Index(Next(At(i), bit)) == (2 * i + Int(bit)) % 64
  {
    hide At, Index, Previous, Next;
    var s := At(i);
    IndexShift(s, false);
    IndexShift(s, true);
    AtIndex(Previous(s, false));
    AtIndex(Previous(s, true));
    NextIndex(s, bit);
  }

  lemma IndexShift(s: State, high: bool)
    ensures s.b0 == (Index(s) % 2 == 1)
    ensures Index(Previous(s, high)) == Index(s) / 2 + 32 * Int(high)
  {
    var h := 16 * Int(s.b5) + 8 * Int(s.b4) + 4 * Int(s.b3) + 2 * Int(s.b2) + Int(s.b1);
    assert Index(s) == 2 * h + Int(s.b0);
  }

  lemma NextIndex(s: State, bit: bool)
    ensures Index(Next(s, bit)) == (2 * Index(s) + Int(bit)) % 64
  {
    assert 2 * Index(s) + Int(bit) == 64 * Int(s.b5) + Index(Next(s, bit));
  }

  // -------------------------------------------------------- paths, codewords

  function Front<T>(s: seq<T>): (f: seq<T>)
    requires s != []
    ensures |f| == |s| - 1
  {
    s[..|s| - 1]
  }

  function Last<T>(s: seq<T>): T
    requires s != []
  {
    s[|s| - 1]
  }

  /** State reached along a path. */
  function Run(path: seq<bool>): State {
    if path == [] then ZERO else Next(Run(Front(path)), Last(path))
  }

  /** The two output bits of every step. */
  function Outputs(path: seq<bool>): (out: seq<bool>)
    ensures |out| == 2 * |path|
  {
    if path == [] then []
    else Outputs(Front(path)) + [Out0(Run(Front(path)), Last(path)), Out1(Run(Front(path)), Last(path))]
  }

  const TAIL: seq<bool> := [false, false, false, false, false, false]

  /** Six zero bits drive the register back to state 0. */
  function Terminated(message: seq<bool>): (path: seq<bool>)
    ensures |path| == |message| + MEMORY
  {
    message + TAIL
  }

  function Codeword(message: seq<bool>): (c: seq<bool>)
    ensures |c| == 2 * (|message| + MEMORY)
  {
    Outputs(Terminated(message))
  }

  /** Hamming distance. */
  function Distance(a: seq<bool>, b: seq<bool>): nat
    requires |a| == |b|
  {
    if a == [] then 0 else Distance(Front(a), Front(b)) + Int(Last(a) != Last(b))
  }

  lemma EmptyRun()
    ensures Packed(Run([])) == 0 && Outputs([]) == []
  {}

  lemma ZeroIndex()
    ensures At(0) == ZERO
  {}

  lemma PathExtend(path: seq<bool>, bit: bool)
    ensures Run(path + [bit]) == Next(Run(path), bit)
    ensures Outputs(path + [bit]) == Outputs(path) + [Out0(Run(path), bit), Out1(Run(path), bit)]
  {
    assert Front(path + [bit]) == path;
  }

  /** The register holds the last six bits of the path, so a path of at least
    * six bits ends in state 0 exactly when it is a terminated message. */
  lemma TerminatedIff(path: seq<bool>)
    requires |path| >= MEMORY
    ensures Run(path) == ZERO <==> path == Terminated(path[..|path| - MEMORY])
  {
    hide Run, Terminated;
    var m := path[..|path| - MEMORY];
    TerminatedEndsInZero(m);
    if Run(path) == ZERO { ZeroEndIsTerminated(path, m); }
  }

  lemma TerminatedEndsInZero(m: seq<bool>)
    ensures Run(Terminated(m)) == ZERO
  {
    hide Run;
    LastSixBits(m, TAIL);
  }

  lemma ZeroEndIsTerminated(path: seq<bool>, m: seq<bool>)
    requires |path| >= MEMORY && m == path[..|path| - MEMORY] && Run(path) == ZERO
    ensures path == Terminated(m)
  {
    hide Run;
    var t := path[|m|..];
    assert path == m + t;
    LastSixBits(m, t);
    assert t == TAIL;
  }

  lemma LastSixBits(p: seq<bool>, t: seq<bool>)
    requires |t| == 6
    ensures Run(p + t) == State(t[0], t[1], t[2], t[3], t[4], t[5])
  {
    hide Run;
    ExtendByOne(p, t, 0);
    ExtendByOne(p, t, 1);
    ExtendByOne(p, t, 2);
    ExtendByOne(p, t, 3);
    ExtendByOne(p, t, 4);
    ExtendByOne(p, t, 5);
    assert t[..6] == t;
  }

  lemma ExtendByOne(p: seq<bool>, t: seq<bool>, i: nat)
    requires i < |t|
    ensures Run(p + t[..i + 1]) == Next(Run(p + t[..i]), t[i])
  {
    hide Run, Next;
    assert p + t[..i + 1] == (p + t[..i]) + [t[i]];
    PathExtend(p + t[..i], t[i]);
  }

  /** The all-zero path never leaves state 0. */
  lemma {:induction false} ZeroPath(n: nat)
    ensures Run(seq(n, _ => false)) == ZERO
  {
    if n > 0 {
      var p := seq(n, _ => false);
      assert Front(p) == seq(n - 1, _ => false);
      ZeroPath(n - 1);
    }
  }

  // ----------------------------------------------------------- free distance

  function Difference(s: State, t: State): State {
    State(s.b5 != t.b5, s.b4 != t.b4, s.b3 != t.b3, s.b2 != t.b2, s.b1 != t.b1, s.b0 != t.b0)
  }

  /** The trellis is linear: the difference of two registers moves through it
    * like a register of its own, and emits the difference of their outputs. */
  lemma StepDifference(s: State, x: bool, t: State, y: bool)
    ensures Difference(Next(s, x), Next(t, y)) == Next(Difference(s, t), x != y)
    ensures Out0(Difference(s, t), x != y) == (Out0(s, x) != Out0(t, y))
    ensures Out1(Difference(s, t), x != y) == (Out1(s, x) != Out1(t, y))
  {
    NextDifference(s, x, t, y);
    Out0Difference(s, x, t, y);
    Out1Difference(s, x, t, y);
    hide *;
  }

  lemma Out0Difference(s: State, x: bool, t: State, y: bool)
    ensures Out0(Difference(s, t), x != y) == (Out0(s, x) != Out0(t, y))
  {
    hide Xor5;
    XorLinear(s.b5, s.b4, s.b3, s.b2, x, t.b5, t.b4, t.b3, t.b2, y);
  }

  lemma Out1Difference(s: State, x: bool, t: State, y: bool)
    ensures Out1(Difference(s, t), x != y) == (Out1(s, x) != Out1(t, y))
  {
    hide Xor5;
    XorLinear(s.b5, s.b3, s.b2, s.b0, x, t.b5, t.b3, t.b2, t.b0, y);
  }

  lemma NextDifference(s: State, x: bool, t: State, y: bool)
    ensures Difference(Next(s, x), Next(t, y)) == Next(Difference(s, t), x != y)
  {}

  lemma XorLinear(a: bool, b: bool, c: bool, d: bool, e: bool, a': bool, b': bool, c': bool, d': bool, e': bool)
    ensures Xor5(a != a', b != b', c != c', d != d', e != e') == (Xor5(a, b, c, d, e) != Xor5(a', b', c', d', e'))
  {
    Exchange(d, d', e, e');
    Exchange(c, c', d != e, d' != e');
    Exchange(b, b', c != (d != e), c' != (d' != e'));
    Exchange(a, a', b != (c != (d != e)), b' != (c' != (d' != e')));
  }

  lemma Exchange(x: bool, x': bool, y: bool, y': bool)
    ensures ((x != x') != (y != y')) == ((x != y) != (x' != y'))
  {}

  /** Weight of the two output bits of an edge. */
  function Weight(s: State, bit: bool): nat { Int(Out0(s, bit)) + Int(Out1(s, bit)) }

  function Select8(s: State, a: (nat, nat, nat, nat), b: (nat, nat, nat, nat)): nat {
    var q := if s.b2 then b else a;
    if s.b1 then (if s.b0 then q.3 else q.2) else (if s.b0 then q.1 else q.0)
  }

  /** A lower bound, capped at 10, on the distance accumulated by two paths
    * that have parted, given the difference of their states. */
  function Potential(d: State): nat {
    if !d.b5 then
      if !d.b4 then
        if !d.b3 then Select8(d, (10, 2, 3, 3), (3, 5, 4, 4)) else Select8(d, (5, 3, 6, 6), (6, 4, 5, 5))
      else
        if !d.b3 then Select8(d, (7, 5, 4, 4), (6, 6, 7, 7)) else Select8(d, (6, 6, 5, 5), (5, 7, 6, 6))
    else
      if !d.b4 then
        if !d.b3 then Select8(d, (8, 8, 7, 5), (5, 5, 6, 4)) else Select8(d, (7, 7, 6, 6), (6, 6, 7, 7))
      else
        if !d.b3 then Select8(d, (7, 7, 6, 6), (6, 6, 5, 7)) else Select8(d, (6, 6, 7, 7), (7, 7, 6, 6))
  }

  /** All 128 edges of the trellis respect the potential. */
  lemma EdgeRespectsPotential(d: State, bit: bool)
    ensures Potential(Next(d, bit)) <= Potential(d) + Weight(d, bit)
  {}

  /** Two paths that have parted are at least the potential of their state
    * difference apart. */
  lemma {:induction false} PartedDistance(p: seq<bool>, q: seq<bool>)
    requires |p| == |q| && p != q
    ensures Distance(Outputs(p), Outputs(q)) >= Potential(Difference(Run(p), Run(q)))
  {
    hide Out0, Out1, Outputs, Distance, Potential, Difference;
    var p', q', x, y := Front(p), Front(q), Last(p), Last(q);
    assert p == p' + [x] && q == q' + [y];
    PathExtend(p', x);
    PathExtend(q', y);
    DistanceExtend(Outputs(p'), Outputs(q'), Out0(Run(p'), x), Out1(Run(p'), x), Out0(Run(q'), y), Out1(Run(q'), y));
    StepDifference(Run(p'), x, Run(q'), y);
    var d := Difference(Run(p'), Run(q'));
    if p' == q' {
      DistanceSelf(Outputs(p'));
      Parting(Run(p'), x, y);
    } else {
      PartedDistance(p', q');
      EdgeRespectsPotential(d, x != y);
    }
  }

  /** Where two equal paths part they part by two bits. */
  lemma Parting(s: State, x: bool, y: bool)
    requires x != y
    ensures Int(Out0(s, x) != Out0(s, y)) + Int(Out1(s, x) != Out1(s, y)) == 2
    ensures Potential(Next(Difference(s, s), x != y)) == 2
  {}

  lemma DistanceExtend(a: seq<bool>, b: seq<bool>, a0: bool, a1: bool, b0: bool, b1: bool)
    requires |a| == |b|
    ensures Distance(a + [a0, a1], b + [b0, b1]) == Distance(a, b) + Int(a0 != b0) + Int(a1 != b1)
  {
    assert Front(a + [a0, a1]) == a + [a0] && Front(a + [a0]) == a;
    assert Front(b + [b0, b1]) == b + [b0] && Front(b + [b0]) == b;
  }

  /** Any two distinct codewords of one length differ in at least ten bits. */
  lemma FreeDistance(m1: seq<bool>, m2: seq<bool>)
    requires |m1| == |m2| && m1 != m2
    ensures Distance(Codeword(m1), Codeword(m2)) >= 10
  {
    var p, q := Terminated(m1), Terminated(m2);
    assert p[..|m1|] == m1 && q[..|m2|] == m2;
    TerminatedIff(p);
    TerminatedIff(q);
    PartedDistance(p, q);
  }

  /** Ten is attained at every message length. */
  lemma FreeDistanceAttained(m: seq<bool>)
    ensures Distance(Codeword(m + [true]), Codeword(m + [false])) == 10
  {
    hide Out0, Out1, Outputs, Distance, Run, Next;
    var p, q := m + [true], m + [false];
    PathExtend(m, true);
    PathExtend(m, false);
    DistanceSelf(Outputs(m));
    DistanceExtend(Outputs(m), Outputs(m), Out0(Run(m), true), Out1(Run(m), true), Out0(Run(m), false),
        Out1(Run(m), false));
    Parting(Run(m), true, false);
    NextsApart(Run(m));
    PulseTail(p, q, 6);
    assert TAIL[..6] == TAIL;
  }

  /** The state difference one pulse leaves `i` steps later. */
  function Pulse(i: nat): State {
    State(i == 5, i == 4, i == 3, i == 2, i == 1, i == 0)
  }

  function PulseWeight(i: nat): nat {
    if i <= 0 then 2 else if i <= 2 then 3 else if i == 3 then 5 else if i == 4 then 7 else if i == 5 then 8 else 10
  }

  lemma NextsApart(s: State)
    ensures Difference(Next(s, true), Next(s, false)) == Pulse(0)
  {}

  lemma {:induction false} PulseTail(p: seq<bool>, q: seq<bool>, i: nat)
    requires |p| == |q| && i <= 6
    requires Difference(Run(p), Run(q)) == Pulse(0) && Distance(Outputs(p), Outputs(q)) == 2
    ensures Difference(Run(p + TAIL[..i]), Run(q + TAIL[..i])) == Pulse(i)
    ensures Distance(Outputs(p + TAIL[..i]), Outputs(q + TAIL[..i])) == PulseWeight(i)
  {
    hide Out0, Out1, Outputs, Distance, Run, Difference;
    if i == 0 {
      assert p + TAIL[..0] == p && q + TAIL[..0] == q;
    } else {
      PulseTail(p, q, i - 1);
      var p', q' := p + TAIL[..i - 1], q + TAIL[..i - 1];
      assert p + TAIL[..i] == p' + [false] && q + TAIL[..i] == q' + [false];
      PathExtend(p', false);
      PathExtend(q', false);
      StepDifference(Run(p'), false, Run(q'), false);
      PulseStep(i - 1);
      DistanceExtend(Outputs(p'), Outputs(q'), Out0(Run(p'), false), Out1(Run(p'), false), Out0(Run(q'), false),
          Out1(Run(q'), false));
    }
  }

  lemma PulseStep(i: nat)
    requires i < 6
    ensures Next(Pulse(i), false) == Pulse(i + 1)
    ensures PulseWeight(i + 1) == PulseWeight(i) + Weight(Pulse(i), false)
  {}

  lemma {:induction false} DistanceSelf(a: seq<bool>)
    ensures Distance(a, a) == 0
  {
    if a != [] { DistanceSelf(Front(a)); }
  }

  lemma {:induction false} DistanceSymmetric(a: seq<bool>, b: seq<bool>)
    requires |a| == |b|
    ensures Distance(a, b) == Distance(b, a)
  {
    if a != [] { DistanceSymmetric(Front(a), Front(b)); }
  }

  lemma {:induction false} DistanceTriangle(a: seq<bool>, b: seq<bool>, c: seq<bool>)
    requires |a| == |b| == |c|
    ensures Distance(a, c) <= Distance(a, b) + Distance(b, c)
  {
    if a != [] { DistanceTriangle(Front(a), Front(b), Front(c)); }
  }

  // ------------------------------------------------- the code as a sum of taps

  /** The bit `i` places behind bit `t`; there are no ones before the start. */
  predicate Tap(path: seq<bool>, t: nat, i: nat)
    requires t < |path|
  {
    i <= t && path[t - i]
  }

  /** An odd number of the tapped bits is one. */
  predicate OddTaps(path: seq<bool>, t: nat, taps: seq<nat>)
    requires t < |path|
  {
    if taps == [] then false else Tap(path, t, taps[0]) != OddTaps(path, t, taps[1..])
  }

  /** What the code is, without registers and masks: 171 octal taps the bits 0, 3,
    * 4, 5 and 6 places back for the first symbol, 133 octal the bits 0, 1, 3, 4
    * and 6 places back for the second. */
  lemma {:induction false} OutputTaps(path: seq<bool>, t: nat)
    requires t < |path|
    ensures Outputs(path)[2 * t] == OddTaps(path, t, [0, 3, 4, 5, 6])
    ensures Outputs(path)[2 * t + 1] == OddTaps(path, t, [0, 1, 3, 4, 6])
  {
    if t == |path| - 1 {
      LastOutputs(path);
    } else {
      OutputTaps(Front(path), t);
      SameTaps(path, t, [0, 3, 4, 5, 6]);
      SameTaps(path, t, [0, 1, 3, 4, 6]);
    }
  }

  lemma {:induction false} SameTaps(path: seq<bool>, t: nat, taps: seq<nat>)
    requires t < |path| - 1
    ensures OddTaps(path, t, taps) == OddTaps(Front(path), t, taps)
  {
    if taps != [] { SameTaps(path, t, taps[1..]); }
  }

  /** The register holds the six bits before bit `t`. */
  lemma {:induction false} RegisterHolds(path: seq<bool>)
    requires path != []
    ensures var t := |path| - 1;
            Run(Front(path)) == State(Tap(path, t, 6), Tap(path, t, 5), Tap(path, t, 4), Tap(path, t, 3),
                                      Tap(path, t, 2), Tap(path, t, 1))
  {
    var f := Front(path);
    if f != [] {
      RegisterHolds(f);
      hide Run;
      PathExtend(Front(f), Last(f));
      assert Front(f) + [Last(f)] == f;
    }
  }

  lemma {:induction false} LastOutputs(path: seq<bool>)
    requires path != []
    ensures var t := |path| - 1;
            && Outputs(path)[2 * t] == OddTaps(path, t, [0, 3, 4, 5, 6])
            && Outputs(path)[2 * t + 1] == OddTaps(path, t, [0, 1, 3, 4, 6])
  {
    var t := |path| - 1;
    assert Tap(path, t, 0) == Last(path);
    RegisterHolds(path);
    FiveTaps(path, t, 0, 3, 4, 5, 6);
    FiveTaps(path, t, 0, 1, 3, 4, 6);
    hide OddTaps, Tap, Run;
  }

  lemma {:induction false} FiveTaps(path: seq<bool>, t: nat, a: nat, b: nat, c: nat, d: nat, e: nat)
    requires t < |path|
    ensures OddTaps(path, t, [a, b, c, d, e])
         == Xor5(Tap(path, t, a), Tap(path, t, b), Tap(path, t, c), Tap(path, t, d), Tap(path, t, e))
  {
    hide Tap;
    FirstTap(path, t, a, [b, c, d, e]);
    FirstTap(path, t, b, [c, d, e]);
    FirstTap(path, t, c, [d, e]);
    FirstTap(path, t, d, [e]);
    FirstTap(path, t, e, []);
    assert [a] + [b, c, d, e] == [a, b, c, d, e] && [b] + [c, d, e] == [b, c, d, e];
    assert [c] + [d, e] == [c, d, e] && [d] + [e] == [d, e] && [e] + [] == [e];
    assert !OddTaps(path, t, []);
    hide OddTaps;
  }

  lemma FirstTap(path: seq<bool>, t: nat, i: nat, taps: seq<nat>)
    requires t < |path|
    ensures OddTaps(path, t, [i] + taps) == (Tap(path, t, i) != OddTaps(path, t, taps))
  {
    assert ([i] + taps)[1..] == taps;
  }
}
