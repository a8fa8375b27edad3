/** The Rust encoder and soft-input Viterbi decoder. */
module RustFec {
  // The decoder maximises a correlation where the C one minimises a penalty,
  // and pushes scores forward where the C one pulls them; both fill the same
  // table, for the penalty `128 - correlation`.

  import Common
  import opened Words
  import opened BitBuffers
  import opened AirErrors
  import opened Trellis
  import opened Viterbi
  import opened BitStrings

  const FRAME_MAX_BYTES := 256
  const MAX_CODED_BITS := (FRAME_MAX_BYTES * 8 + MEMORY) * 2

  /** Vectors of one bit a byte. */
  function Ones(bits: seq<bool>): (r: seq<byte>)
    ensures |r| == |bits| && forall k :: 0 <= k < |r| ==> r[k] == Int(bits[k])
  {
    seq(|bits|, k requires 0 <= k < |bits| => Int(bits[k]))
  }

  function Bools(bits: seq<byte>): (r: seq<bool>)
    ensures |r| == |bits| && forall k :: 0 <= k < |r| ==> r[k] == (bits[k] != 0)
  {
    seq(|bits|, k requires 0 <= k < |bits| => bits[k] != 0)
  }

  predicate AllBits(bits: seq<byte>) { forall k :: 0 <= k < |bits| ==> bits[k] <= 1 }

  lemma BoolsOfOnes(bits: seq<bool>)
    ensures AllBits(Ones(bits)) && Bools(Ones(bits)) == bits
  {}

  method BytesToBitsMsb(bytes: seq<byte>) returns (bits: seq<byte>)
    ensures bits == Ones(BitsOf(bytes))
  {
    hide Bit;
    bits := [];
    for i := 0 to |bytes|
      invariant |bits| == 8 * i
      invariant forall k :: 0 <= k < 8 * i ==> bits[k] == Int(GetBit(bytes, k))
    {
      var shift := 8;
      while shift > 0
        invariant 0 <= shift <= 8 && |bits| == 8 * i + 8 - shift
        invariant forall k :: 0 <= k < |bits| ==> bits[k] == Int(GetBit(bytes, k))
      {
        shift := shift - 1;
        assert GetBit(bytes, 8 * i + 7 - shift) == Bit(bytes[i], shift);
        bits := bits + [Int(Bit(bytes[i], shift))];
      }
    }
  }

  predicate NotABit(bits: seq<byte>) { |bits| % 8 != 0 || !AllBits(bits) }

  method BitsToBytesMsb(bits: seq<byte>) returns (r: Result<seq<byte>>)
    ensures r.Err? <==> NotABit(bits)
    ensures r.Err? ==> r.error == InvalidFec
    ensures r.Ok? ==> BitsOf(r.value) == Bools(bits)
  {
    hide Bit, ByteOf;
    if |bits| % 8 != 0 || !AllBits(bits) { return Err(InvalidFec); }
    var bytes: seq<byte> := [];
    var at := 0;
    while at < |bits|
      invariant 0 <= at <= |bits| && at % 8 == 0 && |bytes| == at / 8
      invariant forall k :: 0 <= k < at ==> GetBit(bytes, k) == (bits[k] != 0)
    {
      var byte := CollectByte(bits[at..at + 8]);
      forall k | at <= k < at + 8 ensures Bit(byte, 7 - k % 8) == (bits[k] != 0) {
        assert bits[at..at + 8][k - at] == bits[k] && k - at == k % 8;
      }
      bytes := bytes + [byte];
      at := at + 8;
    }
    return Ok(bytes);
  }

  /** One chunk of eight: `byte = (byte << 1) | bit` */
  method CollectByte(chunk: seq<byte>) returns (byte: byte)
    requires |chunk| == 8 && AllBits(chunk)
    ensures forall k :: 0 <= k < 8 ==> Bit(byte, 7 - k) == (chunk[k] != 0)
  {
    hide Bit;
    var value := 0;
    for k := 0 to 8
      invariant value == ByteOf(Bools(chunk)[..k])
    {
      assert Front(Bools(chunk)[..k + 1]) == Bools(chunk)[..k];
      value := 2 * value + chunk[k];
    }
    assert Bools(chunk)[..8] == Bools(chunk);
    Pow2Values();
    assert value < Pow2(8);
    byte := value;
    forall k | 0 <= k < 8 ensures Bit(byte, 7 - k) == (chunk[k] != 0) { BitOfByteOf(Bools(chunk), 7 - k); }
  }

  method ConvolutionalEncode(bits: seq<byte>) returns (r: Result<seq<byte>>)
    ensures r.Err? <==> |bits| > FRAME_MAX_BYTES * 8 || !AllBits(bits)
    ensures r.Err? ==> r.error == InvalidFec
    ensures r.Ok? ==> r.value == Ones(Codeword(Bools(bits)))
  {
    if |bits| > FRAME_MAX_BYTES * 8 || !AllBits(bits) { return Err(InvalidFec); }
    hide Run, Outputs, Packed;
    var output: seq<byte> := [];
    var state: bv8 := 0;
    ghost var path := Terminated(Bools(bits));
    EmptyRun();
    var i := 0;
    assert path[..0] == [];
    while i < |bits| + MEMORY
      invariant 0 <= i <= |path|
      invariant state == Packed(Run(path[..i])) && output == Ones(Outputs(path[..i]))
    {
      var bit := if i < |bits| then bits[i] == 1 else false;
      assert path[..i + 1] == path[..i] + [bit] by { assert path[i] == bit; }
      state, output := EncodeStep(state, output, bit, path[..i]);
      i := i + 1;
    }
    assert path[..i] == path;
    return Ok(output);
  }

  method EncodeStep(state: bv8, output: seq<byte>, bit: bool, ghost path: seq<bool>) returns (next: bv8, out: seq<byte>)
    requires state == Packed(Run(path)) && output == Ones(Outputs(path))
    ensures next == Packed(Run(path + [bit])) && out == Ones(Outputs(path + [bit]))
  {
    hide Out0, Out1, Counted0, Counted1, Shifted, Appended, LowSix, Packed, Run, Outputs;
    PathExtend(path, bit);
    RegisterArithmetic(Run(path), bit);
    StateFits(Run(path), bit);
    var register := Appended(state, bit);
    out := output + [Int(Counted0(register)), Int(Counted1(register))];
    next := LowSix(register);
  }

  /** `(state << 1) | bit`, without a mask */
  function Appended(state: bv8, bit: bool): bv8 { (state << 1) | Byte(bit, 1) }

  /** A six-bit state shifted once still fits seven bits. */
  lemma StateFits(s: State, bit: bool)
    ensures Appended(Packed(s), bit) == Shifted(Packed(s), bit)
  {}

  // ----------------------------------------------------------- soft decoding

  const NEGATIVE_INFINITY: int32 := -0x2000_0000

  /** `llr` if the expected bit is 1, its negation otherwise. */
  function LlrMetric(llr: int8, expected: bool): (m: int)
    ensures -128 <= m <= 128
  {
    if expected then llr as int else -(llr as int)
  }

  /** The penalty form of the correlation. */
  function Soft(llrs: seq<int8>): Metric {
    (i: nat, e: bool) => if i < |llrs| then 128 - LlrMetric(llrs[i], e) else 128
  }

  function SaturatingAdd(a: int32, b: int): int32
    requires -256 <= b <= 256
  {
    if a + b > 0x7fff_ffff then 0x7fff_ffff else if a + b < -0x8000_0000 then -0x8000_0000 else a + b
  }

  /** A penalty table entry read as a correlation score. */
  function ScoreFrom(penalty: int, t: nat): int {
    if penalty >= METRIC_INF then NEGATIVE_INFINITY else 256 * t - penalty
  }

  function Score(metric: Metric, t: nat, s: State): int { ScoreFrom(Cell(metric, t, s), t) }

  function CandidateScore(metric: Metric, t: nat, s: State, high: bool): int {
    ScoreFrom(Candidate(metric, t, s, high), t + 1)
  }

  const NO_PREDECESSOR: byte := 255

  /** Predecessor recorded for state number `i` once both ways in are known. */
  function Predecessor(metric: Metric, t: nat, i: nat): byte
    requires i < STATES
  {
    if Cell(metric, t + 1, At(i)) >= METRIC_INF then NO_PREDECESSOR
    else i / 2 + 32 * Int(Decision(metric, t, At(i)))
  }

  /** What the table holds for state `i` when the registers below `j` have
    * been tried: nothing, the low way in, or the better of the two. */
  predicate Pushed(metric: Metric, t: nat, i: nat, j: nat, score: int, predecessor: byte)
    requires i < STATES
  {
    if j <= i then score == NEGATIVE_INFINITY && predecessor == NO_PREDECESSOR
    else if j <= i + 64 then
      score == CandidateScore(metric, t, At(i), false)
      && predecessor == if score == NEGATIVE_INFINITY then NO_PREDECESSOR else i / 2
    else score == Score(metric, t + 1, At(i)) && predecessor == Predecessor(metric, t, i)
  }

  /** Tries both inputs from every state, in the order of their registers. */
  method PushScores(llrs: seq<int8>, t: nat, scores: array<int32>)
      returns (nextScores: array<int32>, predecessors: array<byte>)
    requires 2 * t + 2 <= |llrs| && Payable(t + 1) && scores.Length == STATES
    requires forall i :: 0 <= i < STATES ==> scores[i] == Score(Soft(llrs), t, At(i))
    ensures fresh(nextScores) && fresh(predecessors)
    ensures nextScores.Length == predecessors.Length == STATES
    ensures forall i :: 0 <= i < STATES ==> nextScores[i] == Score(Soft(llrs), t + 1, At(i))
    ensures forall i :: 0 <= i < STATES ==> predecessors[i] == Predecessor(Soft(llrs), t, i)
  {
    hide Soft, At, Index, Score, Predecessor, CandidateScore, Payable;
    nextScores := new int32[STATES](_ => NEGATIVE_INFINITY);
    predecessors := new byte[STATES](_ => NO_PREDECESSOR);
    var previous := 0;
    while previous < STATES
      invariant 0 <= previous <= STATES
      invariant forall i :: 0 <= i < STATES ==> Pushed(Soft(llrs), t, i, 2 * previous, nextScores[i], predecessors[i])
    {
      var input := 0;
      while input < 2
        invariant 0 <= input <= 2
        invariant forall i :: 0 <= i < STATES ==>
                    Pushed(Soft(llrs), t, i, 2 * previous + input, nextScores[i], predecessors[i])
      {
        var next := (2 * previous + input) % STATES;
        var score, predecessor :=
          PushOne(llrs, t, previous, input == 1, scores[previous], nextScores[next], predecessors[next]);
        forall i | 0 <= i < STATES && i != next
          ensures Pushed(Soft(llrs), t, i, 2 * previous + input + 1, nextScores[i], predecessors[i])
        {}
        nextScores[next], predecessors[next] := score, predecessor;
        input := input + 1;
      }
      previous := previous + 1;
    }
  }

  /** One push.  States without a score are skipped. */
  method PushOne(llrs: seq<int8>, t: nat, previous: nat, input: bool, previousScore: int32, nextScore: int32,
      predecessor: byte)
      returns (score: int32, from: byte)
    requires 2 * t + 2 <= |llrs| && Payable(t + 1) && previous < STATES
    requires previousScore == Score(Soft(llrs), t, At(previous))
    requires Pushed(Soft(llrs), t, (2 * previous + Int(input)) % STATES, 2 * previous + Int(input),
                    nextScore, predecessor)
    ensures Pushed(Soft(llrs), t, (2 * previous + Int(input)) % STATES, 2 * previous + Int(input) + 1, score, from)
  {
    hide Soft, At, Index, Out0, Out1, Cell, Branch;
    ghost var metric := Soft(llrs);
    ghost var next, high := (2 * previous + Int(input)) % STATES, previous >= 32;
    RegisterEdge(previous, input);
    SoftInRange(llrs);
    CellUnfold(metric, t, At(next));
    CandidateRange(metric, t, At(next), false);
    CandidateRange(metric, t, At(next), true);
    CellRange(metric, t, At(previous));
    SoftBranch(llrs, t, At(previous), input);
    score, from := nextScore, predecessor;
    if previousScore != NEGATIVE_INFINITY {
      var p := At(previous);
      var branch := LlrMetric(llrs[2 * t], Out0(p, input)) + LlrMetric(llrs[2 * t + 1], Out1(p, input));
      var candidate := SaturatingAdd(previousScore, branch);
      if candidate > nextScore || (candidate == nextScore && previous < predecessor) {
        score, from := candidate, previous;
      }
    }
  }

  lemma RegisterEdge(previous: nat, input: bool)
    requires previous < STATES
    ensures var i, high := (2 * previous + Int(input)) % STATES, previous >= 32;
            && i + 64 * Int(high) == 2 * previous + Int(input)
            && i / 2 + 32 * Int(high) == previous
            && Previous(At(i), high) == At(previous) && At(i).b0 == input
  {
    hide At, Index, Previous, Next;
    var i := if previous >= 32 then 2 * previous + Int(input) - 64 else 2 * previous + Int(input);
    assert i < STATES && i == (2 * previous + Int(input)) % STATES;
    IndexArithmetic(i, false);
  }

  lemma SoftInRange(llrs: seq<int8>)
    ensures InRange(Soft(llrs))
  {}

  lemma SoftBranch(llrs: seq<int8>, t: nat, s: State, bit: bool)
    requires 2 * t + 2 <= |llrs|
    ensures Branch(Soft(llrs), t, s, bit)
         == 256 - (LlrMetric(llrs[2 * t], Out0(s, bit)) + LlrMetric(llrs[2 * t + 1], Out1(s, bit)))
  {}

  lemma CellUnfold(metric: Metric, t: nat, s: State)
    ensures Cell(metric, t + 1, s) == if Decision(metric, t, s) then Candidate(metric, t, s, true)
                                      else Candidate(metric, t, s, false)
  {}

  lemma CandidateRange(metric: Metric, t: nat, s: State, high: bool)
    requires InRange(metric) && Payable(t + 1)
    ensures Candidate(metric, t, s, high) == METRIC_INF
            || 0 <= Candidate(metric, t, s, high) <= 2 * MAX_METRIC * (t + 1)
  {
    hide Cell;
    CellRange(metric, t, Previous(s, high));
  }

  /** Mean absolute soft value, doubled and capped; diagnostic only. */
  function Confidence(llrs: seq<int8>): (c: byte)
    requires llrs != []
  {
    var mean := 2 * AbsoluteSum(llrs) / |llrs|;
    if mean > 255 then 255 else mean
  }

  function Abs(x: int): nat { if x < 0 then -x else x }

  function AbsoluteSum(llrs: seq<int8>): nat {
    if llrs == [] then 0 else AbsoluteSum(Front(llrs)) + Abs(Last(llrs))
  }

  /** Twice the mean magnitude lies between twice the bounds of all of them. */
  lemma ConfidenceBetween(llrs: seq<int8>, lo: nat, hi: nat)
    requires llrs != [] && lo <= hi <= 128
    requires forall i :: 0 <= i < |llrs| ==> lo <= llrs[i] as int <= hi || lo <= -(llrs[i] as int) <= hi
    ensures (if lo == 128 then 255 else 2 * lo) <= Confidence(llrs) <= if hi == 128 then 255 else 2 * hi
  {
    SumBetween(llrs, lo, hi);
    MeanBetween(2 * AbsoluteSum(llrs), |llrs|, 2 * lo, 2 * hi);
  }

  lemma {:induction false} SumBetween(llrs: seq<int8>, lo: nat, hi: nat)
    requires forall i :: 0 <= i < |llrs| ==> lo <= llrs[i] as int <= hi || lo <= -(llrs[i] as int) <= hi
    ensures lo * |llrs| <= AbsoluteSum(llrs) <= hi * |llrs|
  {
    if llrs != [] {
      var front := Front(llrs);
      SumBetween(front, lo, hi);
      OneMoreOf(lo, |front|);
      OneMoreOf(hi, |front|);
      assert |llrs| == |front| + 1;
    }
  }

  lemma OneMoreOf(a: nat, n: nat)
    ensures a * (n + 1) == a * n + a
  {}

  lemma MeanBetween(sum: nat, n: nat, lo: nat, hi: nat)
    requires n > 0 && lo * n <= sum <= hi * n
    ensures lo <= sum / n <= hi
  {
    LessTimes(sum / n, lo, n);
    LessTimes(hi, sum / n, n);
  }

  lemma LessTimes(a: nat, b: nat, n: nat)
    ensures a < b ==> a * n + n <= b * n
  {
    if a < b { Common.Scaled(a + 1, b, n); }
  }

  /** How well a word agrees with soft input. */
  function Correlation(llrs: seq<int8>, word: seq<bool>): int
    requires |llrs| == |word|
  {
    if word == [] then 0 else Correlation(Front(llrs), Front(word)) + LlrMetric(Last(llrs), Last(word))
  }

  lemma {:induction false} SoftCost(llrs: seq<int8>, path: seq<bool>)
    requires 2 * |path| <= |llrs|
    ensures Cost(Soft(llrs), path) == 256 * |path| - Correlation(llrs[..2 * |path|], Outputs(path))
  {
    hide Out0, Out1, Run, Soft;
    if path != [] {
      var p, n := Front(path), |path|;
      SoftCost(llrs, p);
      SoftBranch(llrs, n - 1, Run(p), Last(path));
      assert llrs[..2 * n] == llrs[..2 * n - 2] + [llrs[2 * n - 2], llrs[2 * n - 1]];
      CorrelationExtend(llrs[..2 * n - 2], Outputs(p), llrs[2 * n - 2], llrs[2 * n - 1],
                        Out0(Run(p), Last(path)), Out1(Run(p), Last(path)));
    }
  }

  lemma CorrelationExtend(a: seq<int8>, b: seq<bool>, a0: int8, a1: int8, b0: bool, b1: bool)
    requires |a| == |b|
    ensures Correlation(a + [a0, a1], b + [b0, b1]) == Correlation(a, b) + LlrMetric(a0, b0) + LlrMetric(a1, b1)
  {
    assert Front(a + [a0, a1]) == a + [a0] && Front(a + [a0]) == a;
    assert Front(b + [b0, b1]) == b + [b0] && Front(b + [b0]) == b;
  }

  datatype DecodeResult = DecodeResult(bits: seq<byte>, pathMetric: int, confidence: byte)

  predicate BadSoftLength(n: nat) {
    n < MEMORY * 2 || n > MAX_CODED_BITS || n % 2 != 0 || (n / 2 - MEMORY) % 8 != 0
  }

  /** The soft decoder.  Its three failure exits are never taken: a legal
    * length always decodes, to the message whose codeword correlates best with
    * the soft input. */
  method SoftViterbiDecode(llrs: seq<int8>) returns (r: Result<DecodeResult>)
    ensures r.Err? <==> BadSoftLength(|llrs|)
    ensures r.Err? ==> r.error == InvalidFec
    ensures r.Ok? ==> r.value.bits == Ones(Decoded(Soft(llrs), |llrs| / 2))
    ensures r.Ok? ==> |Codeword(Bools(r.value.bits))| == |llrs|
                      && r.value.pathMetric == Correlation(llrs, Codeword(Bools(r.value.bits)))
    ensures r.Ok? ==>
              forall m: seq<bool> :: |Codeword(m)| == |llrs| ==> r.value.pathMetric >= Correlation(llrs, Codeword(m))
    ensures r.Ok? ==> r.value.confidence == Confidence(llrs)
  {
    hide At, Index, Score, Cell, Correlation, AbsoluteSum, Decoded, Cost, Traced, InRange, Soft, Codeword;
    if |llrs| < MEMORY * 2 || |llrs| > MAX_CODED_BITS || |llrs| % 2 != 0 { return Err(InvalidFec); }
    var steps := |llrs| / 2;
    var dataBits := steps - MEMORY;
    if dataBits % 8 != 0 { return Err(InvalidFec); }
    var scores, history := FillTable(llrs, steps);
    FinalScore(llrs, steps);
    if scores[0] == NEGATIVE_INFINITY { return Err(DecodeFailed); }
    var decoded, state, ok := Traceback(llrs, steps, history);
    if !ok { return Err(DecodeFailed); }
    TailIsZero(llrs, steps);
    if state != 0 || exists k :: dataBits <= k < steps && decoded[k] != 0 { return Err(DecodeFailed); }
    BoolsOfOnes(Decoded(Soft(llrs), steps));
    assert decoded[..dataBits] == Ones(Decoded(Soft(llrs), steps)) by { TracedPrefix(Soft(llrs), steps); }
    return Ok(DecodeResult(decoded[..dataBits], scores[0], Confidence(llrs)));
  }

  lemma TracedPrefix(metric: Metric, steps: nat)
    requires steps >= MEMORY
    ensures Ones(Traced(metric, steps, ZERO))[..steps - MEMORY] == Ones(Decoded(metric, steps))
  {}

  /** The final score is the correlation of the decoded message's codeword, the
    * largest any message of that length has. */
  lemma FinalScore(llrs: seq<int8>, steps: nat)
    requires |llrs| == 2 * steps && MEMORY <= steps && Payable(steps)
    ensures Cell(Soft(llrs), steps, ZERO) < METRIC_INF && At(0) == ZERO
    ensures Score(Soft(llrs), steps, ZERO) == Correlation(llrs, Codeword(Decoded(Soft(llrs), steps)))
            > NEGATIVE_INFINITY
    ensures forall m: seq<bool> :: |Codeword(m)| == |llrs| ==>
              Score(Soft(llrs), steps, ZERO) >= Correlation(llrs, Codeword(m))
  {
    hide Cell, Correlation, Decoded, Cost, Traced, InRange, Soft, Outputs;
    var metric := Soft(llrs);
    SoftInRange(llrs);
    ZeroIndex();
    MaximumLikelihood(metric, steps);
    assert llrs[..2 * steps] == llrs;
    SoftCost(llrs, Terminated(Decoded(metric, steps)));
    CellRange(metric, steps, ZERO);
    forall m: seq<bool> | |Codeword(m)| == |llrs| ensures Score(metric, steps, ZERO) >= Correlation(llrs, Codeword(m)) {
      SoftCost(llrs, Terminated(m));
    }
  }

  lemma TailIsZero(llrs: seq<int8>, steps: nat)
    requires |llrs| == 2 * steps && MEMORY <= steps && Payable(steps)
    ensures forall k :: steps - MEMORY <= k < steps ==> !Traced(Soft(llrs), steps, ZERO)[k]
  {
    hide Cell, Decoded, Cost, Traced, InRange, Soft;
    SoftInRange(llrs);
    MaximumLikelihood(Soft(llrs), steps);
    var d := Decoded(Soft(llrs), steps);
    forall k | steps - MEMORY <= k < steps ensures !Terminated(d)[k] {
      assert Terminated(d)[k] == TAIL[k - |d|];
    }
  }

  predicate RowOk(metric: Metric, t: nat, row: seq<byte>) {
    |row| == STATES && forall i :: 0 <= i < STATES ==> row[i] == Predecessor(metric, t, i)
  }

  /** The forward pass. */
  method FillTable(llrs: seq<int8>, steps: nat) returns (scores: array<int32>, history: seq<seq<byte>>)
    requires |llrs| == 2 * steps && Payable(steps)
    ensures scores.Length == STATES && |history| == steps
    ensures forall i :: 0 <= i < STATES ==> scores[i] == Score(Soft(llrs), steps, At(i))
    ensures forall t :: 0 <= t < steps ==> RowOk(Soft(llrs), t, history[t])
  {
    hide Soft, At, Index, Score, Predecessor;
    scores := InitialScores(llrs);
    history := [];
    var t := 0;
    while t < steps
      invariant 0 <= t <= steps && |history| == t && scores.Length == STATES
      invariant forall i :: 0 <= i < STATES ==> scores[i] == Score(Soft(llrs), t, At(i))
      invariant forall u :: 0 <= u < t ==> RowOk(Soft(llrs), u, history[u])
    {
      var predecessors;
      scores, predecessors := PushScores(llrs, t, scores);
      history := history + [predecessors[..]];
      t := t + 1;
    }
  }

  method InitialScores(ghost llrs: seq<int8>) returns (scores: array<int32>)
    ensures fresh(scores) && scores.Length == STATES
    ensures forall i :: 0 <= i < STATES ==> scores[i] == Score(Soft(llrs), 0, At(i))
  {
    scores := new int32[STATES](_ => NEGATIVE_INFINITY);
    scores[0] := 0;
    ZeroIndex();
    hide At;
    forall i | 0 <= i < STATES ensures scores[i] == Score(Soft(llrs), 0, At(i)) {
      if At(i) == ZERO { assert Index(At(i)) == i == 0; }
    }
  }

  /** The backward pass. */
  method Traceback(llrs: seq<int8>, steps: nat, history: seq<seq<byte>>)
      returns (decoded: seq<byte>, state: nat, ok: bool)
    requires |llrs| == 2 * steps && Payable(steps) && |history| == steps
    requires Cell(Soft(llrs), steps, ZERO) < METRIC_INF
    requires forall t :: 0 <= t < steps ==> RowOk(Soft(llrs), t, history[t])
    ensures ok && state == 0 && decoded == Ones(Traced(Soft(llrs), steps, ZERO))
  {
    hide Soft, At, Index, Predecessor, Cell, Traced;
    ghost var metric, full := Soft(llrs), Traced(Soft(llrs), steps, ZERO);
    decoded := seq(steps, _ => 0);
    state, ok := 0, true;
    ZeroIndex();
    assert full[..steps] == full;
    var step := steps;
    while step > 0
      invariant 0 <= step <= steps && |decoded| == steps && state < STATES && ok
      invariant Cell(metric, step, At(state)) < METRIC_INF && Traced(metric, step, At(state)) == full[..step]
      invariant forall k :: step <= k < steps ==> decoded[k] == Int(full[k])
    {
      TraceStep(llrs, full, step, state);
      step := step - 1;
      decoded := decoded[step := state % 2];
      var previous := history[step][state];
      if previous == NO_PREDECESSOR { return decoded, state, false; }
      state := previous;
    }
    StartsAtZero(metric, state);
    return decoded, state, true;
  }

  lemma StartsAtZero(metric: Metric, state: nat)
    requires state < STATES && Cell(metric, 0, At(state)) < METRIC_INF
    ensures state == 0
  {
    hide At;
    assert Index(At(state)) == Index(ZERO);
  }

  lemma TraceStep(llrs: seq<int8>, full: seq<bool>, t: nat, state: nat)
    requires 0 < t <= |full| && state < STATES && Payable(t)
    requires Cell(Soft(llrs), t, At(state)) < METRIC_INF && Traced(Soft(llrs), t, At(state)) == full[..t]
    ensures var previous := Predecessor(Soft(llrs), t - 1, state);
            && previous < STATES
            && Cell(Soft(llrs), t - 1, At(previous)) < METRIC_INF
            && Traced(Soft(llrs), t - 1, At(previous)) == full[..t - 1]
    ensures full[t - 1] == (state % 2 == 1)
  {
    hide At, Index, Soft;
    var metric := Soft(llrs);
    IndexArithmetic(state, false);
    CellUnfold(metric, t - 1, At(state));
    assert full[..t][t - 1] == full[t - 1] && full[..t][..t - 1] == full[..t - 1];
  }

  // ----------------------------------------- agreement with the hard decoder

  /** Hard bits as soft values of one magnitude. */
  function Image(received: seq<bool>, m: int8): (llrs: seq<int8>)
    requires m >= 1
    ensures |llrs| == |received| && forall k :: 0 <= k < |llrs| ==> llrs[k] == if received[k] then m else -m
  {
    seq(|received|, k requires 0 <= k < |received| => if received[k] then m else -m)
  }

  /** On such an image every table cell is an increasing affine function of the
    * hard decoder's, so the two tables prefer the same predecessors, ties
    * included. */
  lemma {:induction false} ImageCell(received: seq<bool>, m: int8, t: nat, s: State)
    requires m >= 1 && 2 * t <= |received| && Payable(t)
    ensures var h, v := Cell(Hard(received), t, s), Cell(Soft(Image(received, m)), t, s);
            if h >= METRIC_INF then v >= METRIC_INF else v == ImagePenalty(m, h, t) < METRIC_INF
    decreases t, 0
  {
    if t == 0 {
      assert m * 0 == 0 && (128 - m) * 0 == 0;
    } else {
      hide Hard, Soft, Image, Candidate;
      ImageCandidate(received, m, t - 1, s, false);
      ImageCandidate(received, m, t - 1, s, true);
      ImagePenaltyMonotone(m, Candidate(Hard(received), t - 1, s, true), Candidate(Hard(received), t - 1, s, false), t);
      hide ImagePenalty;
    }
  }

  function ImagePenalty(m: int, h: int, t: int): int { 2 * (m * h) + 2 * (128 - m) * t }

  lemma ImagePenaltyStep(m: int, h: int, b: int, t: int)
    ensures ImagePenalty(m, h + b, t + 1) == ImagePenalty(m, h, t) + 2 * (m * b) + 2 * (128 - m)
  {
    assert m * (h + b) == m * h + m * b;
    assert (128 - m) * (t + 1) == (128 - m) * t + (128 - m);
  }

  lemma ImagePenaltyMonotone(m: int, a: int, b: int, t: int)
    requires m >= 1
    ensures ImagePenalty(m, a, t) < ImagePenalty(m, b, t) <==> a < b
  {
    assert m * b - m * a == m * (b - a);
    if a < b { Positive(m, b - a); } else if b < a { Positive(m, a - b); }
  }

  lemma Positive(m: int, d: int)
    requires m >= 1 && d >= 1
    ensures m * d >= 1
  {}

  lemma ImageBranch(received: seq<bool>, m: int8, t: nat, s: State, bit: bool)
    requires m >= 1 && 2 * t + 2 <= |received|
    ensures 0 <= Branch(Hard(received), t, s, bit) <= 2 && 0 <= Branch(Soft(Image(received, m)), t, s, bit) <= 512
    ensures Branch(Soft(Image(received, m)), t, s, bit) == 2 * (m * Branch(Hard(received), t, s, bit)) + 2 * (128 - m)
  {
    hide Out0, Out1;
  }

  lemma {:induction false} ImageCandidate(received: seq<bool>, m: int8, t: nat, s: State, high: bool)
    requires m >= 1 && 2 * t + 2 <= |received| && Payable(t + 1)
    ensures var h, v := Candidate(Hard(received), t, s, high), Candidate(Soft(Image(received, m)), t, s, high);
            if h >= METRIC_INF then h == v == METRIC_INF else v == ImagePenalty(m, h, t + 1) < METRIC_INF
    decreases t, 1
  {
    hide Hard, Soft, Image, Cell, Branch, ImagePenalty;
    var p := Previous(s, high);
    ImageCell(received, m, t, p);
    ImageBranch(received, m, t, p, s.b0);
    SoftInRange(Image(received, m));
    assert InRange(Hard(received)) by { HardInRange(received); }
    CellRange(Soft(Image(received, m)), t, p);
    CellRange(Hard(received), t, p);
    ImagePenaltyStep(m, Cell(Hard(received), t, p), Branch(Hard(received), t, p, s.b0), t);
  }

  lemma ImageDecision(received: seq<bool>, m: int8, t: nat, s: State)
    requires m >= 1 && 2 * t + 2 <= |received| && Payable(t + 1)
    ensures Decision(Hard(received), t, s) == Decision(Soft(Image(received, m)), t, s)
  {
    hide Hard, Soft, Image, Candidate;
    ImageCandidate(received, m, t, s, false);
    ImageCandidate(received, m, t, s, true);
    ImagePenaltyMonotone(m, Candidate(Hard(received), t, s, true), Candidate(Hard(received), t, s, false), t + 1);
    hide ImagePenalty;
  }

  lemma {:induction false} ImageTraced(received: seq<bool>, m: int8, t: nat, s: State)
    requires m >= 1 && 2 * t <= |received| && Payable(t)
    ensures Traced(Hard(received), t, s) == Traced(Soft(Image(received, m)), t, s)
  {
    hide Hard, Soft, Image, Decision;
    if t > 0 {
      ImageDecision(received, m, t - 1, s);
      ImageTraced(received, m, t - 1, Previous(s, Decision(Hard(received), t - 1, s)));
    }
  }

  /** For every received word and every magnitude, the Rust decoder on the
    * word's soft image returns what the C hard decoder returns on the word. */
  lemma DecodersAgree(received: seq<bool>, m: int8, steps: nat)
    requires m >= 1 && |received| == 2 * steps && steps >= MEMORY && Payable(steps)
    ensures Decoded(Soft(Image(received, m)), steps) == Decoded(Hard(received), steps)
  {
    hide Hard, Soft, Image, Traced;
    ImageTraced(received, m, steps, ZERO);
  }

  /** The coded lengths the soft decoder takes are those of 0 to 256 bytes. */
  lemma LegalLengths(n: nat)
    ensures !BadSoftLength(n) <==> exists bytes :: 0 <= bytes <= 256 && n == 16 * bytes + 12
  {
    if !BadSoftLength(n) {
      assert n == 16 * ((n - 12) / 16) + 12;
    }
  }
}
