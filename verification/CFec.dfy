/** The C encoder and Viterbi decoder, on packed buffers and fixed workspaces. */
module CFec {
  import opened Words
  import opened BitBuffers
  import opened CStatus
  import opened Trellis
  import opened Viterbi

  function EncodedBits(inputBytes: nat): nat {
    if inputBytes > MAX_WIRE_BYTES then 0 else (inputBytes * 8 + FEC_TAIL_BITS) * 2
  }

  method FecEncode(input: seq<byte>, coded: array<byte>) returns (status: Status, codedBits: nat)
    modifies coded
    ensures status == if |input| > MAX_WIRE_BYTES || (EncodedBits(|input|) + 7) / 8 > coded.Length
                      then ERR_CAPACITY else OK
    ensures status.OK? ==> codedBits == EncodedBits(|input|) <= 8 * coded.Length
    ensures status.OK? ==> BitsOf(coded[..])[..codedBits] == Codeword(BitsOf(input))
    ensures status.OK? ==> coded[(codedBits + 7) / 8..] == old(coded[(EncodedBits(|input|) + 7) / 8..])
    ensures !status.OK? ==> coded[..] == old(coded[..])
  {
    codedBits := 0;
    var outputBits := EncodedBits(|input|);
    if outputBits == 0 && |input| != 0 { return ERR_CAPACITY, 0; }
    var outputBytes := (outputBits + 7) / 8;
    if outputBytes > coded.Length { return ERR_CAPACITY, 0; }
    hide *;
    EncodeBits(input, coded, outputBytes);
    return OK, outputBits;
  }

  /** The encoder past its capacity checks. */
  method EncodeBits(input: seq<byte>, coded: array<byte>, outputBytes: nat)
    requires outputBytes <= coded.Length && (|input| * 8 + FEC_TAIL_BITS) * 2 <= 8 * outputBytes
    modifies coded
    ensures BitsOf(coded[..])[..(|input| * 8 + FEC_TAIL_BITS) * 2] == Codeword(BitsOf(input))
    ensures coded[outputBytes..] == old(coded[outputBytes..])
  {
    hide Run, Outputs, GetBit, Packed;
    Clear(coded, outputBytes);
    var inputBits := |input| * 8;
    var state: bv8 := 0;
    ghost var path := Terminated(BitsOf(input));
    var i := 0;
    assert path[..0] == [] && BitsOf(coded[..])[..0] == [];
    EmptyRun();
    while i < inputBits + FEC_TAIL_BITS
      invariant 0 <= i <= |path|
      invariant state == Packed(Run(path[..i]))
      invariant BitsOf(coded[..])[..2 * i] == Outputs(path[..i])
      invariant forall k :: outputBytes <= k < coded.Length ==> coded[k] == old(coded[k])
    {
      var bit := if i < inputBits then GetBit(input, i) else false;
      assert path[..i + 1] == path[..i] + [bit];
      state := EncodeStep(coded, i, state, bit, path[..i]);
      i := i + 1;
    }
    assert path[..i] == path;
  }

  /** The body of the encoder's loop. */
  method EncodeStep(coded: array<byte>, i: nat, state: bv8, bit: bool, ghost path: seq<bool>) returns (next: bv8)
    requires |path| == i && state == Packed(Run(path))
    requires 2 * i + 2 <= 8 * coded.Length && BitsOf(coded[..])[..2 * i] == Outputs(path)
    modifies coded
    ensures next == Packed(Run(path + [bit]))
    ensures BitsOf(coded[..])[..2 * i + 2] == Outputs(path + [bit])
    ensures forall k :: 0 <= k < coded.Length && k != 2 * i / 8 ==> coded[k] == old(coded[k])
  {
    hide Out0, Out1, Folded0, Folded1, Counted0, Counted1, Shifted, LowSix, Packed, Next, Run, Outputs, GetBit, BitsOf;
    PathExtend(path, bit);
    RegisterArithmetic(Run(path), bit);
    var register := Shifted(state, bit);
    PutPair(coded, i, Folded0(register), Folded1(register));
    next := LowSix(register);
  }

  /** Writes one pair of output symbols. */
  method PutPair(coded: array<byte>, i: nat, first: bool, second: bool)
    requires 2 * i + 2 <= 8 * coded.Length
    modifies coded
    ensures BitsOf(coded[..])[..2 * i + 2] == old(BitsOf(coded[..]))[..2 * i] + [first, second]
    ensures forall k :: 0 <= k < coded.Length && k != 2 * i / 8 ==> coded[k] == old(coded[k])
  {
    hide GetBit;
    PutBit(coded, 2 * i, first);
    PutBit(coded, 2 * i + 1, second);
  }

  /** The fixed working memory of the decoder. */
  class Workspace {
    const survivor: array<u64>
    const metricA: array<int32>
    const metricB: array<int32>

    constructor ()
      ensures Valid() && fresh(survivor) && fresh(metricA) && fresh(metricB)
    {
      survivor := new u64[FEC_MAX_STEPS](_ => 0);
      metricA := new int32[64](_ => 0);
      metricB := new int32[64](_ => 0);
    }

    ghost function Buffers(): set<object> { {survivor as object, metricA as object, metricB as object} }

    predicate Valid() {
      survivor.Length == FEC_MAX_STEPS && metricA.Length == metricB.Length == 64 && metricA != metricB
    }
  }

  /** One trellis step: fills the next table column and says, one bit a state,
    * which predecessor survived. */
  method AddCompareSelect(metric: Metric, t: nat, previous: array<int32>, next: array<int32>) returns (decisions: u64)
    requires InRange(metric) && Payable(t + 1)
    requires previous.Length == next.Length == 64 && previous != next
    requires forall i :: 0 <= i < 64 ==> previous[i] == Cell(metric, t, At(i))
    modifies next
    ensures forall i :: 0 <= i < 64 ==> next[i] == Cell(metric, t + 1, At(i))
    ensures forall i :: 0 <= i < 64 ==> Bit(decisions, i) == Decision(metric, t, At(i))
  {
    hide Cell, Bit, At, Index, Decision, SetBit, InRange, Payable;
    decisions := 0;
    var nextState := 0;
    forall i: nat | i < 64 ensures !Bit(0, i) { ZeroBits(i); }
    while nextState < 64
      invariant 0 <= nextState <= 64
      invariant forall i :: 0 <= i < nextState ==> next[i] == Cell(metric, t + 1, At(i))
      invariant forall i :: 0 <= i < 64 ==> Bit(decisions, i) == (i < nextState && Decision(metric, t, At(i)))
    {
      var survivor, high := Select(metric, t, nextState, previous[nextState / 2], previous[nextState / 2 + 32]);
      next[nextState] := survivor;
      if high {
        MarkBit(decisions, nextState);
        decisions := SetBit(decisions, nextState);
      }
      nextState := nextState + 1;
    }
  }

  lemma MarkBit(word: u64, n: nat)
    requires n < 64
    ensures SetBit(word, n) < 0x1_0000_0000_0000_0000
    ensures forall i :: 0 <= i < 64 ==> Bit(SetBit(word, n), i) == (i == n || Bit(word, i))
  {
    hide Bit, SetBit;
    Pow2Values();
    SetBitBound(word, n, 64);
    forall i: nat | i < 64 ensures Bit(SetBit(word, n), i) == (i == n || Bit(word, i)) {
      BitOfSetBit(word, n, i);
    }
  }

  /** Compares the two ways into one state. */
  method Select(metric: Metric, t: nat, nextState: nat, previous0: int32, previous1: int32)
      returns (survivor: int32, high: bool)
    requires InRange(metric) && Payable(t + 1) && nextState < 64
    requires previous0 == Cell(metric, t, At(nextState / 2)) && previous1 == Cell(metric, t, At(nextState / 2 + 32))
    ensures survivor == Cell(metric, t + 1, At(nextState))
    ensures high == Decision(metric, t, At(nextState))
  {
    hide Cell, At;
    CellUnfold(metric, t, At(nextState));
    var candidate0 := CandidateFrom(metric, t, nextState, false, previous0);
    var candidate1 := CandidateFrom(metric, t, nextState, true, previous1);
    if candidate1 < candidate0 { return candidate1, true; } else { return candidate0, false; }
  }

  lemma CellUnfold(metric: Metric, t: nat, s: State)
    ensures Cell(metric, t + 1, s) == if Candidate(metric, t, s, true) < Candidate(metric, t, s, false)
                                      then Candidate(metric, t, s, true) else Candidate(metric, t, s, false)
  {}

  /** One candidate metric, computed within 32 bits. */
  method CandidateFrom(metric: Metric, t: nat, nextState: nat, high: bool, predecessorMetric: int32) returns (c: int32)
    requires InRange(metric) && Payable(t + 1) && nextState < 64
    requires predecessorMetric == Cell(metric, t, At(nextState / 2 + 32 * Int(high)))
    ensures c == Candidate(metric, t, At(nextState), high)
  {
    hide Cell, At, Out0, Out1;
    ghost var s := At(nextState);
    IndexArithmetic(nextState, false);
    assert Previous(s, high) == At(nextState / 2 + 32 * Int(high));
    var predecessor := At(nextState / 2 + 32 * Int(high));
    var inputBit := nextState % 2 == 1;
    CellRange(metric, t, predecessor);
    var branch: int32 := metric(2 * t, Out0(predecessor, inputBit)) + metric(2 * t + 1, Out1(predecessor, inputBit));
    c := if predecessorMetric >= METRIC_INF then METRIC_INF else predecessorMetric + branch;
  }

  /** Reads the message back off the survivors. */
  method Traceback(metric: Metric, steps: nat, output: array<byte>, outputBytes: nat, ws: Workspace)
    requires ws.Valid() && steps <= FEC_MAX_STEPS && outputBytes <= output.Length && 8 * outputBytes <= steps
    requires forall t, i :: 0 <= t < steps && 0 <= i < 64 ==> Bit(ws.survivor[t], i) == Decision(metric, t, At(i))
    modifies output
    ensures BitsOf(output[..])[..8 * outputBytes] == Traced(metric, steps, ZERO)[..8 * outputBytes]
    ensures output[outputBytes..] == old(output[outputBytes..])
  {
    hide Cell, Bit, At, Index, Decision, GetBit, Traced;
    Clear(output, outputBytes);
    ghost var full := Traced(metric, steps, ZERO);
    var state := 0;
    var t := steps;
    ZeroIndex();
    assert full[..t] == full;
    while t > 0
      invariant 0 <= t <= steps && 0 <= state < 64
      invariant Traced(metric, t, At(state)) == full[..t]
      invariant forall k :: t <= k < 8 * outputBytes ==> BitsOf(output[..])[k] == full[k]
      invariant forall k :: outputBytes <= k < output.Length ==> output[k] == old(output[k])
    {
      var step := t - 1;
      var inputBit := state % 2 == 1;
      var highPredecessor := Bit(ws.survivor[step], state);
      TraceStep(metric, full, t, state, highPredecessor);
      if step < 8 * outputBytes {
        PutBit(output, step, inputBit);
      }
      state := state / 2 + 32 * Int(highPredecessor);
      t := step;
    }
  }

  lemma TraceStep(metric: Metric, full: seq<bool>, t: nat, state: nat, high: bool)
    requires 0 < t <= |full| && state < 64 && Traced(metric, t, At(state)) == full[..t]
    requires high == Decision(metric, t - 1, At(state))
    ensures state / 2 + 32 * Int(high) < 64
    ensures full[t - 1] == (state % 2 == 1)
    ensures Traced(metric, t - 1, At(state / 2 + 32 * Int(high))) == full[..t - 1]
  {
    hide At, Decision;
    IndexArithmetic(state, false);
    assert full[..t][t - 1] == full[t - 1] && full[..t][..t - 1] == full[..t - 1];
  }

  /** The decoder.  A legal length always decodes: the failure exit behind the
    * sentinel test is never taken.  The result is the maximum-likelihood
    * message and the reported path metric is that message's own cost. */
  method FecDecode(metric: Metric, codedBits: nat, output: array<byte>, outputBytes: nat, ws: Workspace)
      returns (status: Status, pathMetric: nat)
    requires InRange(metric) && ws.Valid()
    requires output as object !in ws.Buffers()
    modifies output, ws.survivor, ws.metricA, ws.metricB
    ensures status == if outputBytes > output.Length || outputBytes > MAX_WIRE_BYTES then ERR_CAPACITY
                      else if codedBits != EncodedBits(outputBytes) then ERR_FEC else OK
    ensures status.OK? ==> BitsOf(output[..outputBytes]) == Decoded(metric, 8 * outputBytes + FEC_TAIL_BITS)
    ensures status.OK? ==> pathMetric == Cost(metric, Terminated(BitsOf(output[..outputBytes])))
    ensures status.OK? ==> forall m: seq<bool> :: |m| == 8 * outputBytes ==> pathMetric <= Cost(metric, Terminated(m))
    ensures status.OK? ==> output[outputBytes..] == old(output[outputBytes..])
    ensures !status.OK? ==> output[..] == old(output[..])
  {
    hide Cell, Bit, At, Index, Out0, Out1, Decision, GetBit, Candidate, Traced, Cost, InRange;
    pathMetric := 0;
    if outputBytes > output.Length || outputBytes > MAX_WIRE_BYTES { return ERR_CAPACITY, 0; }
    var expectedBits := EncodedBits(outputBytes);
    if codedBits != expectedBits || codedBits % 2 != 0 { return ERR_FEC, 0; }
    var steps := codedBits / 2;
    status := ERR_CAPACITY;
    if steps > FEC_MAX_STEPS { return; }
    var previous, next := ws.metricA, ws.metricB;
    InitialColumn(metric, previous);
    var t := 0;
    while t < steps
      invariant 0 <= t <= steps
      invariant {previous, next} == {ws.metricA, ws.metricB} && previous != next
      invariant forall i :: 0 <= i < 64 ==> previous[i] == Cell(metric, t, At(i))
      invariant forall u, i :: 0 <= u < t && 0 <= i < 64 ==> Bit(ws.survivor[u], i) == Decision(metric, u, At(i))
      invariant output[..] == old(output[..])
    {
      var decisions := AddCompareSelect(metric, t, previous, next);
      ws.survivor[t] := decisions;
      previous, next := next, previous;
      t := t + 1;
    }
    MaximumLikelihood(metric, steps);
    ZeroIndex();
    status := ERR_FEC;
    if previous[0] >= METRIC_INF { return; }
    Traceback(metric, steps, output, outputBytes, ws);
    BitsOfPrefix(output[..], outputBytes);
    CostRange(metric, Terminated(Decoded(metric, steps)));
    return OK, previous[0];
  }

  method InitialColumn(ghost metric: Metric, previous: array<int32>)
    requires previous.Length == 64
    modifies previous
    ensures forall i :: 0 <= i < 64 ==> previous[i] == Cell(metric, 0, At(i))
  {
    var state := 0;
    while state < 64
      invariant 0 <= state <= 64
      invariant forall i :: 0 <= i < state ==> previous[i] == if i == 0 then 0 else METRIC_INF
    {
      previous[state] := if state == 0 then 0 else METRIC_INF;
      state := state + 1;
    }
    hide At;
    forall i | 0 <= i < 64 ensures previous[i] == Cell(metric, 0, At(i)) {
      assert Index(At(i)) == i && Index(ZERO) == 0;
      if i == 0 { AtIndex(ZERO); }
    }
  }

  /** Hard decoding: the penalty is one for every bit that differs. */
  method FecDecodeHard(coded: seq<byte>, codedBits: nat, output: array<byte>, outputBytes: nat, ws: Workspace)
      returns (status: Status, pathMetric: nat)
    requires codedBits <= 8 * |coded| && ws.Valid()
    requires output as object !in ws.Buffers()
    modifies output, ws.survivor, ws.metricA, ws.metricB
    ensures status == if outputBytes > output.Length || outputBytes > MAX_WIRE_BYTES then ERR_CAPACITY
                      else if codedBits != EncodedBits(outputBytes) then ERR_FEC else OK
    ensures status.OK? ==> BitsOf(output[..outputBytes])
                           == Decoded(Hard(BitsOf(coded)[..codedBits]), 8 * outputBytes + FEC_TAIL_BITS)
    ensures status.OK? ==> pathMetric == Distance(BitsOf(coded)[..codedBits], Codeword(BitsOf(output[..outputBytes])))
    ensures status.OK? ==> forall m: seq<byte> :: |m| == outputBytes
                                                  && Distance(BitsOf(coded)[..codedBits], Codeword(BitsOf(m))) <= 4
                                                  ==> output[..outputBytes] == m
    ensures status.OK? ==> output[outputBytes..] == old(output[outputBytes..])
    ensures !status.OK? ==> output[..] == old(output[..])
  {
    hide GetBit, Cost, Traced, Decoded, Outputs, Distance;
    ghost var received := BitsOf(coded)[..codedBits];
    var metric := Hard(BitsOf(coded)[..codedBits]);
    status, pathMetric := FecDecode(metric, codedBits, output, outputBytes, ws);
    if status.OK? {
      ghost var out := output[..outputBytes];
      HardCost(received, Terminated(BitsOf(out)));
      assert received[..2 * (8 * outputBytes + FEC_TAIL_BITS)] == received;
      forall m: seq<byte> | |m| == outputBytes && Distance(received, Codeword(BitsOf(m))) <= 4 ensures out == m {
        CorrectsFourErrors(BitsOf(m), received);
        BitsOfInjective(out, m);
      }
    }
  }
}
