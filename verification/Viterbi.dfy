/** What a Viterbi decoder computes, and why its traced path is the best one. */
module Viterbi {
  // `metric(i, e)` is the penalty of reading observation `i` when bit `e` was
  // expected; only its range is used.

  import opened Trellis

  type Metric = (nat, bool) -> int

  const MAX_METRIC := 544

  ghost predicate InRange(metric: Metric) {
    forall i, e :: 0 <= metric(i, e) <= MAX_METRIC
  }

  const METRIC_INF: int := 0x7fff_ffff / 4

  /** Path lengths for which no path can cost as much as the sentinel. */
  predicate Payable(steps: nat) { 2 * MAX_METRIC * steps < METRIC_INF }

  function Branch(metric: Metric, t: nat, s: State, bit: bool): int {
    metric(2 * t, Out0(s, bit)) + metric(2 * t + 1, Out1(s, bit))
  }

  /** The penalty of a whole path. */
  function Cost(metric: Metric, path: seq<bool>): int {
    if path == [] then 0
    else Cost(metric, Front(path)) + Branch(metric, |path| - 1, Run(Front(path)), Last(path))
  }

  /** The table cell of state `s` after `t` steps. */
  function Cell(metric: Metric, t: nat, s: State): int
    decreases t, 0
  {
    if t == 0 then if s == ZERO then 0 else METRIC_INF
    else if Candidate(metric, t - 1, s, true) < Candidate(metric, t - 1, s, false)
    then Candidate(metric, t - 1, s, true)
    else Candidate(metric, t - 1, s, false)
  }

  /** The cost of entering `s` at step `t` from one of its predecessors. */
  function Candidate(metric: Metric, t: nat, s: State, high: bool): int
    decreases t, 1
  {
    var p := Previous(s, high);
    if Cell(metric, t, p) >= METRIC_INF then METRIC_INF
    else Cell(metric, t, p) + Branch(metric, t, p, s.b0)
  }

  /** Whether the survivor into `s` at step `t` comes from the high predecessor. */
  predicate Decision(metric: Metric, t: nat, s: State) {
    Candidate(metric, t, s, true) < Candidate(metric, t, s, false)
  }

  /** On a tie the low predecessor survives, and it does so only with a penalty
    * no greater than the other's. */
  lemma LowSurvivesTies(metric: Metric, t: nat, s: State)
    ensures Decision(metric, t, s) <==> Cell(metric, t + 1, s) < Candidate(metric, t, s, false)
    ensures !Decision(metric, t, s) <==> Cell(metric, t + 1, s) == Candidate(metric, t, s, false)
  {
    assert Cell(metric, t + 1, s) == if Decision(metric, t, s) then Candidate(metric, t, s, true)
                                     else Candidate(metric, t, s, false);
  }

  /** The path read off the survivors, backwards from state `s` at step `t`. */
  function Traced(metric: Metric, t: nat, s: State): (path: seq<bool>)
    ensures |path| == t
  {
    if t == 0 then []
    else Traced(metric, t - 1, Previous(s, Decision(metric, t - 1, s))) + [s.b0]
  }

  function Decoded(metric: Metric, steps: nat): (message: seq<bool>)
    requires steps >= MEMORY
    ensures |message| == steps - MEMORY
  {
    Traced(metric, steps, ZERO)[..steps - MEMORY]
  }

  lemma CostExtend(metric: Metric, path: seq<bool>, bit: bool)
    ensures Cost(metric, path + [bit]) == Cost(metric, path) + Branch(metric, |path|, Run(path), bit)
  {
    assert Front(path + [bit]) == path;
  }

  lemma {:induction false} CostRange(metric: Metric, path: seq<bool>)
    requires InRange(metric)
    ensures 0 <= Cost(metric, path) <= 2 * MAX_METRIC * |path|
  {
    if path != [] { CostRange(metric, Front(path)); }
  }

  lemma EmptyPath(metric: Metric)
    ensures Run([]) == ZERO && Cost(metric, []) == 0
  {}

  lemma NextOfPrevious(s: State, high: bool)
    ensures Next(Previous(s, high), s.b0) == s
  {}

  /** A cell below the sentinel is the cost of its own traced path, and that
    * path does lead to the cell's state. */
  lemma {:induction false} CellSound(metric: Metric, t: nat, s: State)
    requires Cell(metric, t, s) < METRIC_INF
    ensures Run(Traced(metric, t, s)) == s
    ensures Cost(metric, Traced(metric, t, s)) == Cell(metric, t, s)
  {
    hide Out0, Out1, Branch, Run, Cost, Previous, Next;
    if t == 0 {
      assert Run([]) == ZERO && Cost(metric, []) == 0 by { EmptyPath(metric); }
    } else {
      var high := Decision(metric, t - 1, s);
      var p := Previous(s, high);
      assert Cell(metric, t, s) == Candidate(metric, t - 1, s, high);
      assert Cell(metric, t - 1, p) < METRIC_INF;
      CellSound(metric, t - 1, p);
      PathExtend(Traced(metric, t - 1, p), s.b0);
      CostExtend(metric, Traced(metric, t - 1, p), s.b0);
      NextOfPrevious(s, high);
    }
  }

  /** No path into a state costs less than its cell. */
  lemma {:induction false} CellOptimal(metric: Metric, path: seq<bool>)
    requires InRange(metric) && Payable(|path|)
    ensures Cell(metric, |path|, Run(path)) <= Cost(metric, path)
  {
    hide Out0, Out1, Branch;
    if path != [] {
      var p, bit := Front(path), Last(path);
      var s, high := Next(Run(p), bit), Run(p).b5;
      CellOptimal(metric, p);
      CostRange(metric, p);
      assert Previous(s, high) == Run(p) && s.b0 == bit;
      assert Candidate(metric, |p|, s, high) <= Cost(metric, path);
      assert Cell(metric, |p| + 1, s) <= Candidate(metric, |p|, s, high);
    }
  }

  /** Every cell is the sentinel or a payable cost, so no sum of a cell and a
    * branch leaves the 32-bit range. */
  lemma CellRange(metric: Metric, t: nat, s: State)
    requires InRange(metric) && Payable(t)
    ensures Cell(metric, t, s) == METRIC_INF || 0 <= Cell(metric, t, s) <= 2 * MAX_METRIC * t
  {
    hide Run, Cost, Traced, Cell;
    if Cell(metric, t, s) < METRIC_INF {
      CellSound(metric, t, s);
      CostRange(metric, Traced(metric, t, s));
    } else {
      CellCapped(metric, t, s);
    }
  }

  lemma {:induction false} CellCapped(metric: Metric, t: nat, s: State)
    requires InRange(metric) && Payable(t)
    ensures Cell(metric, t, s) <= METRIC_INF
  {
    if t > 0 {
      var p := Previous(s, false);
      if Cell(metric, t - 1, p) < METRIC_INF {
        CellSound(metric, t - 1, p);
        CostRange(metric, Traced(metric, t - 1, p));
      }
      LowCandidate(metric, t - 1, s);
      hide Candidate, Branch, Out0, Out1;
    }
  }

  /** A payable way in from the low predecessor stays below the sentinel. */
  lemma LowCandidate(metric: Metric, t: nat, s: State)
    requires InRange(metric) && Payable(t + 1)
    requires Cell(metric, t, Previous(s, false)) < METRIC_INF
             ==> Cell(metric, t, Previous(s, false)) <= 2 * MAX_METRIC * t
    ensures Cell(metric, t + 1, s) <= Candidate(metric, t, s, false) <= METRIC_INF
  {
    hide Out0, Out1, Previous;
  }

  /** Maximum likelihood.  The final cell is always payable, the traced path is
    * a terminated message, the final cell is that message's own cost, and no
    * message of the same length costs less. */
  lemma MaximumLikelihood(metric: Metric, steps: nat)
    requires InRange(metric) && Payable(steps) && steps >= MEMORY
    ensures Cell(metric, steps, ZERO) < METRIC_INF
    ensures Traced(metric, steps, ZERO) == Terminated(Decoded(metric, steps))
    ensures Cell(metric, steps, ZERO) == Cost(metric, Terminated(Decoded(metric, steps)))
    ensures forall m: seq<bool> :: |m| + MEMORY == steps ==> Cell(metric, steps, ZERO) <= Cost(metric, Terminated(m))
  {
    hide Run, Cost, Cell;
    forall m: seq<bool> | |m| + MEMORY == steps
      ensures Cell(metric, steps, ZERO) <= Cost(metric, Terminated(m)) < METRIC_INF
    {
      TerminatedEndsInZero(m);
      CellOptimal(metric, Terminated(m));
      CostRange(metric, Terminated(m));
    }
    var m0 := seq(steps - MEMORY, _ => false);
    assert |m0| + MEMORY == steps;
    assert Cell(metric, steps, ZERO) <= Cost(metric, Terminated(m0));
    CellSound(metric, steps, ZERO);
    ZeroEndIsTerminated(Traced(metric, steps, ZERO), Decoded(metric, steps));
  }

  // ------------------------------------------------------- hard observations

  /** One for a received bit that is not the expected one. */
  function Hard(received: seq<bool>): Metric {
    (i: nat, e: bool) => if i < |received| && received[i] == e then 0 else 1
  }

  lemma HardInRange(received: seq<bool>)
    ensures InRange(Hard(received))
  {}

  /** Against hard observations a path costs its distance from what was
    * received. */
  lemma {:induction false} HardCost(received: seq<bool>, path: seq<bool>)
    requires 2 * |path| <= |received|
    ensures Cost(Hard(received), path) == Distance(received[..2 * |path|], Outputs(path))
  {
    hide Out0, Out1, Run;
    if path != [] {
      var p, n := Front(path), |path|;
      HardCost(received, p);
      assert received[..2 * n] == received[..2 * n - 2] + [received[2 * n - 2], received[2 * n - 1]];
      DistanceExtend(received[..2 * n - 2], Outputs(p), received[2 * n - 2], received[2 * n - 1],
                     Out0(Run(p), Last(path)), Out1(Run(p), Last(path)));
    }
  }

  /** Four errors anywhere in a codeword are always corrected. */
  lemma CorrectsFourErrors(message: seq<bool>, received: seq<bool>)
    requires |received| == |Codeword(message)| && Payable(|message| + MEMORY)
    requires Distance(received, Codeword(message)) <= 4
    ensures Decoded(Hard(received), |message| + MEMORY) == message
  {
    hide Cell, Cost, Decoded, Outputs, Distance;
    var metric, steps := Hard(received), |message| + MEMORY;
    var d := Decoded(metric, steps);
    MaximumLikelihood(metric, steps);
    assert received[..2 * steps] == received;
    HardCost(received, Terminated(message));
    HardCost(received, Terminated(d));
    if d != message {
      FreeDistance(message, d);
      DistanceSymmetric(received, Codeword(message));
      DistanceTriangle(Codeword(message), received, Codeword(d));
    }
  }
}
