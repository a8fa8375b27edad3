/** The 64-message anti-replay window over 16-bit sequence numbers, in Rust and
  * C, and the unbounded set it stands for.
  */
module Replay {
  import opened Words
  import opened AirErrors

  datatype ReplayDecision = Accept | Duplicate | TooOld

  /** The fields of a window.  The C entry has the same ones; `initialized` is
    * its `used`. */
  datatype Window = Window(initialized: bool, highest: u16, bitmap: u64)

  const EMPTY := Window(false, 0, 0)

  /** `a.wrapping_sub(b)` */
  function WrappingSub(a: u16, b: u16): u16 { (a - b) % 0x1_0000 }

  function Classify(w: Window, sequence: u16): ReplayDecision {
    if !w.initialized then Accept
    else
      var forward := WrappingSub(sequence, w.highest);
      if forward != 0 && forward < 0x8000 then Accept
      else if forward == 0 then Duplicate
      else
        var behind := WrappingSub(w.highest, sequence);
        if behind >= 64 then ReplayDecision.TooOld
        else if Bit(w.bitmap, behind) then Duplicate
        else Accept
  }

  /** The window after a commit; a refused commit changes nothing. */
  function Committed(w: Window, sequence: u16): Window {
    if !Classify(w, sequence).Accept? then w
    else if !w.initialized then Window(true, sequence, 1)
    else
      var forward := WrappingSub(sequence, w.highest);
      if forward != 0 && forward < 0x8000 then
        Window(true, sequence, if forward >= 64 then 1 else ShiftedIn(w.bitmap, forward))
      else
        w.(bitmap := Marked(w.bitmap, WrappingSub(w.highest, sequence)))
  }

  /** `(bitmap << forward) | 1` */
  function ShiftedIn(bitmap: u64, forward: nat): u64 {
    ShiftFits(bitmap, forward);
    SetBit(ShiftLeft(bitmap, forward, 64), 0)
  }

  /** `bitmap | (1 << i)` in 64 bits */
  function Marked(bitmap: u64, i: nat): u64 {
    if i < 64 then MarkFits(bitmap, i); SetBit(bitmap, i) else bitmap
  }

  lemma MarkFits(bitmap: u64, i: nat)
    requires i < 64
    ensures SetBit(bitmap, i) < 0x1_0000_0000_0000_0000
  {
    hide SetBit;
    Pow2Values();
    SetBitBound(bitmap, i, 64);
  }

  lemma ShiftFits(bitmap: u64, d: nat)
    ensures SetBit(ShiftLeft(bitmap, d, 64), 0) < 0x1_0000_0000_0000_0000
  {
    hide SetBit, Pow2;
    Pow2Values();
    SetBitBound(ShiftLeft(bitmap, d, 64), 0, 64);
  }

  class ReplayWindow {
    var initialized: bool
    var highest: u16
    var bitmap: u64

    function State(): Window
      reads this
    {
      Window(initialized, highest, bitmap)
    }

    constructor ()
      ensures State() == EMPTY
    {
      initialized, highest, bitmap := false, 0, 0;
    }

    function ClassifySequence(sequence: u16): ReplayDecision
      reads this
    {
      Classify(State(), sequence)
    }

    method Commit(sequence: u16) returns (r: Result<()>)
      modifies this
      ensures State() == Committed(old(State()), sequence)
      ensures r == match old(Classify(State(), sequence))
                   case Duplicate => Err(AirError.Replay) case TooOld => Err(AirError.TooOld) case Accept => Ok(())
    {
      match ClassifySequence(sequence) {
        case Duplicate => return Err(AirError.Replay);
        case TooOld => return Err(AirError.TooOld);
        case Accept =>
      }
      if !initialized {
        initialized, highest, bitmap := true, sequence, 1;
        return Ok(());
      }
      var forward := WrappingSub(sequence, highest);
      if forward != 0 && forward < 0x8000 {
        bitmap := if forward >= 64 then 1 else ShiftedIn(bitmap, forward);
        highest := sequence;
      } else {
        var behind := WrappingSub(highest, sequence);
        bitmap := Marked(bitmap, behind);
      }
      return Ok(());
    }
  }

  // --------------------------------------------------------------- the C form

  /** `sequence_delta` */
  function SequenceDelta(sequence: u16, reference: u16): int {
    var difference := WrappingSub(sequence, reference);
    if difference < 0x8000 then difference else difference - 0x1_0000
  }

  predicate IsReplay(w: Window, sequence: u16) {
    w.initialized &&
    var delta := SequenceDelta(sequence, w.highest);
    delta <= 0 && (-delta >= 64 || Bit(w.bitmap, -delta))
  }

  /** The body of `commit_replay`, which does not test for replays itself. */
  function CommitReplay(w: Window, sequence: u16): Window {
    if !w.initialized then Window(true, sequence, 1)
    else
      var delta := SequenceDelta(sequence, w.highest);
      if delta > 0 then Window(true, sequence, if delta >= 64 then 1 else ShiftedIn(w.bitmap, delta))
      else w.(bitmap := Marked(w.bitmap, -delta))
  }

  // ------------------------------------------- the unbounded window behind both

  /** Every sequence number ever committed, without wrap-around. */
  datatype History = History(highest: int, committed: set<int>)

  /** The number closest to `highest` that the 16 bits can stand for; half the
    * number space away counts as behind. */
  function Extended(h: History, sequence: u16): int {
    h.highest + SequenceDelta(sequence, h.highest % 0x1_0000)
  }

  /** Bit i of the bitmap is set exactly when the number i behind the highest
    * was committed. */
  ghost predicate Refines(w: Window, h: History) {
    (w.initialized <==> h.committed != {}) &&
    (w.initialized ==>
      && h.highest in h.committed && (forall c :: c in h.committed ==> c <= h.highest)
      && w.highest == h.highest % 0x1_0000
      && forall i :: 0 <= i < 64 ==> (Bit(w.bitmap, i) <==> h.highest - i in h.committed))
  }

  function Recorded(h: History, sequence: u16): History {
    if h.committed == {} then History(sequence, {sequence})
    else
      var e := Extended(h, sequence);
      History(if e > h.highest then e else h.highest, h.committed + {e})
  }

  lemma ExtendedFacts(h: History, sequence: u16)
    ensures var e := Extended(h, sequence);
            && e % 0x1_0000 == sequence && -0x8000 <= e - h.highest < 0x8000
    ensures var f, b := WrappingSub(sequence, h.highest % 0x1_0000), WrappingSub(h.highest % 0x1_0000, sequence);
            && (f == 0 <==> Extended(h, sequence) == h.highest)
            && (0 < f < 0x8000 <==> Extended(h, sequence) > h.highest)
            && (f < 0x8000 ==> f == Extended(h, sequence) - h.highest)
            && (f == 0 || f >= 0x8000 ==> b == h.highest - Extended(h, sequence))
  {}

  /** The classification is that of the unbounded window. */
  lemma ClassifyRefines(w: Window, h: History, sequence: u16)
    requires Refines(w, h) && w.initialized
    ensures var e := Extended(h, sequence);
            Classify(w, sequence) ==
              if e > h.highest then Accept
              else if h.highest - e >= 64 then ReplayDecision.TooOld
              else if e in h.committed then Duplicate
              else Accept
  {
    hide Extended;
    ExtendedFacts(h, sequence);
    assert Bit(w.bitmap, 0);
  }

  /** An accepted commit keeps the refinement. */
  lemma CommitRefines(w: Window, h: History, sequence: u16)
    requires Refines(w, h) && Classify(w, sequence).Accept?
    ensures Refines(Committed(w, sequence), Recorded(h, sequence))
  {
    hide Bit, SetBit, Extended, ShiftLeft;
    ExtendedFacts(h, sequence);
    if !w.initialized {
      forall i | 0 <= i < 64 ensures Bit(1, i) == (i == 0) { OneBits(i); }
    } else {
      var e := Extended(h, sequence);
      ClassifyRefines(w, h, sequence);
      if e > h.highest {
        CommitAhead(w, h, sequence, e);
      } else {
        CommitBehind(w, h, sequence, e);
      }
    }
  }

  lemma OneBits(i: nat)
    ensures Bit(1, i) == (i == 0)
  {
    if i > 0 { ZeroBits(i - 1); }
  }

  lemma CommitAhead(w: Window, h: History, sequence: u16, e: int)
    requires Refines(w, h) && w.initialized && e == Extended(h, sequence) > h.highest
    requires Classify(w, sequence).Accept?
    ensures Refines(Committed(w, sequence), Recorded(h, sequence))
  {
    hide Bit, SetBit, Extended, ShiftLeft, Classify;
    ExtendedFacts(h, sequence);
    var f := e - h.highest;
    var h', w' := Recorded(h, sequence), Committed(w, sequence);
    forall i | 0 <= i < 64 ensures Bit(w'.bitmap, i) <==> e - i in h'.committed {
      OneBits(i);
      if f < 64 {
        BitOfSetBit(ShiftLeft(w.bitmap, f, 64), 0, i);
        BitOfShiftLeft(w.bitmap, f, 64, i);
        if i >= f { assert Bit(w.bitmap, i - f) <==> h.highest - (i - f) in h.committed; }
      }
    }
  }

  lemma CommitBehind(w: Window, h: History, sequence: u16, e: int)
    requires Refines(w, h) && w.initialized && e == Extended(h, sequence) <= h.highest && h.highest - e < 64
    requires Classify(w, sequence).Accept?
    ensures Refines(Committed(w, sequence), Recorded(h, sequence))
  {
    hide Bit, SetBit, Extended, Classify;
    ExtendedFacts(h, sequence);
    var h', w' := Recorded(h, sequence), Committed(w, sequence);
    forall i | 0 <= i < 64 ensures Bit(w'.bitmap, i) <==> h.highest - i in h'.committed {
      BitOfSetBit(w.bitmap, h.highest - e, i);
    }
  }

  /** A committed number is refused exactly while the highest is at most half
    * the number space ahead of it; past that its 16 bits mean a new number. */
  lemma RejectedWhileWithinHalf(w: Window, h: History, c: int)
    requires Refines(w, h) && c in h.committed && h.highest - c < 0x1_0000
    ensures Classify(w, c % 0x1_0000).Accept? <==> h.highest - c > 0x8000
  {
    hide Extended;
    var s := c % 0x1_0000;
    ExtendedFacts(h, s);
    ClassifyRefines(w, h, s);
    var e := Extended(h, s);
    assert (e - c) % 0x1_0000 == 0;
    if h.highest - c <= 0x8000 { assert e == c; } else { assert e == c + 0x1_0000; }
  }

  /** An accepted number is one not committed before. */
  lemma AcceptedIsNew(w: Window, h: History, sequence: u16)
    requires Refines(w, h) && Classify(w, sequence).Accept?
    ensures |Recorded(h, sequence).committed| == |h.committed| + 1
  {
    hide Extended, Classify;
    if w.initialized { ClassifyRefines(w, h, sequence); }
  }

  /** The half-space point itself is never accepted. */
  lemma HalfSpaceIsAmbiguous(w: Window, sequence: u16)
    requires w.initialized && WrappingSub(sequence, w.highest) == 0x8000
    ensures Classify(w, sequence) == ReplayDecision.TooOld && IsReplay(w, sequence)
  {}

  // -------------------------------------------------------- whole histories

  /** A run: every number is offered, and committed if it is accepted. */
  function RustRun(offered: seq<u16>): Window {
    if offered == [] then EMPTY
    else Committed(RustRun(offered[..|offered| - 1]), offered[|offered| - 1])
  }

  function RustAnswers(offered: seq<u16>): (answers: seq<bool>)
    ensures |answers| == |offered|
  {
    if offered == [] then []
    else
      var before := offered[..|offered| - 1];
      RustAnswers(before) + [Classify(RustRun(before), offered[|offered| - 1]).Accept?]
  }

  function CRun(offered: seq<u16>): Window {
    if offered == [] then EMPTY
    else
      var before, s := CRun(offered[..|offered| - 1]), offered[|offered| - 1];
      if IsReplay(before, s) then before else CommitReplay(before, s)
  }

  function CAnswers(offered: seq<u16>): (answers: seq<bool>)
    ensures |answers| == |offered|
  {
    if offered == [] then []
    else
      var before := offered[..|offered| - 1];
      CAnswers(before) + [!IsReplay(CRun(before), offered[|offered| - 1])]
  }

  /** The accepted numbers of a run, without wrap-around. */
  function RunHistory(offered: seq<u16>): History {
    if offered == [] then History(0, {})
    else
      var before, s := offered[..|offered| - 1], offered[|offered| - 1];
      if Classify(RustRun(before), s).Accept? then Recorded(RunHistory(before), s) else RunHistory(before)
  }

  /** After every run the bitmap refines the set of accepted numbers. */
  lemma {:induction false} RunRefines(offered: seq<u16>)
    ensures Refines(RustRun(offered), RunHistory(offered))
  {
    hide Refines, Committed, Recorded, Classify;
    if offered == [] {
      EmptyRefines();
    } else {
      var before, s := offered[..|offered| - 1], offered[|offered| - 1];
      RunRefines(before);
      if Classify(RustRun(before), s).Accept? {
        CommitRefines(RustRun(before), RunHistory(before), s);
      } else {
        RefusedUnchanged(RustRun(before), s);
      }
    }
  }

  lemma EmptyRefines()
    ensures Refines(EMPTY, History(0, {}))
  {}

  lemma RefusedUnchanged(w: Window, s: u16)
    requires !Classify(w, s).Accept?
    ensures Committed(w, s) == w
  {}

  lemma SameTest(w: Window, s: u16)
    requires w.initialized ==> Bit(w.bitmap, 0)
    ensures IsReplay(w, s) <==> !Classify(w, s).Accept?
    ensures !IsReplay(w, s) ==> CommitReplay(w, s) == Committed(w, s)
  {
    hide ShiftedIn, Marked;
  }

  /** On every history of offered numbers the two languages keep the same
    * window and give the same answers. */
  lemma {:induction false} LanguagesAgree(offered: seq<u16>)
    ensures CRun(offered) == RustRun(offered) && CAnswers(offered) == RustAnswers(offered)
  {
    hide Committed, CommitReplay, Classify, IsReplay;
    if offered != [] {
      var before, s := offered[..|offered| - 1], offered[|offered| - 1];
      LanguagesAgree(before);
      RunRefines(before);
      assert RustRun(before).initialized ==> Bit(RustRun(before).bitmap, 0);
      SameTest(RustRun(before), s);
      if IsReplay(RustRun(before), s) { RefusedUnchanged(RustRun(before), s); }
    }
  }
}
