/** The streaming deframer: finds sync words in a stream of soft values, reads
  * the length, collects the payload and decodes it.
  */
module SoftBurst {
  import opened Words
  import opened AirErrors
  import opened Trellis
  import opened RustFec
  import opened BitStrings
  import opened BurstCodec

  datatype SoftBurstState = Searching | ReadingHeader | ReadingPayload(received: nat, expected: nat)

  /** The receiver's fields. */
  datatype Deframer = Deframer(shift: u32, seen: nat, header: seq<int8>, payload: seq<int8>, expected: Option<nat>)

  const IDLE := Deframer(0, 0, [], [], None)

  /** Marks a header that has begun but holds nothing yet. */
  const SENTINEL: int8 := -128

  function StateOf(d: Deframer): SoftBurstState {
    if d.expected.Some? then ReadingPayload(|d.payload|, d.expected.value)
    else if d.header != [] || (d.seen >= SYNC_BITS && d.shift == PHY_SYNC) then ReadingHeader
    else Searching
  }

  /** `(shift << 1) | bit` in 32 bits */
  function ShiftIn(shift: u32, bit: bool): u32 { (2 * shift + Int(bit)) % 0x1_0000_0000 }

  /** `saturating_add(1)` on a 64-bit count */
  function CountOn(seen: nat): nat { if seen < 0xffff_ffff_ffff_ffff then seen + 1 else seen }

  datatype Step = Step(after: Deframer, result: Result<Option<seq<byte>>>)

  function Fed(columns: Columns, d: Deframer, llr: int8): Step {
    if d.expected.Some? then
      var payload := d.payload + [llr];
      if |payload| == d.expected.value then
        var frame := DecodedCoded(payload, columns);
        Step(IDLE, if frame.Ok? then Ok(Some(frame.value)) else Err(frame.error))
      else Step(d.(payload := payload), Ok(None))
    else if d.header == [] then
      var shift, seen := ShiftIn(d.shift, llr > 0), CountOn(d.seen);
      Step(d.(shift := shift, seen := seen,
              header := if seen < SYNC_BITS || shift != PHY_SYNC then [] else [SENTINEL]), Ok(None))
    else
      var header := if d.header[0] == SENTINEL then [llr] else d.header + [llr];
      if |header| == LENGTH_BITS_REPEATED then
        var n := RepeatedLength(header);
        if LengthOk(n) then Step(d.(header := [], payload := [], expected := Some(n)), Ok(None))
        else Step(IDLE, Err(InvalidLength))
      else Step(d.(header := header), Ok(None))
  }

  datatype Slice = Slice(after: Deframer, result: Result<seq<seq<byte>>>)

  /** A slice stops at its first error; the values after it are not looked at. */
  function PushedSlice(columns: Columns, d: Deframer, llrs: seq<int8>): Slice {
    if llrs == [] then Slice(d, Ok([]))
    else Then(columns, PushedSlice(columns, d, Front(llrs)), Last(llrs))
  }

  function Then(columns: Columns, before: Slice, llr: int8): Slice {
    if before.result.Err? then before
    else
      var step := Fed(columns, before.after, llr);
      Slice(step.after,
            if step.result.Err? then Err(step.result.error)
            else if step.result.value.Some? then Ok(before.result.value + [step.result.value.value])
            else Ok(before.result.value))
  }

  class SoftBurstReceiver {
    const columns: Columns
    var shift: u32
    var seen: nat
    var header: seq<int8>
    var payload: seq<int8>
    var expected: Option<nat>

    function View(): Deframer
      reads this
    {
      Deframer(shift, seen, header, payload, expected)
    }

    ghost predicate Valid()
      reads this
    {
      Bounded(View())
    }

    constructor (columns: Columns)
      ensures Valid() && View() == IDLE && this.columns == columns
    {
      this.columns := columns;
      shift, seen, header, payload, expected := 0, 0, [], [], None;
    }

    method Reset()
      modifies this
      ensures View() == IDLE
    {
      shift, seen, header, payload, expected := 0, 0, [], [], None;
    }

    method PushLlr(llr: int8) returns (r: Result<Option<seq<byte>>>)
      requires Valid()
      modifies this
      ensures Valid() && Step(View(), r) == Fed(columns, old(View()), llr)
    {
      hide DecodedCoded, RepeatedLength;
      PushBounded(columns, View(), llr);
      if expected.Some? {
        payload := payload + [llr];
        if |payload| == expected.value {
          var result := DecodeCoded(payload, columns);
          Reset();
          if result.Err? { return Err(result.error); }
          return Ok(Some(result.value));
        }
        return Ok(None);
      }
      if header == [] {
        shift := ShiftIn(shift, llr > 0);
        seen := CountOn(seen);
        if seen < SYNC_BITS || shift != PHY_SYNC { return Ok(None); }
        header := [SENTINEL];
        return Ok(None);
      }
      if header[0] == SENTINEL { header := []; }
      header := header + [llr];
      if |header| == LENGTH_BITS_REPEATED {
        var n := DecodeRepeatedLength(header);
        r := Err(InvalidLength);
        if n.Err? { return; }
        if !LengthOk(n.value) {
          Reset();
          return;
        }
        header := [];
        payload := [];
        expected := Some(n.value);
      }
      return Ok(None);
    }

    method PushSlice(llrs: seq<int8>) returns (r: Result<seq<seq<byte>>>)
      requires Valid()
      modifies this
      ensures Valid() && Slice(View(), r) == PushedSlice(columns, old(View()), llrs)
    {
      hide Fed, Bounded;
      var frames: seq<seq<byte>> := [];
      for i := 0 to |llrs|
        invariant Valid() && Slice(View(), Ok(frames)) == PushedSlice(columns, old(View()), llrs[..i])
      {
        assert Front(llrs[..i + 1]) == llrs[..i];
        var frame := PushLlr(llrs[i]);
        if frame.Err? {
          StopsAtError(columns, old(View()), llrs, i + 1);
          return Err(frame.error);
        }
        if frame.value.Some? { frames := frames + [frame.value.value]; }
      }
      assert llrs[..|llrs|] == llrs;
      return Ok(frames);
    }
  }

  lemma {:induction false} StopsAtError(columns: Columns, d: Deframer, llrs: seq<int8>, i: nat)
    requires i <= |llrs| && PushedSlice(columns, d, llrs[..i]).result.Err?
    ensures PushedSlice(columns, d, llrs) == PushedSlice(columns, d, llrs[..i])
  {
    if i == |llrs| {
      assert llrs[..i] == llrs;
    } else {
      assert Front(llrs)[..i] == llrs[..i];
      StopsAtError(columns, d, Front(llrs), i);
    }
  }

  // ----- bounded buffers ------------------------------------------------------------

  /** The header never fills up, and the payload stays below the length it
    * waits for, which is at most the largest coded frame. */
  ghost predicate Bounded(d: Deframer) {
    |d.header| < LENGTH_BITS_REPEATED
    && match d.expected
       case None => d.payload == []
       case Some(n) => LengthOk(n) && |d.payload| < n && d.header == []
  }

  lemma PushBounded(columns: Columns, d: Deframer, llr: int8)
    requires Bounded(d)
    ensures Bounded(Fed(columns, d, llr).after)
  {
    hide DecodedCoded, RepeatedLength;
  }

  /** A sync word that has been seen has begun a header. */
  predicate Settled(d: Deframer) {
    d.expected.None? && d.header == [] ==> d.seen < 32 || d.shift != 0xd391_c5a7
  }

  /** In every run the reported state is what the receiver is reading. */
  lemma StateReported(columns: Columns, llrs: seq<int8>)
    ensures var d := PushedSlice(columns, IDLE, llrs).after;
            match d.expected
            case Some(n) => StateOf(d) == ReadingPayload(|d.payload|, n)
            case None => StateOf(d) == if d.header == [] then Searching else ReadingHeader
  {
    SettledRun(columns, IDLE, llrs);
    hide PushedSlice;
  }

  lemma {:induction false} SettledRun(columns: Columns, d: Deframer, llrs: seq<int8>)
    requires Settled(d)
    ensures Settled(PushedSlice(columns, d, llrs).after)
  {
    if llrs != [] {
      SettledRun(columns, d, Front(llrs));
      SettledKept(columns, PushedSlice(columns, d, Front(llrs)).after, Last(llrs));
      hide Fed, Settled;
    }
  }

  lemma SettledKept(columns: Columns, d: Deframer, llr: int8)
    requires Settled(d)
    ensures Settled(Fed(columns, d, llr).after)
  {
    hide DecodedCoded, RepeatedLength, ShiftIn;
  }

  // ----- chunking ----------------------------------------------------------------------

  /** Two slices in a row. */
  function Joined(columns: Columns, first: Slice, llrs: seq<int8>): Slice {
    if first.result.Err? then first
    else
      var second := PushedSlice(columns, first.after, llrs);
      Slice(second.after, if second.result.Err? then second.result else Ok(first.result.value + second.result.value))
  }

  lemma {:induction false} SlicesJoin(columns: Columns, d: Deframer, a: seq<int8>, b: seq<int8>)
    ensures PushedSlice(columns, d, a + b) == Joined(columns, PushedSlice(columns, d, a), b)
  {
    hide Fed;
    if b == [] {
      assert a + b == a;
      var first := PushedSlice(columns, d, a);
      if first.result.Ok? { assert first.result.value + [] == first.result.value; }
    } else {
      assert Front(a + b) == a + Front(b);
      SlicesJoin(columns, d, a, Front(b));
      var first := PushedSlice(columns, d, a);
      if first.result.Ok? {
        var rest := PushedSlice(columns, first.after, Front(b));
        if rest.result.Ok? {
          var step := Fed(columns, rest.after, Last(b));
          if step.result.Ok? && step.result.value.Some? {
            var last := [step.result.value.value];
            assert (first.result.value + rest.result.value) + last == first.result.value + (rest.result.value + last);
          }
        }
      }
    }
  }

  /** Nothing came out of the first slice, so all comes out of the second. */
  lemma JoinedToNothing(columns: Columns, first: Slice, llrs: seq<int8>)
    requires first.result == Ok([])
    ensures Joined(columns, first, llrs) == PushedSlice(columns, first.after, llrs)
  {
    hide PushedSlice;
    var second := PushedSlice(columns, first.after, llrs);
    if second.result.Ok? { assert [] + second.result.value == second.result.value; }
  }

  function Flat(chunks: seq<seq<int8>>): seq<int8> {
    if chunks == [] then [] else Flat(Front(chunks)) + Last(chunks)
  }

  /** What a caller has in hand: the frames it was given, and the error that
    * ended it, if one did. */
  datatype Feed = Feed(after: Deframer, frames: seq<seq<byte>>, error: Option<AirError>)

  /** The receiver fed value by value, until an error. */
  function PushedValues(columns: Columns, d: Deframer, llrs: seq<int8>): Feed {
    if llrs == [] then Feed(d, [], None)
    else
      var before := PushedValues(columns, d, Front(llrs));
      if before.error.Some? then before
      else
        var step := Fed(columns, before.after, Last(llrs));
        if step.result.Err? then Feed(step.after, before.frames, Some(step.result.error))
        else if step.result.value.Some? then Feed(step.after, before.frames + [step.result.value.value], None)
        else Feed(step.after, before.frames, None)
  }

  /** The receiver fed slice by slice, until an error.  A slice that fails hands
    * out nothing; what earlier slices handed out stays with the caller. */
  function PushedChunks(columns: Columns, d: Deframer, chunks: seq<seq<int8>>): Feed {
    if chunks == [] then Feed(d, [], None)
    else
      var before := PushedChunks(columns, d, Front(chunks));
      if before.error.Some? then before
      else
        var slice := PushedSlice(columns, before.after, Last(chunks));
        if slice.result.Err? then Feed(slice.after, before.frames, Some(slice.result.error))
        else Feed(slice.after, before.frames + slice.result.value, None)
  }

  /** The frames completed in the slice that fails, before its error. */
  function Lost(columns: Columns, d: Deframer, chunks: seq<seq<int8>>): seq<seq<byte>> {
    if chunks == [] then []
    else
      var before := PushedChunks(columns, d, Front(chunks));
      if before.error.Some? then Lost(columns, d, Front(chunks))
      else
        var values := PushedValues(columns, before.after, Last(chunks));
        if values.error.Some? then values.frames else []
  }

  /** One slice hands out what its values give, or nothing. */
  lemma {:induction false} SliceOfValues(columns: Columns, d: Deframer, llrs: seq<int8>)
    ensures var v := PushedValues(columns, d, llrs);
            PushedSlice(columns, d, llrs) == Slice(v.after, if v.error.Some? then Err(v.error.value) else Ok(v.frames))
  {
    hide Fed;
    if llrs != [] { SliceOfValues(columns, d, Front(llrs)); }
  }

  lemma {:induction false} ValuesJoin(columns: Columns, d: Deframer, a: seq<int8>, b: seq<int8>)
    ensures var first := PushedValues(columns, d, a);
            var second := PushedValues(columns, first.after, b);
            PushedValues(columns, d, a + b)
            == if first.error.Some? then first else Feed(second.after, first.frames + second.frames, second.error)
  {
    hide Fed;
    if b == [] {
      assert a + b == a;
      assert PushedValues(columns, d, a).frames + [] == PushedValues(columns, d, a).frames;
    } else {
      assert Front(a + b) == a + Front(b);
      ValuesJoin(columns, d, a, Front(b));
      var first := PushedValues(columns, d, a);
      var rest := PushedValues(columns, first.after, Front(b));
      assert forall x: seq<byte> :: first.frames + rest.frames + [x] == first.frames + (rest.frames + [x]);
    }
  }

  /** However a stream is cut into slices, it ends in the same state with the
    * same error as value by value, and every frame is handed out in order but
    * those completed in the failing slice.  So nothing is lost exactly when the
    * failing slice, if there is one, has completed no frame before its error. */
  lemma {:induction false} ChunkingLosesOnly(columns: Columns, d: Deframer, chunks: seq<seq<int8>>)
    ensures var c, v := PushedChunks(columns, d, chunks), PushedValues(columns, d, Flat(chunks));
            && c.after == v.after && c.error == v.error && c.frames + Lost(columns, d, chunks) == v.frames
            && (c.error.None? ==> Lost(columns, d, chunks) == [])
            && (c == v <==> Lost(columns, d, chunks) == [])
  {
    hide Fed;
    if chunks != [] {
      var front, last := Front(chunks), Last(chunks);
      ChunkingLosesOnly(columns, d, front);
      ValuesJoin(columns, d, Flat(front), last);
      var before := PushedChunks(columns, d, front);
      if before.error.None? {
        SliceOfValues(columns, before.after, last);
        hide PushedValues, PushedSlice;
        assert before.frames + [] == before.frames;
      }
      hide PushedValues, PushedSlice;
    }
    var c := PushedChunks(columns, d, chunks);
    assert c.frames + [] == c.frames;
  }

  /** At least so many values are needed before one can fail, unless a payload is
    * being read: from idle a sync word and a length field. */
  function Distant(d: Deframer): nat
    requires Bounded(d)
  {
    if d.expected.Some? then 0
    else if d.header == [] then LENGTH_BITS_REPEATED + if d.seen < SYNC_BITS then SYNC_BITS - d.seen else 1
    else if d.header[0] == SENTINEL then LENGTH_BITS_REPEATED
    else LENGTH_BITS_REPEATED - |d.header|
  }

  lemma ErrorsAreDistant(columns: Columns, d: Deframer, llr: int8)
    requires Bounded(d)
    ensures var step := Fed(columns, d, llr);
            && Bounded(step.after)
            && (step.result.Err? ==> Distant(d) <= 1)
            && (step.result.Ok? ==> Distant(step.after) >= Distant(d) - 1)
            && (step.result.Ok? && step.result.value.Some? ==> step.after == IDLE)
  {
    hide DecodedCoded, RepeatedLength;
  }

  /** A frame and a later error take more than a whole sync word and length. */
  lemma {:induction false} FrameThenError(columns: Columns, d: Deframer, llrs: seq<int8>)
    requires Bounded(d)
    ensures var v := PushedValues(columns, d, llrs);
            && Bounded(v.after)
            && (v.frames != [] ==>
                  |llrs| + (if v.error.None? then Distant(v.after) else 0) > SYNC_BITS + LENGTH_BITS_REPEATED)
  {
    hide Fed, Bounded, Distant;
    if llrs != [] {
      FrameThenError(columns, d, Front(llrs));
      var before := PushedValues(columns, d, Front(llrs));
      if before.error.None? {
        ErrorsAreDistant(columns, before.after, Last(llrs));
        IdleIsDistant();
      }
    } else {
    }
  }

  lemma IdleIsDistant()
    ensures Bounded(IDLE) && Distant(IDLE) == SYNC_BITS + LENGTH_BITS_REPEATED
  {}

  /** No slice is longer than `limit`. */
  ghost predicate Short(chunks: seq<seq<int8>>, limit: nat) {
    forall i :: 0 <= i < |chunks| ==> |chunks[i]| <= limit
  }

  lemma {:induction false} ShortLosesNothing(columns: Columns, d: Deframer, chunks: seq<seq<int8>>)
    requires Bounded(d) && Short(chunks, SYNC_BITS + LENGTH_BITS_REPEATED)
    ensures Lost(columns, d, chunks) == [] && Bounded(PushedChunks(columns, d, chunks).after)
  {
    hide Bounded, PushedValues, PushedSlice;
    if chunks != [] {
      var front, last := Front(chunks), Last(chunks);
      ShortLosesNothing(columns, d, front);
      var before := PushedChunks(columns, d, front);
      FrameThenError(columns, before.after, last);
      SliceOfValues(columns, before.after, last);
    }
  }

  /** A stream on which no slice fails gives the same frames in any other slices. */
  lemma ChunkingIsIrrelevant(columns: Columns, d: Deframer, chunks: seq<seq<int8>>, others: seq<seq<int8>>)
    requires Flat(chunks) == Flat(others) && PushedChunks(columns, d, chunks).error.None?
    ensures PushedChunks(columns, d, others) == PushedChunks(columns, d, chunks)
  {
    hide PushedChunks, PushedValues, Lost;
    ChunkingLosesOnly(columns, d, chunks);
    ChunkingLosesOnly(columns, d, others);
  }

  // ----- searching -----------------------------------------------------------------------

  /** The newest 32 bits. */
  function Newest(bits: seq<bool>): seq<bool> {
    if |bits| <= SYNC_BITS then bits else bits[|bits| - SYNC_BITS..]
  }

  /** The sync word is nowhere in these bits. */
  ghost predicate NoSync(bits: seq<bool>) {
    forall k :: !SyncAt(bits, k)
  }

  /** The 32 bits before position `k` are the sync word. */
  predicate SyncAt(bits: seq<bool>, k: int) {
    SYNC_BITS <= k <= |bits| && bits[k - SYNC_BITS..k] == SyncWord()
  }

  lemma {:induction false} OldestBit(x: bool, bits: seq<bool>)
    ensures ByteOf([x] + bits) == Int(x) * Pow2(|bits|) + ByteOf(bits)
  {
    if bits == [] {
      assert Front([x] + bits) == [];
    } else {
      assert Front([x] + bits) == [x] + Front(bits);
      OldestBit(x, Front(bits));
      assert Int(x) * Pow2(|bits|) == 2 * (Int(x) * Pow2(|bits| - 1));
    }
  }

  lemma ShiftedValue(bits: seq<bool>, bit: bool)
    ensures ByteOf(Newest(bits)) < 0x1_0000_0000
    ensures ShiftIn(ByteOf(Newest(bits)), bit) == ByteOf(Newest(bits + [bit]))
  {
    hide ByteOf, ShiftIn;
    NewestShorter(bits);
    NewestShorter(bits + [bit]);
    if |bits| < SYNC_BITS {
      assert Newest(bits + [bit]) == bits + [bit];
      ShiftWithRoom(bits, bit);
    } else {
      var w := Newest(bits);
      assert Newest(bits + [bit]) == w[1..] + [bit];
      ShiftFull(w, bit);
    }
  }

  lemma ShiftWithRoom(bits: seq<bool>, bit: bool)
    requires ByteOf(bits) < 0x1_0000_0000 && ByteOf(bits + [bit]) < 0x1_0000_0000
    ensures ShiftIn(ByteOf(bits), bit) == ByteOf(bits + [bit])
  {
    AppendedValue(bits, bit);
    hide ByteOf;
  }

  lemma Pow2Of31()
    ensures Pow2(31) == 0x8000_0000
  {
    Pow2Values();
    assert Pow2(31 + 1) == 2 * Pow2(31);
  }

  lemma ShiftFull(w: seq<bool>, bit: bool)
    requires |w| == SYNC_BITS && ByteOf(w) < 0x1_0000_0000 && ByteOf(w[1..] + [bit]) < 0x1_0000_0000
    ensures ShiftIn(ByteOf(w), bit) == ByteOf(w[1..] + [bit])
  {
    hide ByteOf, Pow2;
    Pow2Of31();
    assert w == [w[0]] + w[1..];
    AppendedValue(w[1..], bit);
    OldestBit(w[0], w[1..]);
  }

  lemma NewestShorter(bits: seq<bool>)
    ensures |Newest(bits)| <= 32 && ByteOf(Newest(bits)) < 0x1_0000_0000
  {
    hide ByteOf;
    Pow2Values();
    Pow2Grows(|Newest(bits)|, 32);
  }

  lemma {:induction false} Pow2Grows(a: nat, b: nat)
    requires a <= b
    ensures Pow2(a) <= Pow2(b)
    decreases b
  {
    if a < b { Pow2Grows(a, b - 1); }
  }

  lemma AppendedValue(bits: seq<bool>, bit: bool)
    ensures ByteOf(bits + [bit]) == 2 * ByteOf(bits) + Int(bit)
  {
    assert Front(bits + [bit]) == bits;
  }

  lemma SyncValue(bits: seq<bool>)
    requires |bits| == SYNC_BITS
    ensures ByteOf(bits) == PHY_SYNC <==> bits == SyncWord()
  {
    hide Bit, ByteOf;
    Pow2Values();
    NumberOfBits(PHY_SYNC, bits);
  }

  function Capped(n: nat): nat { if n < 0xffff_ffff_ffff_ffff then n else 0xffff_ffff_ffff_ffff }

  function SearchState(bits: seq<bool>): Deframer {
    NewestShorter(bits);
    Deframer(ByteOf(Newest(bits)), Capped(|bits|), [], [], None)
  }

  lemma NewestFull(bits: seq<bool>)
    requires |bits| >= SYNC_BITS
    ensures |Newest(bits)| == SYNC_BITS
  {}

  /** One more bit while searching: the sync word is found exactly when the
    * newest 32 bits are the sync word. */
  lemma SearchStep(columns: Columns, bits: seq<bool>, llr: int8)
    ensures var found := |bits| + 1 >= SYNC_BITS && Newest(bits + [llr > 0]) == SyncWord();
            var next := SearchState(bits + [llr > 0]);
            Fed(columns, SearchState(bits), llr)
            == Step(if found then next.(header := [SENTINEL]) else next, Ok(None))
  {
    hide ByteOf, SyncWord, Newest, ShiftIn;
    ShiftedValue(bits, llr > 0);
    NewestShorter(bits);
    NewestShorter(bits + [llr > 0]);
    if |bits| + 1 >= SYNC_BITS {
      NewestFull(bits + [llr > 0]);
      SyncValue(Newest(bits + [llr > 0]));
    }
  }

  lemma NoSyncBefore(bits: seq<bool>, n: nat)
    requires n <= |bits| && NoSync(bits)
    ensures NoSync(bits[..n])
  {
    forall k ensures !SyncAt(bits[..n], k) {
      assert !SyncAt(bits, k);
      if SYNC_BITS <= k <= n { assert bits[..n][k - SYNC_BITS..k] == bits[k - SYNC_BITS..k]; }
    }
  }

  lemma {:induction false} SearchesOn(columns: Columns, llrs: seq<int8>)
    requires NoSync(Signs(llrs))
    ensures PushedSlice(columns, IDLE, llrs) == Slice(SearchState(Signs(llrs)), Ok([]))
  {
    assert SearchState([]) == IDLE;
    hide SyncWord, Fed, SearchState, NoSync, Newest;
    if llrs == [] {
      assert Signs(llrs) == [];
    } else {
      hide PushedSlice;
      var front, bits := Front(llrs), Signs(llrs);
      NoSyncBefore(bits, |front|);
      assert Signs(front) == bits[..|front|];
      SearchesOn(columns, front);
      SearchOneMore(columns, front, llrs);
    }
  }

  lemma SearchOneMore(columns: Columns, front: seq<int8>, llrs: seq<int8>)
    requires llrs != [] && front == Front(llrs) && NoSync(Signs(llrs))
    requires PushedSlice(columns, IDLE, front) == Slice(SearchState(Signs(front)), Ok([]))
    ensures PushedSlice(columns, IDLE, llrs) == Slice(SearchState(Signs(llrs)), Ok([]))
  {
    hide SyncWord, Fed, SearchState, Newest;
    SearchStep(columns, Signs(front), Last(llrs));
    assert Signs(front) + [Last(llrs) > 0] == Signs(llrs);
    NewestIsWindow(Signs(llrs));
    assert !SyncAt(Signs(llrs), |llrs|);
    hide NoSync, SyncAt, Signs;
  }

  lemma NewestIsWindow(bits: seq<bool>)
    ensures |bits| >= SYNC_BITS ==> Newest(bits) == bits[|bits| - SYNC_BITS..|bits|]
  {}

  /** Noise, then the first sync word in the stream. */
  ghost predicate FirstSync(noise: seq<int8>, sync: seq<int8>) {
    |sync| == SYNC_BITS && Signs(sync) == SyncWord() && NoSync(Signs(Front(noise + sync)))
  }

  lemma SyncFound(columns: Columns, noise: seq<int8>, sync: seq<int8>)
    requires FirstSync(noise, sync)
    ensures PushedSlice(columns, IDLE, noise + sync)
         == Slice(Deframer(PHY_SYNC, Capped(|noise| + SYNC_BITS), [SENTINEL], [], None), Ok([]))
  {
    hide SyncWord, Fed, NoSync, SearchState, Newest;
    var llrs := noise + sync;
    var bits := Signs(llrs);
    SearchesOn(columns, Front(llrs));
    SearchStep(columns, Signs(Front(llrs)), Last(llrs));
    assert Signs(Front(llrs)) + [Last(llrs) > 0] == bits;
    NewestIsWindow(bits);
    assert bits[|bits| - SYNC_BITS..|bits|] == Signs(sync);
    SyncState(bits);
  }

  lemma SyncState(bits: seq<bool>)
    requires |bits| >= SYNC_BITS && Newest(bits) == SyncWord()
    ensures SearchState(bits) == Deframer(PHY_SYNC, Capped(|bits|), [], [], None)
  {
    SyncValue(Newest(bits));
    hide ByteOf, SyncWord;
  }

  // ----- the length and the payload -----------------------------------------------------

  /** A header collected so far, from an empty one. */
  lemma {:induction false} HeaderCollects(columns: Columns, seen: nat, llrs: seq<int8>)
    requires 0 < |llrs| < LENGTH_BITS_REPEATED && llrs[0] != SENTINEL
    ensures PushedSlice(columns, Deframer(PHY_SYNC, seen, [SENTINEL], [], None), llrs)
         == Slice(Deframer(PHY_SYNC, seen, llrs, [], None), Ok([]))
  {
    hide RepeatedLength, DecodedCoded;
    var start := Deframer(PHY_SYNC, seen, [SENTINEL], [], None);
    var front := Front(llrs);
    if front == [] {
      assert PushedSlice(columns, start, []) == Slice(start, Ok([]));
      assert llrs == [Last(llrs)];
    } else {
      HeaderCollects(columns, seen, front);
      assert front + [Last(llrs)] == llrs;
    }
  }

  lemma HeaderRead(columns: Columns, seen: nat, llrs: seq<int8>)
    requires |llrs| == LENGTH_BITS_REPEATED && llrs[0] != SENTINEL && LengthOk(RepeatedLength(llrs))
    ensures PushedSlice(columns, Deframer(PHY_SYNC, seen, [SENTINEL], [], None), llrs)
         == Slice(Deframer(PHY_SYNC, seen, [], [], Some(RepeatedLength(llrs))), Ok([]))
  {
    hide RepeatedLength, DecodedCoded;
    HeaderCollects(columns, seen, Front(llrs));
    assert Front(llrs) + [Last(llrs)] == llrs;
  }

  lemma {:induction false} PayloadCollects(columns: Columns, seen: nat, n: nat, llrs: seq<int8>)
    requires |llrs| < n
    ensures PushedSlice(columns, Deframer(PHY_SYNC, seen, [], [], Some(n)), llrs)
         == Slice(Deframer(PHY_SYNC, seen, [], llrs, Some(n)), Ok([]))
  {
    hide RepeatedLength, DecodedCoded;
    if llrs != [] {
      PayloadCollects(columns, seen, n, Front(llrs));
      assert Front(llrs) + [Last(llrs)] == llrs;
    }
  }

  function FrameResult(frame: Result<seq<byte>>): Result<seq<seq<byte>>> {
    if frame.Ok? then Ok([frame.value]) else Err(frame.error)
  }

  lemma PayloadRead(columns: Columns, seen: nat, llrs: seq<int8>)
    requires llrs != []
    ensures PushedSlice(columns, Deframer(PHY_SYNC, seen, [], [], Some(|llrs|)), llrs)
         == Slice(IDLE, FrameResult(DecodedCoded(llrs, columns)))
  {
    hide RepeatedLength, DecodedCoded;
    PayloadCollects(columns, seen, |llrs|, Front(llrs));
    assert Front(llrs) + [Last(llrs)] == llrs;
    var frame := DecodedCoded(llrs, columns);
    if frame.Ok? { assert [] + [frame.value] == [frame.value]; }
  }

  // ----- one burst ------------------------------------------------------------------------

  /** A burst after some noise: the first sync word of the stream is its own, its
    * length field gives its length, and the first value of that field is not
    * the sentinel. */
  ghost predicate Streams(noise: seq<int8>, llrs: seq<int8>) {
    && |llrs| >= PHY_PREFIX_BITS && FirstSync(noise, llrs[..SYNC_BITS])
    && llrs[SYNC_BITS] != SENTINEL
    && var n := RepeatedLength(llrs[SYNC_BITS..PHY_PREFIX_BITS]);
       LengthOk(n) && |llrs| == PHY_PREFIX_BITS + n
  }

  /** The stream receiver gives such a burst the answer `decode_aligned` gives,
    * and is searching again. */
  lemma AgreesWithAligned(columns: Columns, noise: seq<int8>, llrs: seq<int8>)
    requires Streams(noise, llrs)
    ensures PushedSlice(columns, IDLE, noise + llrs) == Slice(IDLE, FrameResult(DecodedAligned(llrs, columns)))
  {
    hide PushedSlice, SyncWord, NoSync, RepeatedLength, DecodedCoded, Distance;
    var sync, field, payload := llrs[..SYNC_BITS], llrs[SYNC_BITS..PHY_PREFIX_BITS], llrs[PHY_PREFIX_BITS..];
    var seen := Capped(|noise| + SYNC_BITS);
    SyncFound(columns, noise, sync);
    HeaderRead(columns, seen, field);
    PayloadRead(columns, seen, payload);
    SlicesJoin(columns, IDLE, noise + sync, field);
    JoinedToNothing(columns, PushedSlice(columns, IDLE, noise + sync), field);
    SlicesJoin(columns, IDLE, noise + sync + field, payload);
    JoinedToNothing(columns, PushedSlice(columns, IDLE, noise + sync + field), payload);
    assert noise + sync + field + payload == noise + llrs;
    DistanceSelf(SyncWord());
    hide Joined;
  }

  /** Nothing comes out before the last value. */
  lemma NothingBeforeLast(columns: Columns, noise: seq<int8>, llrs: seq<int8>)
    requires Streams(noise, llrs)
    ensures PushedSlice(columns, IDLE, noise + Front(llrs)).result == Ok([])
  {
    hide PushedSlice, SyncWord, NoSync, RepeatedLength;
    var sync, field, payload := llrs[..SYNC_BITS], llrs[SYNC_BITS..PHY_PREFIX_BITS], llrs[PHY_PREFIX_BITS..];
    var seen := Capped(|noise| + SYNC_BITS);
    SyncFound(columns, noise, sync);
    HeaderRead(columns, seen, field);
    PayloadCollects(columns, seen, |payload|, Front(payload));
    SlicesJoin(columns, IDLE, noise + sync, field);
    JoinedToNothing(columns, PushedSlice(columns, IDLE, noise + sync), field);
    SlicesJoin(columns, IDLE, noise + sync + field, Front(payload));
    JoinedToNothing(columns, PushedSlice(columns, IDLE, noise + sync + field), Front(payload));
    assert noise + sync + field + Front(payload) == noise + Front(llrs);
    hide Joined;
  }

  // ----- any number of bursts -----------------------------------------------------------------

  /** One transmission: noise, then a burst that carries `frame`. */
  datatype Segment = Segment(noise: seq<int8>, burst: seq<int8>, frame: seq<byte>)

  ghost predicate SegmentOk(columns: Columns, s: Segment) {
    Streams(s.noise, s.burst) && DecodedAligned(s.burst, columns) == Ok(s.frame)
  }

  function StreamOf(segments: seq<Segment>): seq<int8> {
    if segments == [] then [] else StreamOf(Front(segments)) + (Last(segments).noise + Last(segments).burst)
  }

  function FramesOf(segments: seq<Segment>): seq<seq<byte>> {
    if segments == [] then [] else FramesOf(Front(segments)) + [Last(segments).frame]
  }

  /** Any list of bursts, however the stream is cut, comes out as exactly its
    * frames in order, and leaves the receiver searching. */
  lemma StreamYieldsFrames(columns: Columns, segments: seq<Segment>, chunks: seq<seq<int8>>)
    requires forall i :: 0 <= i < |segments| ==> SegmentOk(columns, segments[i])
    requires Flat(chunks) == StreamOf(segments)
    ensures PushedChunks(columns, IDLE, chunks) == Feed(IDLE, FramesOf(segments), None)
    ensures StateOf(PushedChunks(columns, IDLE, chunks).after) == Searching
  {
    hide SegmentOk, PushedChunks, PushedSlice, PushedValues, Lost;
    SegmentsYield(columns, segments);
    SliceOfValues(columns, IDLE, StreamOf(segments));
    ChunkingLosesOnly(columns, IDLE, chunks);
  }

  lemma {:induction false} SegmentsYield(columns: Columns, segments: seq<Segment>)
    requires forall i :: 0 <= i < |segments| ==> SegmentOk(columns, segments[i])
    ensures PushedSlice(columns, IDLE, StreamOf(segments)) == Slice(IDLE, Ok(FramesOf(segments)))
  {
    hide Streams, DecodedAligned, Then;
    if segments != [] {
      var last := Last(segments);
      assert SegmentOk(columns, last);
      SegmentsYield(columns, Front(segments));
      AgreesWithAligned(columns, last.noise, last.burst);
      SlicesJoin(columns, IDLE, StreamOf(Front(segments)), last.noise + last.burst);
      hide PushedSlice;
    }
  }

  /** A received burst with an exact sync word and no sentinel in front of its
    * length streams, with nothing before it. */
  lemma ReceivedStreams(columns: Columns, llrs: seq<int8>, frame: seq<byte>, lo: nat, hi: nat, e: nat)
    requires Received(llrs, frame, columns, lo, hi, e)
    requires Signs(llrs[..SYNC_BITS]) == SyncWord() && llrs[SYNC_BITS] != SENTINEL
    ensures SegmentOk(columns, Segment([], llrs, frame))
  {
    hide Distance, SyncWord, TripletsOk, Magnitudes, Correctable, DecodedAligned, RepeatedLength, Coded;
    AlignedRoundTrip(llrs, frame, columns, lo, hi, e);
    LengthSurvives(llrs[SYNC_BITS..PHY_PREFIX_BITS], |Coded(frame, columns)|);
    assert [] + llrs[..SYNC_BITS] == llrs[..SYNC_BITS];
    assert FirstSync([], llrs[..SYNC_BITS]);
  }

  // ----- a frame lost with its slice ---------------------------------------------------------------

  /** Soft values of magnitude one. */
  function Unit(bits: seq<bool>): (llrs: seq<int8>)
    ensures Signs(llrs) == bits && forall i :: 0 <= i < |llrs| ==> Abs(llrs[i]) == 1
  {
    var llrs: seq<int8> := seq(|bits|, i requires 0 <= i < |bits| => if bits[i] then 1 else -1);
    assert Signs(llrs) == bits;
    llrs
  }

  /** A sync word with an illegal length behind it. */
  function BadBurst(): seq<int8> { Unit(SyncWord()) + Unit(LengthField(0)) }

  lemma BadBurstFails(columns: Columns)
    ensures PushedSlice(columns, IDLE, BadBurst()) == Slice(IDLE, Err(InvalidLength))
    ensures PushedValues(columns, IDLE, BadBurst()).frames == []
  {
    hide SyncWord, RepeatedLength, Fed, PushedSlice, PushedValues, LengthField, NoSync;
    var sync, field := Unit(SyncWord()), Unit(LengthField(0));
    assert [] + sync == sync;
    NoSyncInside();
    SyncFound(columns, [], sync);
    FieldReads(field, 0);
    assert Abs(field[0]) == 1 && field[..LENGTH_BITS_REPEATED] == field;
    HeaderRefused(columns, Capped(SYNC_BITS), field);
    SlicesJoin(columns, IDLE, sync, field);
    HeaderCollects(columns, Capped(SYNC_BITS), Front(field));
    SlicesJoin(columns, IDLE, sync, Front(field));
    JoinedToNothing(columns, PushedSlice(columns, IDLE, sync), Front(field));
    assert Front(BadBurst()) == sync + Front(field);
    ErrorAtLast(columns, IDLE, BadBurst());
  }

  lemma ErrorAtLast(columns: Columns, d: Deframer, llrs: seq<int8>)
    requires llrs != [] && PushedSlice(columns, d, Front(llrs)).result == Ok([])
             && PushedSlice(columns, d, llrs).result.Err?
    ensures PushedValues(columns, d, llrs).frames == []
  {
    SliceOfValues(columns, d, Front(llrs));
    SliceOfValues(columns, d, llrs);
    hide Fed, PushedSlice;
  }

  /** In front of its last bit the sync word is not complete. */
  lemma NoSyncInside()
    ensures FirstSync([], Unit(SyncWord()))
  {
    hide SyncWord;
    assert [] + Unit(SyncWord()) == Unit(SyncWord());
  }

  lemma FieldReads(field: seq<int8>, n: nat)
    requires |field| == LENGTH_BITS_REPEATED && Signs(field) == LengthField(n) && n < 0x1_0000
    ensures RepeatedLength(field) == n
  {
    hide Bit, RepeatedLength, Signs, LengthField, TripletOk;
    forall i | 0 <= i < 16 ensures TripletOk(field[3 * i], field[3 * i + 1], field[3 * i + 2], Bit(n, 15 - i)) {
      FieldSign(field, n, i, 0);
      FieldSign(field, n, i, 1);
      FieldSign(field, n, i, 2);
      NoErrors(field[3 * i], field[3 * i + 1], field[3 * i + 2], Bit(n, 15 - i));
    }
    LengthSurvives(field, n);
  }

  lemma NoErrors(a: int8, b: int8, c: int8, bit: bool)
    requires (a > 0) == (b > 0) == (c > 0) == bit
    ensures TripletOk(a, b, c, bit)
  {}

  lemma OneChunk(columns: Columns, d: Deframer, llrs: seq<int8>)
    ensures var s := PushedSlice(columns, d, llrs);
            PushedChunks(columns, d, [llrs])
            == if s.result.Err? then Feed(s.after, [], Some(s.result.error)) else Feed(s.after, s.result.value, None)
  {
    hide PushedSlice;
    NextChunk(columns, d, [], llrs);
    assert [] + [llrs] == [llrs];
    var s := PushedSlice(columns, d, llrs);
    if s.result.Ok? { assert [] + s.result.value == s.result.value; }
  }

  lemma LostInOne(columns: Columns, d: Deframer, llrs: seq<int8>)
    ensures var v := PushedValues(columns, d, llrs);
            Lost(columns, d, [llrs]) == if v.error.Some? then v.frames else []
  {
    hide PushedValues;
    assert PushedChunks(columns, d, Front([llrs])) == Feed(d, [], None);
  }

  lemma NextChunk(columns: Columns, d: Deframer, chunks: seq<seq<int8>>, llrs: seq<int8>)
    ensures var before := PushedChunks(columns, d, chunks);
            var s := PushedSlice(columns, before.after, llrs);
            PushedChunks(columns, d, chunks + [llrs])
            == if before.error.Some? then before
               else if s.result.Err? then Feed(s.after, before.frames, Some(s.result.error))
               else Feed(s.after, before.frames + s.result.value, None)
  {
    hide PushedSlice;
    assert Front(chunks + [llrs]) == chunks;
  }

  /** Every frame the encoder takes is lost when its burst and a bad one come in
    * one slice, and handed out when they come in two. */
  lemma FrameLostWithSlice(columns: Columns, frame: seq<byte>)
    requires |frame| <= FRAME_MAX_BYTES
    ensures var good, bad := Unit(Burst(frame, columns)), BadBurst();
            && PushedChunks(columns, IDLE, [good + bad]) == Feed(IDLE, [], Some(InvalidLength))
            && Lost(columns, IDLE, [good + bad]) == [frame]
            && PushedChunks(columns, IDLE, [good, bad]) == Feed(IDLE, [frame], Some(InvalidLength))
  {
    hide Burst, SyncWord, PushedSlice, Coded, PushedValues, BadBurst, Fed;
    var good, bad := Unit(Burst(frame, columns)), BadBurst();
    UnitSegment(columns, frame);
    BadBurstFails(columns);
    SlicesJoin(columns, IDLE, good, bad);
    SliceOfValues(columns, IDLE, good);
    SliceOfValues(columns, IDLE, bad);
    SliceOfValues(columns, IDLE, good + bad);
    ValuesJoin(columns, IDLE, good, bad);
    OneChunk(columns, IDLE, good + bad);
    LostInOne(columns, IDLE, good + bad);
    OneChunk(columns, IDLE, good);
    NextChunk(columns, IDLE, [good], bad);
    assert [good] + [bad] == [good, bad];
  }

  /** The stream value by value, but for the last value of the burst, which comes
    * in one slice of 81 with a bad burst. */
  function LateSlice(columns: Columns, frame: seq<byte>): seq<seq<int8>> {
    var good := Unit(Burst(frame, columns));
    Singles(Front(good)) + [[Last(good)] + BadBurst()]
  }

  function Singles(llrs: seq<int8>): (chunks: seq<seq<int8>>)
    ensures |chunks| == |llrs| && forall i :: 0 <= i < |llrs| ==> chunks[i] == [llrs[i]]
  {
    seq(|llrs|, i requires 0 <= i < |llrs| => [llrs[i]])
  }

  lemma {:induction false} FlatSingles(llrs: seq<int8>)
    ensures Flat(Singles(llrs)) == llrs
  {
    if llrs != [] {
      FlatSingles(Front(llrs));
      assert Front(Singles(llrs)) == Singles(Front(llrs));
    }
  }

  lemma LateSliceLoses(columns: Columns, frame: seq<byte>)
    requires |frame| <= FRAME_MAX_BYTES
    ensures Short(LateSlice(columns, frame), SYNC_BITS + LENGTH_BITS_REPEATED + 1)
    ensures Lost(columns, IDLE, LateSlice(columns, frame)) == [frame]
  {
    hide Burst, SyncWord, PushedSlice, Coded, PushedValues, BadBurst, Fed;
    var good, bad := Unit(Burst(frame, columns)), BadBurst();
    var singles, last := Singles(Front(good)), [Last(good)] + bad;
    UnitSegment(columns, frame);
    BadBurstFails(columns);
    SliceOfValues(columns, IDLE, good);
    SliceOfValues(columns, IDLE, Front(good));
    SliceOfValues(columns, IDLE, bad);
    FlatSingles(Front(good));
    ChunkingLosesOnly(columns, IDLE, singles);
    ValuesJoin(columns, IDLE, good, bad);
    ValuesJoin(columns, IDLE, Front(good), last);
    assert Front(good) + last == good + bad;
    var st := PushedValues(columns, IDLE, Front(good)).after;
    assert [] + PushedValues(columns, st, last).frames == PushedValues(columns, st, last).frames;
    LostInLast(columns, IDLE, singles, last);
    BadBurstSize();
  }

  lemma BadBurstSize()
    ensures |BadBurst()| == SYNC_BITS + LENGTH_BITS_REPEATED
  {
    hide SyncWord, LengthField;
  }

  lemma LostInLast(columns: Columns, d: Deframer, chunks: seq<seq<int8>>, llrs: seq<int8>)
    requires PushedChunks(columns, d, chunks).error.None?
    ensures var v := PushedValues(columns, PushedChunks(columns, d, chunks).after, llrs);
            Lost(columns, d, chunks + [llrs]) == if v.error.Some? then v.frames else []
  {
    hide PushedValues, PushedChunks;
    assert Front(chunks + [llrs]) == chunks;
  }

  /** How long slices may be: no stream loses a frame, whatever it holds and
    * wherever the receiver starts, exactly if no slice is longer than a sync word
    * and a length field, 80 values. */
  lemma NoFrameLostIff(columns: Columns, limit: nat)
    ensures (forall d: Deframer, chunks: seq<seq<int8>> ::
               Bounded(d) && Short(chunks, limit) ==> Lost(columns, d, chunks) == [])
       <==> limit <= SYNC_BITS + LENGTH_BITS_REPEATED
  {
    hide Lost, Bounded, LateSlice;
    if limit <= SYNC_BITS + LENGTH_BITS_REPEATED {
      forall d: Deframer, chunks: seq<seq<int8>> | Bounded(d) && Short(chunks, limit)
        ensures Lost(columns, d, chunks) == []
      {
        ShortLosesNothing(columns, d, chunks);
      }
    } else {
      LateSliceLoses(columns, []);
      IdleIsDistant();
      assert Short(LateSlice(columns, []), limit);
    }
  }

  /** So on slices up to that length the cut makes no difference at all, errors
    * included. */
  lemma ShortSlicesAgree(columns: Columns, d: Deframer, chunks: seq<seq<int8>>, others: seq<seq<int8>>)
    requires Bounded(d) && Flat(chunks) == Flat(others)
    requires Short(chunks, SYNC_BITS + LENGTH_BITS_REPEATED) && Short(others, SYNC_BITS + LENGTH_BITS_REPEATED)
    ensures PushedChunks(columns, d, chunks) == PushedChunks(columns, d, others)
    ensures PushedChunks(columns, d, chunks) == PushedValues(columns, d, Flat(chunks))
  {
    hide PushedChunks, PushedValues, Lost, Bounded, Short;
    ShortLosesNothing(columns, d, chunks);
    ShortLosesNothing(columns, d, others);
    ChunkingLosesOnly(columns, d, chunks);
    ChunkingLosesOnly(columns, d, others);
  }

  lemma UnitSegment(columns: Columns, frame: seq<byte>)
    requires |frame| <= FRAME_MAX_BYTES
    ensures PushedSlice(columns, IDLE, Unit(Burst(frame, columns))) == Slice(IDLE, Ok([frame]))
    ensures PushedSlice(columns, IDLE, Front(Unit(Burst(frame, columns)))).result == Ok([])
  {
    hide SyncWord, PushedSlice, Coded, DecodedAligned, RepeatedLength, LengthField, Received;
    var llrs := Unit(Burst(frame, columns));
    CleanBurstReceived(llrs, frame, columns);
    SignsOfSlice(llrs, 0, SYNC_BITS);
    assert llrs[0..SYNC_BITS] == llrs[..SYNC_BITS];
    ReceivedStreams(columns, llrs, frame, 1, 128, 0);
    AgreesWithAligned(columns, [], llrs);
    NothingBeforeLast(columns, [], llrs);
    assert [] + llrs == llrs && [] + Front(llrs) == Front(llrs);
  }

  // ----- the sentinel ----------------------------------------------------------------------------

  /** How many values at the front are the sentinel. */
  function Sentinels(llrs: seq<int8>): (k: nat)
    ensures k <= |llrs| && AllSentinels(llrs[..k]) && (k < |llrs| ==> llrs[k] != SENTINEL)
  {
    if llrs == [] || llrs[0] != SENTINEL then 0 else 1 + Sentinels(llrs[1..])
  }

  predicate AllSentinels(llrs: seq<int8>) {
    forall i :: 0 <= i < |llrs| ==> llrs[i] == SENTINEL
  }

  function HeaderStart(seen: nat): Deframer { Deframer(PHY_SYNC, seen, [SENTINEL], [], None) }

  /** Each of them is thrown away with the mark, and is the next mark. */
  lemma {:induction false} SentinelsSwallowed(columns: Columns, seen: nat, llrs: seq<int8>)
    requires AllSentinels(llrs)
    ensures PushedSlice(columns, HeaderStart(seen), llrs) == Slice(HeaderStart(seen), Ok([]))
  {
    if llrs != [] { SentinelsSwallowed(columns, seen, Front(llrs)); }
  }

  lemma {:induction false} LeadingZeros(bits: seq<bool>, z: nat)
    requires z <= |bits| && NoOnes(bits[..z])
    ensures ByteOf(bits[z..]) == ByteOf(bits)
    decreases z
  {
    if z == 0 {
      assert bits[0..] == bits;
    } else {
      var tail := bits[1..];
      assert bits == [bits[0]] + tail && tail[z - 1..] == bits[z..] && !bits[..z][0];
      OldestBit(bits[0], tail);
      assert tail[..z - 1] == bits[..z][1..];
      LeadingZeros(tail, z - 1);
    }
  }

  predicate NoOnes(bits: seq<bool>) { forall i :: 0 <= i < |bits| ==> !bits[i] }

  /** Cutting off low bits is a shift to the right. */
  lemma {:induction false} PrefixIsShift(bits: seq<bool>, m: nat)
    requires m <= |bits|
    ensures ByteOf(bits) / Pow2(|bits| - m) == ByteOf(bits[..m])
    decreases |bits|
  {
    if m < |bits| {
      PrefixIsShift(Front(bits), m);
      assert Front(bits)[..m] == bits[..m];
      HalfQuotient(ByteOf(Front(bits)), Int(Last(bits)), Pow2(|bits| - m - 1));
    } else {
      assert bits[..m] == bits;
    }
  }

  lemma HalfQuotient(a: nat, bit: nat, p: nat)
    requires bit <= 1 && p > 0
    ensures (2 * a + bit) / (2 * p) == a / p
  {
    var q, r := a / p, a % p;
    assert a == p * q + r;
    assert (2 * p) * q == 2 * (p * q);
    DivModUnique(2 * a + bit, 2 * p, q, 2 * r + bit);
  }

  lemma QuotientIsLess(v: nat, p: nat)
    requires p > 0
    ensures v / p <= v
  {
    QuotientTimes(v / p, p, v % p);
  }

  lemma QuotientTimes(q: nat, p: nat, r: nat)
    requires p > 0
    ensures q <= p * q + r
  {}

  lemma FieldSign(field: seq<int8>, n: nat, i: nat, j: nat)
    requires |field| == LENGTH_BITS_REPEATED && Signs(field) == LengthField(n) && i < 16 && j < 3
    ensures (field[3 * i + j] > 0) == Bit(n, 15 - i)
  {
    hide Bit;
    assert Signs(field)[3 * i + j] == LengthField(n)[3 * i + j] && (3 * i + j) / 3 == i;
  }

  /** Read `k` values late the votes are those of the field, whole bits on. */
  lemma {:induction false} LateVote(field: seq<int8>, n: nat, k: nat, moved: seq<int8>, i: nat)
    requires |field| == |moved| == LENGTH_BITS_REPEATED && Signs(field) == LengthField(n)
    requires k < LENGTH_BITS_REPEATED && moved[..LENGTH_BITS_REPEATED - k] == field[k..]
    requires i + (k + 1) / 3 < 16
    ensures Votes(moved)[i] == Bit(n, 15 - (i + (k + 1) / 3))
  {
    hide Bit, Signs, LengthField;
    var b := i + (k + 1) / 3;
    var r := k % 3;
    forall j | 0 <= j < LENGTH_BITS_REPEATED - k ensures moved[j] == field[k + j] {
      assert moved[..LENGTH_BITS_REPEATED - k][j] == field[k..][j];
    }
    FieldSign(field, n, b, 0);
    FieldSign(field, n, b, 1);
    FieldSign(field, n, b, 2);
    if r == 0 {
      assert 3 * i + k == 3 * b;
    } else if r == 1 {
      assert 3 * i + k == 3 * b + 1;
    } else {
      assert 3 * i + k + 1 == 3 * b;
    }
  }

  lemma SixteenBits(n: nat) returns (bits: seq<bool>)
    requires n < 0x1_0000
    ensures |bits| == 16 && ByteOf(bits) == n && forall i :: 0 <= i < 16 ==> bits[i] == Bit(n, 15 - i)
  {
    hide Bit, ByteOf, Pow2;
    Pow2Values();
    bits := BitsOfNumber(n, 16);
    NumberOfBits(n, bits);
  }

  lemma DroppedBits(field: seq<int8>, n: nat, k: nat, bits: seq<bool>)
    requires |field| == LENGTH_BITS_REPEATED && Signs(field) == LengthField(n) && k <= LENGTH_BITS_REPEATED
    requires AllSentinels(field[..k]) && |bits| == 16 && forall i :: 0 <= i < 16 ==> bits[i] == Bit(n, 15 - i)
    ensures NoOnes(bits[..(k + 1) / 3])
  {
    hide Bit, Signs, LengthField;
    forall i | 0 <= i < (k + 1) / 3 ensures !bits[i] {
      FieldSign(field, n, i, 0);
      assert field[..k][3 * i] == SENTINEL;
    }
  }

  /** Values dropped from the front of a length field are zero bits, so what is
    * read instead is the length shifted left, with something new behind it. */
  lemma LateLengthIsShifted(field: seq<int8>, n: nat, k: nat, moved: seq<int8>)
    requires |field| == |moved| == LENGTH_BITS_REPEATED && Signs(field) == LengthField(n) && n < 0x1_0000
    requires k < LENGTH_BITS_REPEATED && AllSentinels(field[..k])
    requires moved[..LENGTH_BITS_REPEATED - k] == field[k..]
    ensures RepeatedLength(moved) / Pow2((k + 1) / 3) == n
  {
    hide Bit, ByteOf, Votes, Signs, LengthField, AllSentinels, NoOnes, Pow2;
    var z := (k + 1) / 3;
    var bits := SixteenBits(n);
    DroppedBits(field, n, k, bits);
    LeadingZeros(bits, z);
    forall i | 0 <= i < 16 - z ensures Votes(moved)[i] == bits[z + i] { LateVote(field, n, k, moved, i); }
    assert Votes(moved)[..16 - z] == bits[z..];
    PrefixIsShift(Votes(moved), 16 - z);
  }

  lemma SentinelFieldIsZero(field: seq<int8>, n: nat)
    requires |field| == LENGTH_BITS_REPEATED && Signs(field) == LengthField(n) && n < 0x1_0000 && AllSentinels(field)
    ensures n == 0
  {
    hide Bit, ByteOf, Signs, LengthField;
    var bits := SixteenBits(n);
    assert field[..LENGTH_BITS_REPEATED] == field && bits[16..] == [];
    DroppedBits(field, n, LENGTH_BITS_REPEATED, bits);
    LeadingZeros(bits, 16);
    NoValue();
  }

  lemma NoValue()
    ensures ByteOf([]) == 0
  {}

  /** A legal length has a one bit, so its field is not all sentinels. */
  lemma FieldHasOne(field: seq<int8>, n: nat)
    requires |field| == LENGTH_BITS_REPEATED && Signs(field) == LengthField(n) && 0 < n < 0x1_0000
    ensures Sentinels(field) < LENGTH_BITS_REPEATED
  {
    hide Signs, LengthField;
    if AllSentinels(field) {
      SentinelFieldIsZero(field, n);
    } else {
      assert field[..LENGTH_BITS_REPEATED] == field;
    }
  }

  /** The receiver works as if the sentinels had not been sent. */
  lemma SentinelsVanish(columns: Columns, noise: seq<int8>, llrs: seq<int8>, k: nat)
    requires SYNC_BITS + k <= |llrs| && FirstSync(noise, llrs[..SYNC_BITS])
    requires AllSentinels(llrs[SYNC_BITS..SYNC_BITS + k])
    ensures PushedSlice(columns, IDLE, noise + llrs)
         == PushedSlice(columns, HeaderStart(Capped(|noise| + SYNC_BITS)), llrs[SYNC_BITS + k..])
  {
    hide SyncWord, NoSync, FirstSync, Fed, PushedSlice;
    var sync, marks, rest := llrs[..SYNC_BITS], llrs[SYNC_BITS..SYNC_BITS + k], llrs[SYNC_BITS + k..];
    var seen := Capped(|noise| + SYNC_BITS);
    SyncFound(columns, noise, sync);
    SentinelsSwallowed(columns, seen, marks);
    SlicesJoin(columns, IDLE, noise + sync, marks);
    JoinedToNothing(columns, PushedSlice(columns, IDLE, noise + sync), marks);
    SlicesJoin(columns, IDLE, noise + sync + marks, rest);
    JoinedToNothing(columns, PushedSlice(columns, IDLE, noise + sync + marks), rest);
    assert noise + sync + marks + rest == noise + llrs;
  }

  lemma HeaderRefused(columns: Columns, seen: nat, llrs: seq<int8>)
    requires |llrs| >= LENGTH_BITS_REPEATED && llrs[0] != SENTINEL
    requires !LengthOk(RepeatedLength(llrs[..LENGTH_BITS_REPEATED]))
    ensures PushedSlice(columns, HeaderStart(seen), llrs) == Slice(IDLE, Err(InvalidLength))
  {
    hide RepeatedLength, DecodedCoded;
    var header := llrs[..LENGTH_BITS_REPEATED];
    HeaderCollects(columns, seen, Front(header));
    assert Front(header) + [Last(header)] == header;
    assert PushedSlice(columns, HeaderStart(seen), header) == Slice(IDLE, Err(InvalidLength));
    StopsAtError(columns, HeaderStart(seen), llrs, LENGTH_BITS_REPEATED);
  }

  /** What becomes of a clean burst whose length field begins with the sentinel,
    * once or several times.  Its header is read that many values late and its
    * length comes out shifted left by a third as many bits, never smaller, so at
    * its last value the receiver still waits for more, or has refused the length. */
  lemma SentinelMisreads(columns: Columns, noise: seq<int8>, llrs: seq<int8>, n: nat)
    requires LengthOk(n) && |llrs| == PHY_PREFIX_BITS + n && FirstSync(noise, llrs[..SYNC_BITS])
    requires Signs(llrs[SYNC_BITS..PHY_PREFIX_BITS]) == LengthField(n) && llrs[SYNC_BITS] == SENTINEL
    ensures var k := Sentinels(llrs[SYNC_BITS..PHY_PREFIX_BITS]);
            var rest, s := llrs[SYNC_BITS + k..], PushedSlice(columns, IDLE, noise + llrs);
            && 0 < k < LENGTH_BITS_REPEATED
            && if n < k then s.result == Ok([]) && StateOf(s.after) == ReadingHeader
               else var m := RepeatedLength(rest[..LENGTH_BITS_REPEATED]);
                    && m >= m / Pow2((k + 1) / 3) == n
                    && if LengthOk(m) then s.result == Ok([]) && StateOf(s.after) == ReadingPayload(n - k, m)
                       else s == Slice(IDLE, Err(InvalidLength))
  {
    hide SyncWord, NoSync, RepeatedLength, DecodedCoded, LengthField, Fed, PushedSlice, Signs;
    var field := llrs[SYNC_BITS..PHY_PREFIX_BITS];
    FieldHasOne(field, n);
    var k := Sentinels(field);
    assert field[..k] == llrs[SYNC_BITS..SYNC_BITS + k];
    SentinelsVanish(columns, noise, llrs, k);
    var rest := llrs[SYNC_BITS + k..];
    assert rest[0] == field[k] && rest[..LENGTH_BITS_REPEATED - k] == field[k..];
    LateHeader(columns, Capped(|noise| + SYNC_BITS), rest);
    if k <= n {
      var moved := rest[..LENGTH_BITS_REPEATED];
      assert moved[..LENGTH_BITS_REPEATED - k] == rest[..LENGTH_BITS_REPEATED - k];
      LateLengthIsShifted(field, n, k, moved);
      QuotientIsLess(RepeatedLength(moved), Pow2((k + 1) / 3));
    }
  }

  /** A header and what follows it, short of a whole payload. */
  lemma LateHeader(columns: Columns, seen: nat, rest: seq<int8>)
    requires rest != [] && rest[0] != SENTINEL
    ensures var s := PushedSlice(columns, HeaderStart(seen), rest);
            if |rest| < LENGTH_BITS_REPEATED then s == Slice(Deframer(PHY_SYNC, seen, rest, [], None), Ok([]))
            else var m, behind := RepeatedLength(rest[..LENGTH_BITS_REPEATED]), rest[LENGTH_BITS_REPEATED..];
                 && (!LengthOk(m) ==> s == Slice(IDLE, Err(InvalidLength)))
                 && (LengthOk(m) && |behind| < m ==> s == Slice(Deframer(PHY_SYNC, seen, [], behind, Some(m)), Ok([])))
  {
    hide RepeatedLength, DecodedCoded, Fed, PushedSlice;
    if |rest| < LENGTH_BITS_REPEATED {
      HeaderCollects(columns, seen, rest);
    } else {
      var header, behind := rest[..LENGTH_BITS_REPEATED], rest[LENGTH_BITS_REPEATED..];
      var m := RepeatedLength(header);
      if !LengthOk(m) {
        HeaderRefused(columns, seen, rest);
      } else if |behind| < m {
        HeaderRead(columns, seen, header);
        PayloadCollects(columns, seen, m, behind);
        SlicesJoin(columns, HeaderStart(seen), header, behind);
        JoinedToNothing(columns, PushedSlice(columns, HeaderStart(seen), header), behind);
        assert header + behind == rest;
      }
    }
  }

  /** A clean burst is delivered at its last value exactly when its length field
    * does not begin with the sentinel. */
  lemma DeliveredIffNoSentinel(columns: Columns, noise: seq<int8>, llrs: seq<int8>, frame: seq<byte>)
    requires |frame| <= FRAME_MAX_BYTES && Signs(llrs) == Burst(frame, columns)
    requires Magnitudes(llrs[PHY_PREFIX_BITS..], 1, 128) && FirstSync(noise, llrs[..SYNC_BITS])
    ensures PushedSlice(columns, IDLE, noise + llrs).result == Ok([frame]) <==> llrs[SYNC_BITS] != SENTINEL
  {
    hide SyncWord, NoSync, FirstSync, DecodedCoded, Magnitudes, PushedSlice, Coded, Distance, TripletsOk;
    hide RepeatedLength, LengthField;
    var n := |Coded(frame, columns)|;
    CleanBurstReceived(llrs, frame, columns);
    AlignedRoundTrip(llrs, frame, columns, 1, 128, 0);
    LengthSurvives(llrs[SYNC_BITS..PHY_PREFIX_BITS], n);
    if llrs[SYNC_BITS] != SENTINEL {
      AgreesWithAligned(columns, noise, llrs);
    } else {
      SignsOfSlice(llrs, SYNC_BITS, PHY_PREFIX_BITS);
      assert Burst(frame, columns)[SYNC_BITS..PHY_PREFIX_BITS] == LengthField(n);
      SentinelMisreads(columns, noise, llrs, n);
    }
  }

  /** Any clean burst with its first length value turned down to the sentinel. */
  lemma SentinelBurst(columns: Columns, frame: seq<byte>)
    requires |frame| <= FRAME_MAX_BYTES
    ensures var llrs, n := Unit(Burst(frame, columns))[SYNC_BITS := SENTINEL], |Coded(frame, columns)|;
            var s := PushedSlice(columns, IDLE, llrs);
            Signs(llrs) == Burst(frame, columns) && s.result == Ok([]) && StateOf(s.after) == ReadingPayload(n - 1, n)
  {
    hide SyncWord, PushedSlice, Coded, RepeatedLength, NoSync, Sentinels;
    var clean, n := Unit(Burst(frame, columns)), |Coded(frame, columns)|;
    var llrs := clean[SYNC_BITS := SENTINEL];
    var field := llrs[SYNC_BITS..PHY_PREFIX_BITS];
    SentinelSigns(columns, frame);
    assert Burst(frame, columns)[SYNC_BITS..PHY_PREFIX_BITS] == LengthField(n);
    hide LengthField, Burst;
    SignsOfSlice(llrs, SYNC_BITS, PHY_PREFIX_BITS);
    SyncInFront(frame, columns, llrs);
    assert [] + llrs == llrs;
    SentinelMisreads(columns, [], llrs, n);
    assert field[1] == clean[SYNC_BITS + 1] && Abs(clean[SYNC_BITS + 1]) == 1;
    OneSentinel(field);
  }

  lemma SentinelSigns(columns: Columns, frame: seq<byte>)
    requires |frame| <= FRAME_MAX_BYTES
    ensures Signs(Unit(Burst(frame, columns))[SYNC_BITS := SENTINEL]) == Burst(frame, columns)
  {
    hide SyncWord, Coded;
    var bits := Burst(frame, columns);
    TopBitClear(|Coded(frame, columns)|);
    assert LengthField(|Coded(frame, columns)|)[0] == bits[SYNC_BITS];
    hide Burst, LengthField;
    SignsSet(Unit(bits), SYNC_BITS);
    assert bits[SYNC_BITS := false] == bits;
  }

  lemma SignsSet(llrs: seq<int8>, i: nat)
    requires i < |llrs|
    ensures Signs(llrs[i := SENTINEL]) == Signs(llrs)[i := false]
  {}

  lemma SyncInFront(frame: seq<byte>, columns: Columns, llrs: seq<int8>)
    requires Signs(llrs) == Burst(frame, columns)
    ensures FirstSync([], llrs[..SYNC_BITS])
  {
    hide SyncWord, LengthField, Coded;
    SignsOfSlice(llrs, 0, SYNC_BITS);
    assert llrs[0..SYNC_BITS] == llrs[..SYNC_BITS] && [] + llrs[..SYNC_BITS] == llrs[..SYNC_BITS];
  }

  lemma OneSentinel(field: seq<int8>)
    requires |field| >= 2 && field[0] == SENTINEL && field[1] != SENTINEL
    ensures Sentinels(field) == 1
  {
    assert field[1..][0] == field[1];
  }

  lemma TopBitClear(n: nat)
    requires n < 0x8000
    ensures !Bit(n, 15)
  {
    hide Bit;
    Pow2Of15();
    BitOfMod(n, 15, 15);
    assert n % 0x8000 == n;
  }

  lemma Pow2Of15()
    ensures Pow2(15) == 0x8000
  {
    Pow2Values();
    assert Pow2(15 + 1) == 2 * Pow2(15);
  }
}
