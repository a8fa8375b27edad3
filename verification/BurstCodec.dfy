/** Bursts on the air: a sync word, the coded length with every bit three times,
  * then the coded and interleaved frame.
  */
module BurstCodec {
  import opened Words
  import opened BitBuffers
  import opened AirErrors
  import opened Trellis
  import opened Viterbi
  import opened RustFec
  import opened BitStrings
  import Interleaver

  const PHY_SYNC: u32 := 0xd391_c5a7
  const SYNC_BITS := 32
  const LENGTH_BITS_REPEATED := 48
  const PHY_PREFIX_BITS := 80

  /** A legal column count, as `BurstCodec::new` accepts it. */
  type Columns = c: int | 1 <= c <= 256 witness 1

  function NewCodec(columns: nat): (r: Result<Columns>)
    ensures if 1 <= columns <= 256 then r == Ok(columns) else r == Err(InvalidLength)
  {
    if columns == 0 || columns > 256 then Err(InvalidLength) else Ok(columns)
  }

  // ----- the burst ------------------------------------------------------------------

  function SyncWord(): (bits: seq<bool>)
    ensures |bits| == SYNC_BITS
  {
    BitsOfNumber(PHY_SYNC, SYNC_BITS)
  }

  function LengthField(n: nat): (bits: seq<bool>)
    ensures |bits| == LENGTH_BITS_REPEATED
  {
    seq(LENGTH_BITS_REPEATED, j requires 0 <= j < LENGTH_BITS_REPEATED => Bit(n, 15 - j / 3))
  }

  function Coded(frame: seq<byte>, columns: Columns): (bits: seq<bool>)
    ensures |bits| == 2 * (8 * |frame| + MEMORY)
  {
    Interleaver.Interleaved(Codeword(BitsOf(frame)), columns)
  }

  function Burst(frame: seq<byte>, columns: Columns): (bits: seq<bool>)
    ensures |bits| == PHY_PREFIX_BITS + 2 * (8 * |frame| + MEMORY)
  {
    SyncWord() + LengthField(|Coded(frame, columns)|) + Coded(frame, columns)
  }

  lemma OnesInterleaved(bits: seq<bool>, columns: Columns)
    ensures Interleaver.Interleaved(Ones(bits), columns) == Ones(Interleaver.Interleaved(bits, columns))
  {
    hide Interleaver.Source;
  }

  method InterleaveOnes(bits: seq<byte>, columns: nat) returns (r: Result<seq<byte>>)
    ensures r.Err? <==> !AllBits(bits) || columns == 0 || columns > MAX_CODED_BITS
    ensures r.Err? ==> r.error == InvalidFec
    ensures r.Ok? ==> r.value == Interleaver.Interleaved(bits, columns)
  {
    if exists k :: 0 <= k < |bits| && bits[k] > 1 { return Err(InvalidFec); }
    r := Interleaver.InterleaveCopy(bits, columns);
  }

  method SyncPrefix() returns (burst: seq<byte>)
    ensures burst == Ones(SyncWord())
  {
    hide Bit;
    burst := [];
    var shift := 32;
    while shift > 0
      invariant 0 <= shift <= 32 && |burst| == 32 - shift
      invariant forall i :: 0 <= i < |burst| ==> burst[i] == Int(Bit(PHY_SYNC, 31 - i))
    {
      shift := shift - 1;
      burst := burst + [Int(Bit(PHY_SYNC, shift))];
    }
  }

  method LengthPrefix(n: nat) returns (burst: seq<byte>)
    ensures burst == Ones(LengthField(n))
  {
    hide Bit;
    burst := [];
    var shift := 16;
    while shift > 0
      invariant 0 <= shift <= 16 && |burst| == 3 * (16 - shift)
      invariant forall j :: 0 <= j < |burst| ==> burst[j] == Int(Bit(n, 15 - j / 3))
    {
      shift := shift - 1;
      var bit := Int(Bit(n, shift));
      burst := burst + [bit, bit, bit];
    }
  }

  /** The length always fits the header: its overflow exit is never taken. */
  method Encode(frame: seq<byte>, columns: Columns) returns (r: Result<seq<byte>>)
    ensures r.Ok? <==> |frame| <= FRAME_MAX_BYTES
    ensures r.Err? ==> r.error == InvalidFec
    ensures r.Ok? ==> r.value == Ones(Burst(frame, columns))
  {
    hide Codeword, Interleaver.Interleaved, SyncWord, LengthField, BitsOf, Ones;
    var bits := BytesToBitsMsb(frame);
    BoolsOfOnes(BitsOf(frame));
    var coded :- ConvolutionalEncode(bits);
    BoolsOfOnes(Codeword(BitsOf(frame)));
    var interleaved := InterleaveOnes(coded, columns);
    r := Err(InvalidFec);
    if interleaved.Err? { return; }
    OnesInterleaved(Codeword(BitsOf(frame)), columns);
    r := Err(LimitExceeded);
    if |interleaved.value| > 0xffff { return; }
    var burst := SyncPrefix();
    var length := LengthPrefix(|interleaved.value|);
    burst := burst + length;
    burst := burst + interleaved.value;
    return Ok(burst);
  }

  // ----- decoding -------------------------------------------------------------------

  /** The hard decisions: positive means 1. */
  function Signs(llrs: seq<int8>): (bits: seq<bool>)
    ensures |bits| == |llrs|
  {
    seq(|llrs|, i requires 0 <= i < |llrs| => llrs[i] > 0)
  }

  predicate Vote(a: int8, b: int8, c: int8) {
    Int(a > 0) + Int(b > 0) + Int(c > 0) >= 2
  }

  function Votes(llrs: seq<int8>): (bits: seq<bool>)
    requires |llrs| == LENGTH_BITS_REPEATED
    ensures |bits| == 16
  {
    seq(16, i requires 0 <= i < 16 => Vote(llrs[3 * i], llrs[3 * i + 1], llrs[3 * i + 2]))
  }

  function RepeatedLength(llrs: seq<int8>): (n: nat)
    requires |llrs| == LENGTH_BITS_REPEATED
    ensures n < 0x1_0000
  {
    Pow2Values();
    ByteOf(Votes(llrs))
  }

  predicate LengthOk(n: nat) { 12 <= n <= MAX_CODED_BITS && n % 2 == 0 }

  function DecodedCoded(llrs: seq<int8>, columns: Columns): Result<seq<byte>> {
    if BadSoftLength(|llrs|) then Err(InvalidFec)
    else Ok(BytesOf(Decoded(Soft(Interleaver.Deinterleaved(llrs, columns)), |llrs| / 2)))
  }

  function DecodedAligned(llrs: seq<int8>, columns: Columns): Result<seq<byte>> {
    if |llrs| < PHY_PREFIX_BITS then Err(Truncated)
    else if Distance(Signs(llrs[..SYNC_BITS]), SyncWord()) > 3 then Err(InvalidMarker)
    else
      var n := RepeatedLength(llrs[SYNC_BITS..PHY_PREFIX_BITS]);
      if !LengthOk(n) then Err(InvalidLength)
      else if |llrs| != PHY_PREFIX_BITS + n then Err(InvalidLength)
      else DecodedCoded(llrs[PHY_PREFIX_BITS..], columns)
  }

  method DecodeRepeatedLength(llrs: seq<int8>) returns (r: Result<nat>)
    ensures r.Ok? <==> |llrs| == LENGTH_BITS_REPEATED
    ensures r.Ok? ==> r.value == RepeatedLength(llrs)
    ensures r.Err? ==> r.error == InvalidLength
  {
    if |llrs| != LENGTH_BITS_REPEATED { return Err(InvalidLength); }
    hide Vote;
    var value := 0;
    for i := 0 to 16
      invariant value == ByteOf(Votes(llrs)[..i])
    {
      var vote := Vote(llrs[3 * i], llrs[3 * i + 1], llrs[3 * i + 2]);
      assert Front(Votes(llrs)[..i + 1]) == Votes(llrs)[..i];
      value := 2 * value + Int(vote);
    }
    assert Votes(llrs)[..16] == Votes(llrs);
    return Ok(value);
  }

  method CountSyncErrors(llrs: seq<int8>) returns (errors: nat)
    requires |llrs| == SYNC_BITS
    ensures errors == Distance(Signs(llrs), SyncWord())
  {
    errors := 0;
    hide Bit;
    for index := 0 to SYNC_BITS
      invariant errors == Distance(Signs(llrs)[..index], SyncWord()[..index])
    {
      assert Front(Signs(llrs)[..index + 1]) == Signs(llrs)[..index];
      assert Front(SyncWord()[..index + 1]) == SyncWord()[..index];
      var expected := Bit(PHY_SYNC, 31 - index);
      if (llrs[index] > 0) != expected { errors := errors + 1; }
    }
    assert Signs(llrs)[..32] == Signs(llrs) && SyncWord()[..32] == SyncWord();
  }

  method DecodeCoded(llrs: seq<int8>, columns: Columns) returns (r: Result<seq<byte>>)
    ensures r == DecodedCoded(llrs, columns)
  {
    hide Soft, Decoded, BytesOf, Correlation, Codeword, Interleaver.Deinterleaved, Confidence, BadSoftLength;
    var ordered := Interleaver.DeinterleaveSoft(llrs, columns);
    r := Err(InvalidFec);
    if ordered.Err? { return; }
    var decoded :- SoftViterbiDecode(ordered.value);
    var bits := Decoded(Soft(ordered.value), |llrs| / 2);
    BoolsOfOnes(bits);
    SoftLengthWholeBytes(|llrs|);
    r := BitsToBytesMsb(decoded.bits);
    BytesAre(r.value, bits);
  }

  lemma SoftLengthWholeBytes(n: nat)
    requires !BadSoftLength(n)
    ensures n / 2 >= MEMORY && (n / 2 - MEMORY) % 8 == 0
  {}

  method DecodeAligned(llrs: seq<int8>, columns: Columns) returns (r: Result<seq<byte>>)
    ensures r == DecodedAligned(llrs, columns)
  {
    hide DecodedCoded, Distance, SyncWord, RepeatedLength;
    if |llrs| < PHY_PREFIX_BITS { return Err(Truncated); }
    var syncErrors := CountSyncErrors(llrs[..SYNC_BITS]);
    if syncErrors > 3 { return Err(InvalidMarker); }
    var codedLen := DecodeRepeatedLength(llrs[SYNC_BITS..PHY_PREFIX_BITS]);
    r := Err(InvalidLength);
    if codedLen.Err? { return; }
    if !LengthOk(codedLen.value) { return; }
    if |llrs| != PHY_PREFIX_BITS + codedLen.value { return; }
    r := DecodeCoded(llrs[PHY_PREFIX_BITS..], columns);
  }

  // ----- how much noise a payload survives --------------------------------------------

  /** Every soft value has a magnitude from `lo` to `hi`. */
  predicate Magnitudes(llrs: seq<int8>, lo: nat, hi: nat) {
    forall i :: 0 <= i < |llrs| ==> lo <= Abs(llrs[i]) <= hi
  }

  lemma {:induction false} CorrelationGap(llrs: seq<int8>, c: seq<bool>, w: seq<bool>, lo: nat, hi: nat)
    requires |llrs| == |c| == |w| && Magnitudes(llrs, lo, hi) && lo >= 1
    ensures Correlation(llrs, c) - Correlation(llrs, w)
         >= 2 * (lo * (Distance(c, w) - Distance(Signs(llrs), c)) - hi * Distance(Signs(llrs), c))
  {
    if c == [] {
      assert lo * 0 == 0 && hi * 0 == 0;
    } else {
      CorrelationGap(Front(llrs), Front(c), Front(w), lo, hi);
      assert Signs(Front(llrs)) == Front(Signs(llrs));
      var dd, de := Int(Last(c) != Last(w)), Int((Last(llrs) > 0) != Last(c));
      SymbolGap(Last(llrs), Last(c), Last(w), lo, hi);
      hide LlrMetric, Signs, Magnitudes;
      GapStep(lo, hi, Distance(Front(c), Front(w)), Distance(Signs(Front(llrs)), Front(c)), dd, de);
    }
  }

  lemma SymbolGap(llr: int8, c: bool, w: bool, lo: int, hi: int)
    requires 1 <= lo <= Abs(llr) <= hi
    ensures var dd: int, de: int := Int(c != w), Int((llr > 0) != c);
            LlrMetric(llr, c) - LlrMetric(llr, w) >= 2 * (lo * (dd - de) - hi * de)
  {
    assert lo * 0 == 0 && hi * 0 == 0 && lo * 1 == lo && hi * 1 == hi && lo * -1 == -lo;
  }

  lemma GapStep(lo: nat, hi: nat, d: int, e: int, dd: nat, de: nat)
    ensures lo * (d + dd - (e + de)) == lo * (d - e) + lo * (dd - de)
    ensures hi * (e + de) == hi * e + hi * de
  {}

  /** Errors the code corrects whatever their places: at most `e` wrong signs,
    * where even `e` of the loudest weigh less than `10 - e` of the quietest. */
  predicate Correctable(e: nat, lo: nat, hi: nat) {
    e <= 10 && lo >= 1 && e * hi < (10 - e) * lo
  }

  lemma FourOfOneMagnitude(m: nat, e: nat)
    requires m >= 1 && e <= 4
    ensures Correctable(e, m, m)
  {
    assert e * m <= 4 * m && (10 - e) * m >= 6 * m;
  }

  lemma GapPositive(lo: nat, hi: nat, e: nat, d: nat, k: nat)
    requires Correctable(e, lo, hi) && d >= 10 && k <= e
    ensures lo * (d - k) - hi * k > 0
  {
    Products(lo, 10 - e, d - k);
    Products(hi, k, e);
  }

  lemma Products(c: nat, a: int, b: int)
    requires a <= b
    ensures c * a <= c * b
  {
    assert c * (b - a) >= 0;
  }

  /** The soft decoder returns the message under every such error pattern. */
  lemma SoftCorrects(llrs: seq<int8>, message: seq<bool>, lo: nat, hi: nat, e: nat)
    requires |llrs| == |Codeword(message)| && Payable(|message| + MEMORY)
    requires Magnitudes(llrs, lo, hi) && Correctable(e, lo, hi) && Distance(Signs(llrs), Codeword(message)) <= e
    ensures Decoded(Soft(llrs), |llrs| / 2) == message
  {
    assert lo >= 1;
    hide Soft, Cell, Correlation, Decoded, Distance, Codeword, Magnitudes, Correctable, Traced;
    var steps := |message| + MEMORY;
    FinalScore(llrs, steps);
    var d := Decoded(Soft(llrs), steps);
    if d != message {
      FreeDistance(message, d);
      CorrelationGap(llrs, Codeword(message), Codeword(d), lo, hi);
      GapPositive(lo, hi, e, Distance(Codeword(message), Codeword(d)), Distance(Signs(llrs), Codeword(message)));
    }
  }

  // ----- the round trip ------------------------------------------------------------------

  lemma DeinterleavedSigns(llrs: seq<int8>, columns: Columns, lo: nat, hi: nat)
    ensures Signs(Interleaver.Deinterleaved(llrs, columns)) == Interleaver.Deinterleaved(Signs(llrs), columns)
    ensures Magnitudes(llrs, lo, hi) ==> Magnitudes(Interleaver.Deinterleaved(llrs, columns), lo, hi)
  {
    hide Interleaver.Position;
  }

  /** The frame comes back from its coded bits under every correctable pattern. */
  lemma CodedRoundTrip(frame: seq<byte>, columns: Columns, llrs: seq<int8>, lo: nat, hi: nat, e: nat)
    requires |frame| <= FRAME_MAX_BYTES && |llrs| == |Coded(frame, columns)|
    requires Magnitudes(llrs, lo, hi) && Correctable(e, lo, hi) && Distance(Signs(llrs), Coded(frame, columns)) <= e
    ensures DecodedCoded(llrs, columns) == Ok(frame)
  {
    hide Soft, Decoded, Distance, Codeword, Magnitudes, Correctable, BytesOf, Interleaver.Deinterleaved;
    hide Interleaver.Interleaved;
    var word, message := Codeword(BitsOf(frame)), BitsOf(frame);
    hide BitsOf;
    var ordered := Interleaver.Deinterleaved(llrs, columns);
    DeinterleavedSigns(llrs, columns, lo, hi);
    Interleaver.RoundTrip(word, columns);
    DeinterleavedDistance(Signs(llrs), Coded(frame, columns), columns);
    SoftCorrects(ordered, message, lo, hi, e);
    BytesAre(frame, message);
  }

  /** At most one error in each triplet of the length field. */
  predicate TripletsOk(llrs: seq<int8>, n: nat)
    requires |llrs| == LENGTH_BITS_REPEATED
  {
    forall i :: 0 <= i < 16 ==> TripletOk(llrs[3 * i], llrs[3 * i + 1], llrs[3 * i + 2], Bit(n, 15 - i))
  }

  predicate TripletOk(a: int8, b: int8, c: int8, bit: bool) {
    Int((a > 0) != bit) + Int((b > 0) != bit) + Int((c > 0) != bit) <= 1
  }

  lemma TripletVotes(a: int8, b: int8, c: int8, bit: bool)
    requires TripletOk(a, b, c, bit)
    ensures Vote(a, b, c) == bit
  {}

  lemma VotesDecide(llrs: seq<int8>, n: nat)
    requires |llrs| == LENGTH_BITS_REPEATED && n < 0x1_0000
    requires forall i :: 0 <= i < 16 ==> Votes(llrs)[i] == Bit(n, 15 - i)
    ensures RepeatedLength(llrs) == n
  {
    hide Bit, ByteOf, Votes;
    Pow2Values();
    assert Votes(llrs) == BitsOfNumber(n, 16);
    NumberOfBits(n, Votes(llrs));
  }

  lemma LengthSurvives(llrs: seq<int8>, n: nat)
    requires |llrs| == LENGTH_BITS_REPEATED && n < 0x1_0000 && TripletsOk(llrs, n)
    ensures RepeatedLength(llrs) == n
  {
    hide Bit, Vote, TripletOk, RepeatedLength;
    forall i | 0 <= i < 16 ensures Votes(llrs)[i] == Bit(n, 15 - i) {
      TripletVotes(llrs[3 * i], llrs[3 * i + 1], llrs[3 * i + 2], Bit(n, 15 - i));
    }
    VotesDecide(llrs, n);
  }

  /** Soft values of one burst: at most three sync errors, at most one error in
    * each length triplet, and a correctable payload. */
  predicate Received(llrs: seq<int8>, frame: seq<byte>, columns: Columns, lo: nat, hi: nat, e: nat) {
    && |frame| <= FRAME_MAX_BYTES && |llrs| == |Burst(frame, columns)|
    && Distance(Signs(llrs[..SYNC_BITS]), SyncWord()) <= 3
    && TripletsOk(llrs[SYNC_BITS..PHY_PREFIX_BITS], |Coded(frame, columns)|)
    && Magnitudes(llrs[PHY_PREFIX_BITS..], lo, hi) && Correctable(e, lo, hi)
    && Distance(Signs(llrs[PHY_PREFIX_BITS..]), Coded(frame, columns)) <= e
  }

  /** Every such burst decodes to its frame. */
  lemma AlignedRoundTrip(llrs: seq<int8>, frame: seq<byte>, columns: Columns, lo: nat, hi: nat, e: nat)
    requires Received(llrs, frame, columns, lo, hi, e)
    ensures DecodedAligned(llrs, columns) == Ok(frame)
  {
    hide Distance, SyncWord, Coded, TripletsOk, Magnitudes, Correctable, DecodedCoded, RepeatedLength;
    LengthSurvives(llrs[SYNC_BITS..PHY_PREFIX_BITS], |Coded(frame, columns)|);
    CodedRoundTrip(frame, columns, llrs[PHY_PREFIX_BITS..], lo, hi, e);
  }

  lemma SignsOfSlice(llrs: seq<int8>, i: nat, j: nat)
    requires i <= j <= |llrs|
    ensures Signs(llrs[i..j]) == Signs(llrs)[i..j]
  {}

  /** What the encoder wrote, read at any positive magnitude, is such a burst. */
  lemma CleanBurstReceived(llrs: seq<int8>, frame: seq<byte>, columns: Columns)
    requires |frame| <= FRAME_MAX_BYTES && Signs(llrs) == Burst(frame, columns)
    requires Magnitudes(llrs[PHY_PREFIX_BITS..], 1, 128)
    ensures Received(llrs, frame, columns, 1, 128, 0)
  {
    hide Distance, Bit, Coded, Codeword;
    var bits, n := Burst(frame, columns), |Coded(frame, columns)|;
    SignsOfSlice(llrs, 0, SYNC_BITS);
    SignsOfSlice(llrs, PHY_PREFIX_BITS, |llrs|);
    assert bits[0..SYNC_BITS] == SyncWord() && bits[PHY_PREFIX_BITS..|llrs|] == Coded(frame, columns);
    assert llrs[0..SYNC_BITS] == llrs[..SYNC_BITS] && llrs[PHY_PREFIX_BITS..|llrs|] == llrs[PHY_PREFIX_BITS..];
    DistanceSelf(SyncWord());
    DistanceSelf(Coded(frame, columns));
    var field := llrs[SYNC_BITS..PHY_PREFIX_BITS];
    forall j | 0 <= j < LENGTH_BITS_REPEATED ensures (field[j] > 0) == Bit(n, 15 - j / 3) {
      assert Signs(llrs)[32 + j] == LengthField(n)[j];
    }
    forall i | 0 <= i < 16 ensures TripletOk(field[3 * i], field[3 * i + 1], field[3 * i + 2], Bit(n, 15 - i)) {
      assert (field[3 * i] > 0) == Bit(n, 15 - 3 * i / 3);
      assert (field[3 * i + 1] > 0) == Bit(n, 15 - (3 * i + 1) / 3);
      assert (field[3 * i + 2] > 0) == Bit(n, 15 - (3 * i + 2) / 3);
    }
  }

  // ----- what is refused ----------------------------------------------------------------------------

  /** 0xd391, bit by bit. */
  function SyncHigh(): (bits: seq<bool>)
    ensures |bits| == 16
  {
    [true, true, false, true] + [false, false, true, true] + [true, false, false, true] + [false, false, false, true]
  }

  /** 0xd391c5a7, bit by bit. */
  function SyncText(): (bits: seq<bool>)
    ensures |bits| == 32
  {
    SyncHigh() + [true, true, false, false] + [false, true, false, true]
    + [true, false, true, false] + [false, true, true, true]
  }

  lemma SyncIsText()
    ensures SyncWord() == SyncText()
  {
    TextValue();
    hide Bit, ByteOf, SyncText;
    Pow2Values();
    NumberOfBits(0xd391_c5a7, SyncText());
  }

  lemma FourMore(bits: seq<bool>, a: bool, b: bool, c: bool, d: bool)
    ensures ByteOf(bits + [a, b, c, d]) == 16 * ByteOf(bits) + 8 * Int(a) + 4 * Int(b) + 2 * Int(c) + Int(d)
  {
    OneMore(bits, a);
    OneMore(bits + [a], b);
    OneMore(bits + [a] + [b], c);
    OneMore(bits + [a] + [b] + [c], d);
    hide ByteOf;
    assert bits + [a] + [b] + [c] + [d] == bits + [a, b, c, d];
  }

  lemma OneMore(bits: seq<bool>, x: bool)
    ensures ByteOf(bits + [x]) == 2 * ByteOf(bits) + Int(x)
  {
    assert Front(bits + [x]) == bits;
  }

  lemma HighValue()
    ensures ByteOf(SyncHigh()) == 0xd391
  {
    assert ByteOf([]) == 0;
    hide ByteOf;
    var s1: seq<bool> := [true, true, false, true];
    assert [] + s1 == s1;
    FourMore([], true, true, false, true);
    var s2 := s1 + [false, false, true, true];
    FourMore(s1, false, false, true, true);
    var s3 := s2 + [true, false, false, true];
    FourMore(s2, true, false, false, true);
    var s4 := s3 + [false, false, false, true];
    FourMore(s3, false, false, false, true);
  }

  lemma TextValue()
    ensures ByteOf(SyncText()) == 0xd391_c5a7
  {
    HighValue();
    hide ByteOf, SyncHigh;
    var s4 := SyncHigh();
    var s5 := s4 + [true, true, false, false];
    FourMore(s4, true, true, false, false);
    var s6 := s5 + [false, true, false, true];
    FourMore(s5, false, true, false, true);
    var s7 := s6 + [true, false, true, false];
    FourMore(s6, true, false, true, false);
    var s8 := s7 + [false, true, true, true];
    FourMore(s7, false, true, true, true);
  }

  /** Which of the first 32 signs are wrong. */
  function SyncErrors(llrs: seq<int8>): set<nat>
    requires |llrs| >= 32
  {
    set i: nat | i < 32 && (llrs[i] > 0) != SyncText()[i]
  }

  lemma SyncErrorsCounted(llrs: seq<int8>)
    requires |llrs| >= PHY_PREFIX_BITS
    ensures Distance(Signs(llrs[..SYNC_BITS]), SyncWord()) == |SyncErrors(llrs)|
  {
    SyncIsText();
    hide SyncWord, Distance;
    DistanceCounts(Signs(llrs[..SYNC_BITS]), SyncWord());
    assert Differences(Signs(llrs[..SYNC_BITS]), SyncText()) == SyncErrors(llrs);
  }

  /** Every answer of the aligned decoder but the bytes themselves. */
  lemma AlignedAnswers(llrs: seq<int8>, columns: Columns)
    ensures |llrs| < 80 <==> DecodedAligned(llrs, columns) == Err(Truncated)
    ensures |llrs| >= 80 ==>
              (DecodedAligned(llrs, columns) == Err(InvalidMarker) <==> |SyncErrors(llrs)| >= 4)
    ensures |llrs| >= 80 && |SyncErrors(llrs)| <= 3 ==>
              var n := RepeatedLength(llrs[32..80]);
              && (DecodedAligned(llrs, columns) == Err(InvalidLength) <==>
                    !(12 <= n <= 4108) || n % 2 == 1 || |llrs| != 80 + n)
              && (DecodedAligned(llrs, columns).Ok? <==> 12 <= n <= 4108 && n % 16 == 12 && |llrs| == 80 + n)
  {
    hide Distance, SyncWord, RepeatedLength, SyncErrors;
    if |llrs| >= 80 {
      SyncErrorsCounted(llrs);
      CodedAnswers(llrs[80..], columns);
    }
    hide DecodedCoded;
  }

  lemma CodedAnswers(llrs: seq<int8>, columns: Columns)
    ensures DecodedCoded(llrs, columns).Ok? <==> 12 <= |llrs| <= 4108 && |llrs| % 16 == 12
    ensures DecodedCoded(llrs, columns).Err? ==> DecodedCoded(llrs, columns).error == InvalidFec
  {
    CodedLengths(|llrs|);
    hide Decoded, Soft, BytesOf, BadSoftLength, Interleaver.Deinterleaved;
  }

  lemma CodedLengths(n: nat)
    ensures !BadSoftLength(n) <==> 12 <= n <= 4108 && n % 16 == 12
  {}

  /** A burst whose length and payload can be corrected gives its frame if and
    * only if at most three signs of its sync word are wrong. */
  lemma DecodedIffThreeErrors(llrs: seq<int8>, frame: seq<byte>, columns: Columns, lo: nat, hi: nat, e: nat)
    requires |frame| <= 256 && |llrs| == |Burst(frame, columns)|
    requires TripletsOk(llrs[SYNC_BITS..PHY_PREFIX_BITS], |Coded(frame, columns)|)
    requires Magnitudes(llrs[PHY_PREFIX_BITS..], lo, hi) && Correctable(e, lo, hi)
    requires Distance(Signs(llrs[PHY_PREFIX_BITS..]), Coded(frame, columns)) <= e
    ensures DecodedAligned(llrs, columns) == Ok(frame) <==> |SyncErrors(llrs)| <= 3
  {
    hide Distance, SyncWord, Coded, TripletsOk, Magnitudes, Correctable, DecodedAligned, SyncErrors;
    SyncErrorsCounted(llrs);
    AlignedAnswers(llrs, columns);
    if |SyncErrors(llrs)| <= 3 { AlignedRoundTrip(llrs, frame, columns, lo, hi, e); }
  }

  /** The bits in front of the payload: the sync word, and the number of coded
    * bits, 16 times, each three times over. */
  lemma BurstBegins(frame: seq<byte>, columns: Columns)
    requires |frame| <= 256
    ensures Burst(frame, columns)[..32] == SyncText()
    ensures forall k :: 32 <= k < 80 ==> Burst(frame, columns)[k] == Bit(16 * |frame| + 12, 15 - (k - 32) / 3)
  {
    SyncIsText();
    hide SyncWord, Coded, Bit;
    var n := 16 * |frame| + 12;
    assert |Coded(frame, columns)| == n;
    forall k | 32 <= k < 80 ensures Burst(frame, columns)[k] == Bit(n, 15 - (k - 32) / 3) {
      assert Burst(frame, columns)[k] == LengthField(n)[k - 32];
    }
  }
}
