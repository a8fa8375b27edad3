/** The block interleaver of both sources: fill a rectangle of `c` columns row
  * by row, read it column by column.
  */
module Interleaver {
  // The last row may be short, so the first `n % c` columns hold one entry more
  // than the others.

  import opened Words
  import opened Common
  import opened BitBuffers
  import opened CStatus
  import opened AirErrors

  /** Entries in one column. */
  function Height(n: nat, c: nat, column: nat): nat
    requires c > 0
  {
    n / c + if column < n % c then 1 else 0
  }

  /** Entries in all columns before one. */
  function Start(n: nat, c: nat, column: nat): nat
    requires c > 0
  {
    column * (n / c) + if column < n % c then column else n % c
  }

  lemma StartStep(n: nat, c: nat, column: nat)
    requires c > 0
    ensures Start(n, c, column + 1) == Start(n, c, column) + Height(n, c, column)
  {
    assert (column + 1) * (n / c) == column * (n / c) + n / c;
  }

  lemma StartEnds(n: nat, c: nat)
    requires c > 0
    ensures Start(n, c, 0) == 0 && Start(n, c, c) == n
  {
    assert 0 * (n / c) == 0;
    assert n == c * (n / c) + n % c;
  }

  lemma {:induction false} StartMonotone(n: nat, c: nat, a: nat, b: nat)
    requires c > 0 && a <= b
    ensures Start(n, c, a) <= Start(n, c, b)
    decreases b
  {
    hide Start, Height;
    if a < b {
      StartMonotone(n, c, a, b - 1);
      StartStep(n, c, b - 1);
    }
  }

  /** A cell of the rectangle is occupied exactly when its row is within the
    * height of its column. */
  lemma Occupied(n: nat, c: nat, row: nat, column: nat)
    requires c > 0 && column < c
    ensures row * c + column < n <==> row < Height(n, c, column)
  {
    var q, r := n / c, n % c;
    assert n == q * c + r;
    if row < q {
      Scaled(row + 1, q, c);
      assert (row + 1) * c == row * c + c;
    } else if row > q {
      Scaled(q + 1, row, c);
      assert (q + 1) * c == q * c + c;
    }
  }

  lemma CellUnique(c: nat, row: nat, column: nat, i: nat)
    requires c > 0 && column < c && i == row * c + column
    ensures i / c == row && i % c == column
  {
    DivModUnique(i, c, row, column);
  }

  /** The column a read position falls in, searching from `from`. */
  function Column(n: nat, c: nat, k: nat, from: nat): (column: nat)
    requires c > 0 && k < n && from <= c && Start(n, c, from) <= k
    ensures from <= column < c && Start(n, c, column) <= k < Start(n, c, column + 1)
    decreases c - from
  {
    StartEnds(n, c);
    if k < Start(n, c, from + 1) then from else Column(n, c, k, from + 1)
  }

  /** The filled position that is read as the `k`-th. */
  function Source(n: nat, c: nat, k: nat): (i: nat)
    requires c > 0 && k < n
    ensures i < n
  {
    StartEnds(n, c);
    var column := Column(n, c, k, 0);
    StartStep(n, c, column);
    Occupied(n, c, k - Start(n, c, column), column);
    (k - Start(n, c, column)) * c + column
  }

  /** When the `i`-th filled position is read. */
  function Position(n: nat, c: nat, i: nat): (k: nat)
    requires c > 0 && i < n
    ensures k < n
  {
    PositionInRange(n, c, i);
    Start(n, c, i % c) + i / c
  }

  lemma PositionInRange(n: nat, c: nat, i: nat)
    requires c > 0 && i < n
    ensures Start(n, c, i % c) + i / c < n
  {
    hide Start, Height;
    CellOf(n, c, i);
    StartStep(n, c, i % c);
    StartMonotone(n, c, i % c + 1, c);
    StartEnds(n, c);
  }

  lemma CellOf(n: nat, c: nat, i: nat)
    requires c > 0 && i < n
    ensures i == i / c * c + i % c && i / c < Height(n, c, i % c)
  {
    Occupied(n, c, i / c, i % c);
  }

  lemma ColumnOf(n: nat, c: nat, k: nat, column: nat)
    requires c > 0 && k < n && column < c && Start(n, c, column) <= k < Start(n, c, column + 1)
    ensures Start(n, c, 0) <= k && Column(n, c, k, 0) == column
  {
    hide Start;
    StartEnds(n, c);
    var found := Column(n, c, k, 0);
    if found < column { StartMonotone(n, c, found + 1, column); }
    else if column < found { StartMonotone(n, c, column + 1, found); }
  }

  /** Reading a cell: the position it is read at points back to it. */
  lemma SourceOfCell(n: nat, c: nat, row: nat, column: nat)
    requires c > 0 && column < c && row < Height(n, c, column)
    ensures Start(n, c, column) + row < n
    ensures Source(n, c, Start(n, c, column) + row) == row * c + column < n
  {
    hide Start, Height;
    Occupied(n, c, row, column);
    StartStep(n, c, column);
    StartMonotone(n, c, column + 1, c);
    StartEnds(n, c);
    ColumnOf(n, c, Start(n, c, column) + row, column);
  }

  /** `Source` and `Position` are inverse permutations of 0 .. n-1. */
  lemma Permutation(n: nat, c: nat, x: nat)
    requires c > 0 && x < n
    ensures Source(n, c, Position(n, c, x)) == x && Position(n, c, Source(n, c, x)) == x
  {
    hide Start, Height, Column;
    CellOf(n, c, x);
    SourceOfCell(n, c, x / c, x % c);
    StartEnds(n, c);
    var column := Column(n, c, x, 0);
    StartStep(n, c, column);
    CellUnique(c, x - Start(n, c, column), column, Source(n, c, x));
  }

  function Interleaved<T>(s: seq<T>, c: nat): (r: seq<T>)
    requires c > 0
    ensures |r| == |s|
  {
    seq(|s|, k requires 0 <= k < |s| => s[Source(|s|, c, k)])
  }

  function Deinterleaved<T>(s: seq<T>, c: nat): (r: seq<T>)
    requires c > 0
    ensures |r| == |s|
  {
    seq(|s|, i requires 0 <= i < |s| => s[Position(|s|, c, i)])
  }

  lemma RoundTrip<T>(s: seq<T>, c: nat)
    requires c > 0
    ensures Deinterleaved(Interleaved(s, c), c) == s && Interleaved(Deinterleaved(s, c), c) == s
  {
    hide Source, Position;
    forall x | 0 <= x < |s|
      ensures Deinterleaved(Interleaved(s, c), c)[x] == s[x] && Interleaved(Deinterleaved(s, c), c)[x] == s[x]
    {
      Permutation(|s|, c, x);
    }
  }

  /** Burst spreading: two positions of a run of the channel no longer than the
    * shortest column come from coded positions at least `c - 1` apart. */
  lemma BurstSpread(n: nat, c: nat, p: nat, q: nat)
    requires c > 0 && p < q < n && q - p < n / c
    ensures Source(n, c, p) - Source(n, c, q) >= c - 1 || Source(n, c, q) - Source(n, c, p) >= c
  {
    hide Start, Column;
    StartEnds(n, c);
    var cp, cq := Column(n, c, p, 0), Column(n, c, q, 0);
    var rp, rq := p - Start(n, c, cp), q - Start(n, c, cq);
    StartStep(n, c, cp);
    if cq < cp {
      StartMonotone(n, c, cq + 1, cp);
    } else if cp == cq {
      Scaled(1, rq - rp, c);
      assert rq * c - rp * c == (rq - rp) * c;
    } else {
      StartStep(n, c, cp + 1);
      if cp + 2 <= cq { StartMonotone(n, c, cp + 2, cq); }
      assert cq == cp + 1 && rq < rp;
      Scaled(1, rp - rq, c);
      assert rp * c - rq * c == (rp - rq) * c;
    }
  }

  // ------------------------------------------------------------- the Rust form

  const MAX_CODED_BITS := 4108

  /** A rectangle large enough for all entries has a row for each of them. */
  lemma RowsSuffice(n: nat, c: nat, rows: nat, column: nat)
    requires c > 0 && column < c && rows * c >= n
    ensures Height(n, c, column) <= rows
  {
    Occupied(n, c, rows, column);
  }

  method InterleaveCopy<T>(values: seq<T>, columns: nat) returns (r: Result<seq<T>>)
    ensures r.Err? <==> columns == 0 || columns > MAX_CODED_BITS
    ensures r.Err? ==> r.error == InvalidFec
    ensures r.Ok? ==> r.value == Interleaved(values, columns)
  {
    if columns == 0 || columns > MAX_CODED_BITS { return Err(InvalidFec); }
    if values == [] { return Ok([]); }
    hide Start, Height, Source;
    ghost var n := |values|;
    var rows := DivCeil(|values|, columns);
    var output := [];
    StartEnds(n, columns);
    for column := 0 to columns
      invariant |output| == Start(n, columns, column) <= n
      invariant forall k :: 0 <= k < |output| ==> output[k] == values[Source(n, columns, k)]
    {
      StartStep(n, columns, column);
      RowsSuffice(n, columns, rows, column);
      for row := 0 to rows
        invariant |output| == Start(n, columns, column) + Least(row, Height(n, columns, column)) <= n
        invariant forall k :: 0 <= k < |output| ==> output[k] == values[Source(n, columns, k)]
      {
        var index := row * columns + column;
        Occupied(n, columns, row, column);
        if index < |values| {
          SourceOfCell(n, columns, row, column);
          output := output + [values[index]];
        }
      }
    }
    return Ok(output);
  }

  method DeinterleaveSoft(llrs: seq<int8>, columns: nat) returns (r: Result<seq<int8>>)
    ensures r.Err? <==> columns == 0 || columns > MAX_CODED_BITS
    ensures r.Err? ==> r.error == InvalidFec
    ensures r.Ok? ==> r.value == Deinterleaved(llrs, columns)
  {
    if columns == 0 || columns > MAX_CODED_BITS { return Err(InvalidFec); }
    if llrs == [] { return Ok([]); }
    hide Start, Height, Source, Position, Deinterleaved, DivCeil;
    ghost var n := |llrs|;
    var rows := DivCeil(|llrs|, columns);
    var output: seq<int8> := seq(|llrs|, _ => 0);
    var source := 0;
    StartEnds(n, columns);
    for column := 0 to columns
      invariant source == Start(n, columns, column) <= n && Scattered(llrs, columns, output, source)
    {
      StartStep(n, columns, column);
      StartMonotone(n, columns, column + 1, columns);
      hide Scattered;
      output, source := ScatterColumn(llrs, columns, rows, column, output, source);
    }
    ScatterIsGather(llrs, columns, output);
    return Ok(output);
  }

  /** The first `count` values read have been put back in their places. */
  predicate Scattered(llrs: seq<int8>, c: nat, output: seq<int8>, count: nat)
    requires c > 0 && count <= |llrs|
  {
    |output| == |llrs| && forall k :: 0 <= k < count ==> output[Source(|llrs|, c, k)] == llrs[k]
  }

  /** One column of the deinterleaver. */
  method ScatterColumn(llrs: seq<int8>, columns: nat, rows: nat, column: nat, before: seq<int8>, first: nat)
      returns (output: seq<int8>, source: nat)
    requires columns > 0 && column < columns && rows * columns >= |llrs|
    requires first == Start(|llrs|, columns, column) && first + Height(|llrs|, columns, column) <= |llrs|
    requires Scattered(llrs, columns, before, first)
    ensures source == first + Height(|llrs|, columns, column) && Scattered(llrs, columns, output, source)
  {
    hide Start, Height, Source;
    ghost var n := |llrs|;
    output, source := before, first;
    RowsSuffice(n, columns, rows, column);
    for row := 0 to rows
      invariant |output| == n && source == first + Least(row, Height(n, columns, column)) <= n
      invariant forall k :: 0 <= k < source ==> output[Source(n, columns, k)] == llrs[k]
    {
      var target := row * columns + column;
      Occupied(n, columns, row, column);
      if target < |llrs| {
        SourceOfCell(n, columns, row, column);
        OthersElsewhere(n, columns, source);
        output := output[target := llrs[source]];
        source := source + 1;
      }
    }
  }

  lemma OthersElsewhere(n: nat, c: nat, x: nat)
    requires c > 0 && x < n
    ensures forall k :: 0 <= k < x ==> Source(n, c, k) != Source(n, c, x)
  {
    hide Source, Position;
    Permutation(n, c, x);
    forall k | 0 <= k < x ensures Source(n, c, k) != Source(n, c, x) { Permutation(n, c, k); }
  }

  lemma ScatterIsGather<T>(input: seq<T>, c: nat, output: seq<T>)
    requires c > 0 && |output| == |input|
    requires forall k :: 0 <= k < |input| ==> output[Source(|input|, c, k)] == input[k]
    ensures output == Deinterleaved(input, c)
  {
    hide Source, Position;
    forall i | 0 <= i < |input| ensures output[i] == Deinterleaved(input, c)[i] { Permutation(|input|, c, i); }
  }

  // ---------------------------------------------------------------- the C form

  /** `(bit_count + rows - 1) / rows` */
  function Columns(bitCount: nat, rows: nat): (c: nat)
    requires rows > 0
    ensures bitCount > 0 ==> c > 0
  {
    DivCeilBounds(bitCount, rows);
    DivCeil(bitCount, rows)
  }

  function InterleaverStatus(sameBuffer: bool, rows: nat, bitCount: nat, capacity: nat): Status {
    if sameBuffer || rows == 0 then ERR_ARGUMENT else if (bitCount + 7) / 8 > capacity then ERR_CAPACITY else OK
  }

  method InterleaveBits(input: array<byte>, bitCount: nat, output: array<byte>, rows: byte) returns (status: Status)
    requires bitCount <= 8 * input.Length
    modifies output
    ensures status == InterleaverStatus(input == output, rows, bitCount, output.Length)
    ensures status.OK? && bitCount > 0 ==> Columns(bitCount, rows) > 0
    ensures status.OK? && bitCount > 0 ==>
      BitsOf(output[..])[..bitCount] == Interleaved(BitsOf(input[..])[..bitCount], Columns(bitCount, rows))
    ensures status.OK? ==> output[(bitCount + 7) / 8..] == old(output[(bitCount + 7) / 8..])
    ensures !status.OK? ==> output[..] == old(output[..])
  {
    var bytes := (bitCount + 7) / 8;
    if input == output || rows == 0 { return ERR_ARGUMENT; }
    if bytes > output.Length { return ERR_CAPACITY; }
    Clear(output, bytes);
    if bitCount == 0 { return OK; }
    var columns := Columns(bitCount, rows);
    ColumnsHoldAll(bitCount, rows);
    hide Start, Height, Source, GetBit, Columns;
    var outBit := GatherBits(input, bitCount, output, rows, columns);
    return if outBit == bitCount then OK else ERR_STATE;
  }

  /** The two loops of the C interleaver. */
  method GatherBits(input: array<byte>, bitCount: nat, output: array<byte>, rows: byte, columns: nat)
      returns (outBit: nat)
    requires input != output && bitCount <= 8 * input.Length && (bitCount + 7) / 8 <= output.Length
    requires columns > 0 && rows * columns >= bitCount
    modifies output
    ensures outBit == bitCount
    ensures forall k :: 0 <= k < bitCount ==> BitsOf(output[..])[k] == BitsOf(input[..])[Source(bitCount, columns, k)]
    ensures forall k :: (bitCount + 7) / 8 <= k < output.Length ==> output[k] == old(output[k])
  {
    hide Start, Height, Source, GetBit;
    ghost var n, bits := bitCount, BitsOf(input[..]);
    outBit := 0;
    StartEnds(n, columns);
    for column := 0 to columns
      invariant outBit == Start(n, columns, column) <= n
      invariant forall k :: 0 <= k < outBit ==> BitsOf(output[..])[k] == bits[Source(n, columns, k)]
      invariant forall k :: (bitCount + 7) / 8 <= k < output.Length ==> output[k] == old(output[k])
    {
      StartStep(n, columns, column);
      RowsSuffice(n, columns, rows, column);
      for row := 0 to rows
        invariant outBit == Start(n, columns, column) + Least(row, Height(n, columns, column)) <= n
        invariant forall k :: 0 <= k < outBit ==> BitsOf(output[..])[k] == bits[Source(n, columns, k)]
        invariant forall k :: (bitCount + 7) / 8 <= k < output.Length ==> output[k] == old(output[k])
      {
        var inBit := row * columns + column;
        Occupied(n, columns, row, column);
        if inBit < bitCount {
          SourceOfCell(n, columns, row, column);
          PutBit(output, outBit, GetBit(input[..], inBit));
          outBit := outBit + 1;
        }
      }
    }
  }

  method DeinterleaveBits(input: array<byte>, bitCount: nat, output: array<byte>, rows: byte) returns (status: Status)
    requires bitCount <= 8 * input.Length
    modifies output
    ensures status == InterleaverStatus(input == output, rows, bitCount, output.Length)
    ensures status.OK? && bitCount > 0 ==> Columns(bitCount, rows) > 0
    ensures status.OK? && bitCount > 0 ==>
      BitsOf(output[..])[..bitCount] == Deinterleaved(BitsOf(input[..])[..bitCount], Columns(bitCount, rows))
    ensures status.OK? ==> output[(bitCount + 7) / 8..] == old(output[(bitCount + 7) / 8..])
    ensures !status.OK? ==> output[..] == old(output[..])
  {
    var bytes := (bitCount + 7) / 8;
    if input == output || rows == 0 { return ERR_ARGUMENT; }
    if bytes > output.Length { return ERR_CAPACITY; }
    Clear(output, bytes);
    if bitCount == 0 { return OK; }
    var columns := Columns(bitCount, rows);
    ColumnsHoldAll(bitCount, rows);
    hide Start, Height, Source, GetBit, Position, Deinterleaved, Columns;
    var inBit := ScatterBits(input, bitCount, output, rows, columns);
    ScatterIsGather(BitsOf(input[..])[..bitCount], columns, BitsOf(output[..])[..bitCount]);
    return if inBit == bitCount then OK else ERR_STATE;
  }

  /** The two loops of the C deinterleaver. */
  method ScatterBits(input: array<byte>, bitCount: nat, output: array<byte>, rows: byte, columns: nat)
      returns (inBit: nat)
    requires input != output && bitCount <= 8 * input.Length && (bitCount + 7) / 8 <= output.Length
    requires columns > 0 && rows * columns >= bitCount
    modifies output
    ensures inBit == bitCount
    ensures forall k :: 0 <= k < bitCount ==> BitsOf(output[..])[Source(bitCount, columns, k)] == BitsOf(input[..])[k]
    ensures forall k :: (bitCount + 7) / 8 <= k < output.Length ==> output[k] == old(output[k])
  {
    hide Start, Height, Source, GetBit, Position;
    ghost var n, bits := bitCount, BitsOf(input[..]);
    inBit := 0;
    StartEnds(n, columns);
    for column := 0 to columns
      invariant inBit == Start(n, columns, column) <= n
      invariant forall k :: 0 <= k < inBit ==> BitsOf(output[..])[Source(n, columns, k)] == bits[k]
      invariant forall k :: (bitCount + 7) / 8 <= k < output.Length ==> output[k] == old(output[k])
    {
      StartStep(n, columns, column);
      RowsSuffice(n, columns, rows, column);
      for row := 0 to rows
        invariant inBit == Start(n, columns, column) + Least(row, Height(n, columns, column)) <= n
        invariant forall k :: 0 <= k < inBit ==> BitsOf(output[..])[Source(n, columns, k)] == bits[k]
        invariant forall k :: (bitCount + 7) / 8 <= k < output.Length ==> output[k] == old(output[k])
      {
        var outBit := row * columns + column;
        Occupied(n, columns, row, column);
        if outBit < bitCount {
          SourceOfCell(n, columns, row, column);
          OthersElsewhere(n, columns, inBit);
          PutBit(output, outBit, GetBit(input[..], inBit));
          inBit := inBit + 1;
        }
      }
    }
  }

  // ----- the order of reading ------------------------------------------------------------------

  /** Reading goes column by column, and down each column. */
  lemma ReadsColumnByColumn(n: nat, c: nat, k: nat, l: nat)
    requires c > 0 && k < l < n
    ensures var i, j := Source(n, c, k), Source(n, c, l);
            i % c < j % c || (i % c == j % c && i < j)
  {
    hide Start, Height;
    StartEnds(n, c);
    var a, b := Column(n, c, k, 0), Column(n, c, l, 0);
    StartStep(n, c, a);
    StartStep(n, c, b);
    var x, y := k - Start(n, c, a), l - Start(n, c, b);
    CellUnique(c, x, a, Source(n, c, k));
    CellUnique(c, y, b, Source(n, c, l));
    if b < a {
      StartMonotone(n, c, b + 1, a);
    } else if a == b {
      Scaled(x + 1, y, c);
    }
  }

  /** The columns of the C form: as few as hold all the bits in so many rows. */
  lemma ColumnsHoldAll(bitCount: nat, rows: nat)
    requires rows > 0 && bitCount > 0
    ensures (Columns(bitCount, rows) - 1) * rows < bitCount <= Columns(bitCount, rows) * rows
  {
    DivCeilBounds(bitCount, rows);
  }

  /** The statuses, with the capacity counted in bits. */
  lemma StatusIs(sameBuffer: bool, rows: nat, bitCount: nat, capacity: nat)
    ensures var status := InterleaverStatus(sameBuffer, rows, bitCount, capacity);
            && (status == ERR_ARGUMENT <==> sameBuffer || rows == 0)
            && (status == ERR_CAPACITY <==> !sameBuffer && rows > 0 && bitCount > 8 * capacity)
            && (status == OK <==> !sameBuffer && rows > 0 && bitCount <= 8 * capacity)
  {}
}
