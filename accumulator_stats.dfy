/** Size of the header accumulator at a given block height. The history
    holds one 32-byte root per epoch; the estimate counts it pro rata, as
    `32 * height // epoch_size` bytes. The largest the accumulator gets adds a
    full epoch of 64-byte header records (a hash and a total difficulty). */
module AccumulatorStats {
  import opened PythonInts
  import opened DecimalText
  import opened ByteUnits
  import opened Outcomes

  /** Headers per epoch (2**13). */
  const ACCUMULATOR_EPOCH_SIZE: int := 8192

  /** The most epoch roots the history holds (2**20). */
  const MAX_HISTORICAL_EPOCHS: int := 1048576

  /** Bytes of one epoch root in the history. */
  const HISTORY_ROOT_BYTES: int := 32

  /** Bytes of one header record (hash and difficulty) in the current epoch. */
  const HEADER_RECORD_BYTES: int := 64

  /** The block heights of the rendered table. */
  const BLOCK_HEIGHTS: seq<int> := [100000, 1000000, 10000000, 15000000, 30000000]

  /** One row of the accumulator table, as numbers. */
  datatype SizeRow = SizeRow(blockNumber: int, historySize: int, maxSize: int)

  /** The sizes behind `render_accumulator_stats`: for each height, in
      order, the history size and the history plus one full epoch. A zero
      epoch size raises, but only once a height is divided. */
  function AccumulatorSizes(heights: seq<int>, epochSize: int): (r: Result<seq<SizeRow>>)
    ensures r.Err? <==> epochSize == 0 && |heights| > 0
    ensures r.Err? ==> r.error == ZeroDivisionError
    ensures r.Ok? ==> |r.value| == |heights|
    ensures r.Ok? ==> forall k :: 0 <= k < |heights| ==>
      r.value[k].blockNumber == heights[k]
      && IsFloorQuotient(r.value[k].historySize, HISTORY_ROOT_BYTES * heights[k], epochSize)
      && r.value[k].maxSize - r.value[k].historySize == HEADER_RECORD_BYTES * epochSize
  {
    if epochSize == 0 && |heights| > 0 then Err(ZeroDivisionError)
    else
      var fullEpochSize := epochSize * HEADER_RECORD_BYTES;
      Ok(seq(|heights|, k requires 0 <= k < |heights| =>
        var baseSize := FloorDiv(HISTORY_ROOT_BYTES * heights[k], epochSize);
        SizeRow(heights[k], baseSize, baseSize + fullEpochSize)))
  }

  /** With the default epoch size a full epoch of records is 512 KiB. */
  lemma FullEpochSize()
    ensures HEADER_RECORD_BYTES * ACCUMULATOR_EPOCH_SIZE == 512 * KB
  {
  }

  /** The rows of the rendered table. */
  lemma DefaultSizes()
    ensures AccumulatorSizes(BLOCK_HEIGHTS, ACCUMULATOR_EPOCH_SIZE) == Ok([
      SizeRow(100000, 390, 524678),
      SizeRow(1000000, 3906, 528194),
      SizeRow(10000000, 39062, 563350),
      SizeRow(15000000, 58593, 582881),
      SizeRow(30000000, 117187, 641475)])
  {
    var r := AccumulatorSizes(BLOCK_HEIGHTS, ACCUMULATOR_EPOCH_SIZE);
    var expected := [
      SizeRow(100000, 390, 524678),
      SizeRow(1000000, 3906, 528194),
      SizeRow(10000000, 39062, 563350),
      SizeRow(15000000, 58593, 582881),
      SizeRow(30000000, 117187, 641475)];
    assert r.Ok? && |r.value| == |expected|;
    forall k | 0 <= k < |expected|
      ensures r.value[k] == expected[k]
    {
    }
    assert r.value == expected;
  }

  /** With a positive epoch size, higher blocks never have smaller
      accumulators: the rows keep the order of ascending heights. */
  lemma SizesFollowHeights(heights: seq<int>, epochSize: int, i: int, j: int)
    requires 0 < epochSize && 0 <= i <= j < |heights| && heights[i] <= heights[j]
    ensures var rows := AccumulatorSizes(heights, epochSize).value;
      rows[i].historySize <= rows[j].historySize && rows[i].maxSize <= rows[j].maxSize
  {
    DivMonotone(HISTORY_ROOT_BYTES * heights[i], HISTORY_ROOT_BYTES * heights[j], epochSize);
  }

  /** The pro-rated history size lies between the size of the roots of the
      completed epochs and that plus one more root. */
  lemma HistoryBetweenCompletedEpochs(height: int, epochSize: int)
    requires 0 < epochSize
    ensures var completed := height / epochSize;
      var size := FloorDiv(HISTORY_ROOT_BYTES * height, epochSize);
      HISTORY_ROOT_BYTES * completed <= size < HISTORY_ROOT_BYTES * (completed + 1)
  {
    var q, r := height / epochSize, height % epochSize;
    var a := HISTORY_ROOT_BYTES * r;
    var b, c := a / epochSize, a % epochSize;
    assert height == q * epochSize + r;
    assert a == b * epochSize + c;
    assert HISTORY_ROOT_BYTES * height == (HISTORY_ROOT_BYTES * q) * epochSize + a;
    assert (HISTORY_ROOT_BYTES * q + b) * epochSize == (HISTORY_ROOT_BYTES * q) * epochSize + b * epochSize;
    DivUnique(HISTORY_ROOT_BYTES * height, epochSize, HISTORY_ROOT_BYTES * q + b, c);
    DivBelow(a, HISTORY_ROOT_BYTES, epochSize);
  }

  /** Up to the last block the history can describe, its estimate stays
      within the room for `MAX_HISTORICAL_EPOCHS` roots (32 MiB). */
  lemma HistoryWithinCapacity(height: int)
    requires 0 <= height <= ACCUMULATOR_EPOCH_SIZE * MAX_HISTORICAL_EPOCHS
    ensures FloorDiv(HISTORY_ROOT_BYTES * height, ACCUMULATOR_EPOCH_SIZE)
      <= HISTORY_ROOT_BYTES * MAX_HISTORICAL_EPOCHS
  {
    DivMonotone(HISTORY_ROOT_BYTES * height,
      HISTORY_ROOT_BYTES * ACCUMULATOR_EPOCH_SIZE * MAX_HISTORICAL_EPOCHS, ACCUMULATOR_EPOCH_SIZE);
  }

  /** The three cells of each row of the rendered table: the height, and
      both sizes in human-readable units. */
  function AccumulatorCells(rows: seq<SizeRow>): (cells: seq<(string, string, string)>)
    requires forall k :: 0 <= k < |rows| ==>
      rows[k].historySize <= MAX_EXACT_INT && rows[k].maxSize <= MAX_EXACT_INT
    ensures |cells| == |rows|
    ensures forall k :: 0 <= k < |rows| ==> ReadsAs(cells[k].0, rows[k].blockNumber)
  {
    seq(|rows|, k requires 0 <= k < |rows| =>
      (DecimalString(rows[k].blockNumber),
       HumanizeBytes(rows[k].historySize),
       HumanizeBytes(rows[k].maxSize)))
  }

  /** The two sizes of the first row of the rendered table in
      human-readable units: 390 bytes, and 524678 bytes as 512.4 KB. */
  lemma DefaultFirstRowSizes()
    ensures HumanizeBytes(390) == "390B"
    ensures HumanizeBytes(524678) == "512.4KB"
  {
    assert DecimalDigits(390) == "390";
    assert RoundHalfEven(5246780, KB) == 5124;
    assert DecimalDigits(512) == "512";
    assert OneDecimal(524678, KB) == "512.4";
  }

  /** The first row of the rendered table. */
  lemma DefaultFirstRowCells()
    ensures AccumulatorCells([SizeRow(100000, 390, 524678)])
      == [("100000", "390B", "512.4KB")]
  {
    assert DecimalDigits(100000) == "100000";
    DefaultFirstRowSizes();
  }
}
