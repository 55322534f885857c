/** Expected size of a node's Kademlia routing table in a network of a given
    size: bucket `i` covers the nodes at log-distance `i`, which in a network
    of `n` nodes is about `n / 2**i` of them, and holds at most 16. */
module RoutingTable {
  import opened PythonInts
  import opened DecimalText
  import opened Outcomes

  /** The most nodes one bucket holds. */
  const BUCKET_CAPACITY: int := 16

  /** The estimate sums buckets `FIRST_BUCKET` up to, not including,
      `END_BUCKET`: Python's `range(1, 256)`. Bucket 0 is not counted. */
  const FIRST_BUCKET: nat := 1
  const END_BUCKET: nat := 256

  /** Upper bound of the estimate: every summed bucket full. */
  const MAX_ROUTING_TABLE_SIZE: int := BUCKET_CAPACITY * (END_BUCKET - FIRST_BUCKET)

  /** The network sizes of the rendered table. */
  const NETWORK_SIZES: seq<int> := [1000, 10000, 20000, 50000, 100000, 500000, 1000000]

  /** Network sizes for which `n / 2**i` is computed exactly in floating point. */
  predicate InExactRange(n: int) {
    -MAX_EXACT_INT <= n <= MAX_EXACT_INT
  }

  /** The network fits strictly inside the span `2**i` of bucket `i`. */
  predicate WithinSpan(n: int, i: nat) {
    -(Pow2(i) as int) < n < Pow2(i)
  }

  function Min(a: int, b: int): int {
    if a <= b then a else b
  }

  /** Expected occupancy of bucket `i` in a network of `n` nodes: `n / 2**i`
      truncated toward zero, capped at the bucket capacity. */
  function BucketSize(n: int, i: nat): (r: int)
    requires InExactRange(n)
    ensures r <= BUCKET_CAPACITY
    ensures r == BUCKET_CAPACITY <==> BUCKET_CAPACITY * Pow2(i) <= n
    ensures 0 <= n ==> 0 <= r && (r < BUCKET_CAPACITY ==> r * Pow2(i) <= n < (r + 1) * Pow2(i))
    ensures n < 0 ==> r <= 0 && (r - 1) * Pow2(i) < n <= r * Pow2(i)
  {
    TruncDivAtLeast(n, Pow2(i), BUCKET_CAPACITY);
    Min(BUCKET_CAPACITY, TruncDiv(n, Pow2(i)))
  }

  /** The sum of the sizes of buckets `lo` up to, not including, `hi`. */
  function BucketSum(n: int, lo: nat, hi: nat): int
    requires InExactRange(n) && lo <= hi
    decreases hi - lo
  {
    if lo == hi then 0 else BucketSize(n, lo) + BucketSum(n, lo + 1, hi)
  }

  /** Expected number of entries of the routing table of one node. */
  function RoutingTableSize(n: int): (r: int)
    requires InExactRange(n)
    ensures r <= MAX_ROUTING_TABLE_SIZE
    ensures 0 <= n ==> 0 <= r
    ensures n < 0 ==> r <= 0
  {
    BucketSumBounds(n, FIRST_BUCKET, END_BUCKET);
    BucketSum(n, FIRST_BUCKET, END_BUCKET)
  }

  lemma {:induction false} BucketSumBounds(n: int, lo: nat, hi: nat)
    requires InExactRange(n) && lo <= hi
    ensures BucketSum(n, lo, hi) <= BUCKET_CAPACITY * (hi - lo)
    ensures 0 <= n ==> 0 <= BucketSum(n, lo, hi)
    ensures n < 0 ==> BucketSum(n, lo, hi) <= 0
    decreases hi - lo
  {
    if lo < hi {
      BucketSumBounds(n, lo + 1, hi);
    }
  }

  /** The test vectors: 16 nodes fill buckets 1..5 with 8, 4, 2, 1, 0. */
  lemma BucketSizeExamples()
    ensures BucketSize(16, 1) == 8 && BucketSize(16, 2) == 4 && BucketSize(16, 3) == 2
    ensures BucketSize(16, 4) == 1 && BucketSize(16, 5) == 0
  {
  }

  /** A bucket is empty exactly when the network is smaller than its span. */
  lemma BucketEmptyIff(n: int, i: nat)
    requires InExactRange(n)
    ensures BucketSize(n, i) == 0 <==> WithinSpan(n, i)
  {
    var r := BucketSize(n, i);
    if WithinSpan(n, i) {
      if 0 <= n {
        MultipleBelowDivisor(r, Pow2(i));
      } else {
        MultipleBelowDivisor(-r, Pow2(i));
      }
    }
  }

  /** Farther buckets are never fuller: the estimate shrinks in magnitude as
      the bucket index grows. */
  lemma {:induction false} BucketSizeByIndex(n: int, i: nat, j: nat)
    requires InExactRange(n) && i <= j
    ensures 0 <= n ==> BucketSize(n, j) <= BucketSize(n, i)
    ensures n < 0 ==> BucketSize(n, i) <= BucketSize(n, j)
  {
    if i < j {
      BucketSizeByIndex(n, i, j - 1);
      var m := if 0 <= n then n else -n;
      assert Pow2(j) == Pow2(j - 1) * 2;
      DivisorAntitone(m, Pow2(j - 1), Pow2(j));
    }
  }

  /** A bucket's estimate never decreases as the network grows. */
  lemma BucketSizeMonotone(m: int, n: int, i: nat)
    requires InExactRange(m) && InExactRange(n) && m <= n
    ensures BucketSize(m, i) <= BucketSize(n, i)
  {
    TruncDivMonotone(m, n, Pow2(i));
  }

  lemma {:induction false} BucketSumMonotone(m: int, n: int, lo: nat, hi: nat)
    requires InExactRange(m) && InExactRange(n) && m <= n && lo <= hi
    ensures BucketSum(m, lo, hi) <= BucketSum(n, lo, hi)
    decreases hi - lo
  {
    if lo < hi {
      BucketSizeMonotone(m, n, lo);
      BucketSumMonotone(m, n, lo + 1, hi);
    }
  }

  /** The routing table never shrinks as the network grows. */
  lemma RoutingTableMonotone(m: int, n: int)
    requires InExactRange(m) && InExactRange(n) && m <= n
    ensures RoutingTableSize(m) <= RoutingTableSize(n)
  {
    BucketSumMonotone(m, n, FIRST_BUCKET, END_BUCKET);
  }

  /** Buckets whose span exceeds the network hold nothing. */
  lemma {:induction false} BucketSumZero(n: int, lo: nat, hi: nat)
    requires InExactRange(n) && lo <= hi && WithinSpan(n, lo)
    ensures BucketSum(n, lo, hi) == 0
    decreases hi - lo
  {
    if lo < hi {
      BucketEmptyIff(n, lo);
      BucketSumZero(n, lo + 1, hi);
    }
  }

  lemma {:induction false} BucketSumSplit(n: int, lo: nat, mid: nat, hi: nat)
    requires InExactRange(n) && lo <= mid <= hi
    ensures BucketSum(n, lo, hi) == BucketSum(n, lo, mid) + BucketSum(n, mid, hi)
    decreases mid - lo
  {
    if lo < mid {
      BucketSumSplit(n, lo + 1, mid, hi);
    }
  }

  /** Only the buckets below the first one that spans the whole network
      contribute to the routing table. */
  lemma RoutingTableUpTo(n: int, k: nat)
    requires InExactRange(n) && FIRST_BUCKET <= k <= END_BUCKET && WithinSpan(n, k)
    ensures RoutingTableSize(n) == BucketSum(n, FIRST_BUCKET, k)
  {
    BucketSumSplit(n, FIRST_BUCKET, k, END_BUCKET);
    BucketSumZero(n, k, END_BUCKET);
  }

  /** The routing table is empty exactly for networks of fewer than two
      nodes (including negative sizes above -2), positive for larger ones and
      negative for sizes of -2 and below. */
  lemma RoutingTableSign(n: int)
    requires InExactRange(n)
    ensures RoutingTableSize(n) == 0 <==> -2 < n < 2
    ensures 0 < RoutingTableSize(n) <==> 2 <= n
  {
    BucketEmptyIff(n, FIRST_BUCKET);
    BucketSumBounds(n, FIRST_BUCKET + 1, END_BUCKET);
    if -2 < n < 2 {
      BucketSumZero(n, FIRST_BUCKET, END_BUCKET);
    }
  }

  /** The expected size for the first network size of the rendered table:
      buckets 1 to 5 are full, then 15, 7, 3 and 1. */
  lemma NetworkSizeExample()
    ensures RoutingTableSize(1000) == 106
  {
    Pow2Add(5, 5);
    assert Pow2(5) == 32 && Pow2(10) == 1024;
    RoutingTableUpTo(1000, 10);
    assert BucketSum(1000, 6, 10) == 15 + 7 + 3 + 1;
    assert BucketSum(1000, 1, 6) == 5 * BUCKET_CAPACITY + BucketSum(1000, 6, 6);
    BucketSumSplit(1000, 1, 6, 10);
  }

  // Below 34 nodes no bucket from 1 up is capped, so the table holds
  // n/2 + n/4 + ... entries, which sums to n minus the number of one bits of n.

  /** The number of one bits of `n`. */
  function Popcount(n: nat): nat {
    if n == 0 then 0 else n % 2 + Popcount(n / 2)
  }

  /** `n/2 + n/4 + n/8 + ...` with every quotient rounded down. */
  function HalvingSum(n: nat): nat {
    if n == 0 then 0 else n / 2 + HalvingSum(n / 2)
  }

  /** The sum of `n / 2**i` over `lo <= i < hi`, with no capacity cap. */
  function UncappedSum(n: nat, lo: nat, hi: nat): int
    requires lo <= hi
    decreases hi - lo
  {
    if lo == hi then 0 else n / Pow2(lo) + UncappedSum(n, lo + 1, hi)
  }

  lemma {:induction false} HalvingSumIsNMinusPopcount(n: nat)
    ensures HalvingSum(n) == n - Popcount(n)
  {
    if n > 0 {
      HalvingSumIsNMinusPopcount(n / 2);
    }
  }

  lemma {:induction false} UncappedShift(n: nat, lo: nat, hi: nat)
    requires lo <= hi
    ensures UncappedSum(n, lo + 1, hi + 1) == UncappedSum(n / 2, lo, hi)
    decreases hi - lo
  {
    if lo < hi {
      HalveThenDivide(n, lo);
      UncappedShift(n, lo + 1, hi);
    }
  }

  lemma {:induction false} UncappedIsHalvingSum(n: nat, hi: nat)
    requires 1 <= hi && n < Pow2(hi)
    ensures UncappedSum(n, 1, hi) == HalvingSum(n)
  {
    if hi > 1 {
      UncappedShift(n, 1, hi - 1);
      UncappedIsHalvingSum(n / 2, hi - 1);
    }
  }

  lemma {:induction false} CappedIsUncapped(n: int, lo: nat, hi: nat)
    requires 0 <= n < 2 * (BUCKET_CAPACITY + 1) && 1 <= lo <= hi
    ensures BucketSum(n, lo, hi) == UncappedSum(n, lo, hi)
    decreases hi - lo
  {
    if lo < hi {
      Pow2Monotone(1, lo);
      DivisorAntitone(n, 2, Pow2(lo));
      CappedIsUncapped(n, lo + 1, hi);
    }
  }

  /** For networks of fewer than 34 nodes no bucket fills up, and the table
      holds `n` minus the number of one bits of `n` entries (15 for 16 nodes). */
  lemma RoutingTableSmall(n: int)
    requires 0 <= n < 2 * (BUCKET_CAPACITY + 1)
    ensures RoutingTableSize(n) == n - Popcount(n)
  {
    Pow2Monotone(6, END_BUCKET);
    CappedIsUncapped(n, FIRST_BUCKET, END_BUCKET);
    UncappedIsHalvingSum(n, END_BUCKET);
    HalvingSumIsNMinusPopcount(n);
  }

  /** Whether `math.log2` of some row's routing-table size fails. */
  predicate SomeTableEmpty(sizes: seq<int>)
    requires forall k :: 0 <= k < |sizes| ==> InExactRange(sizes[k])
  {
    exists k :: 0 <= k < |sizes| && RoutingTableSize(sizes[k]) <= 0
  }

  /** The first two cells of each row of the rendered routing-table
      statistics (network size, routing table size); the third cell is the
      base-2 logarithm of the second, which fails for a size that is not
      positive. */
  function RoutingTableRows(sizes: seq<int>): (r: Result<seq<(string, string)>>)
    requires forall k :: 0 <= k < |sizes| ==> InExactRange(sizes[k])
    ensures r.Err? <==> exists k :: 0 <= k < |sizes| && sizes[k] < 2
    ensures r.Err? ==> r.error == MathDomainError
    ensures r.Ok? ==> |r.value| == |sizes|
    ensures r.Ok? ==> forall k :: 0 <= k < |sizes| ==>
      ReadsAs(r.value[k].0, sizes[k]) && ReadsAs(r.value[k].1, RoutingTableSize(sizes[k]))
  {
    SomeTableEmptyIff(sizes);
    if SomeTableEmpty(sizes) then Err(MathDomainError)
    else
      Ok(seq(|sizes|, k requires 0 <= k < |sizes| =>
        (DecimalString(sizes[k]), DecimalString(RoutingTableSize(sizes[k])))))
  }

  lemma SomeTableEmptyIff(sizes: seq<int>)
    requires forall k :: 0 <= k < |sizes| ==> InExactRange(sizes[k])
    ensures SomeTableEmpty(sizes) <==> exists k :: 0 <= k < |sizes| && sizes[k] < 2
  {
    forall k | 0 <= k < |sizes|
      ensures RoutingTableSize(sizes[k]) <= 0 <==> sizes[k] < 2
    {
      RoutingTableSign(sizes[k]);
    }
  }
}
