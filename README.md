# Portal network sizing estimates, modelled in Dafny

This project models the back-of-envelope calculators in `portal.py` of the
Portal network specifications repository, together with the two constants
they take from `accumulator.py`:

- **Routing table size.** A Kademlia bucket `i` is expected to hold
  `n / 2**i` of the `n` nodes of the network, truncated and capped at 16
  (`get_bucket_size`). A node's routing table is the sum over buckets 1 to 255
  (`get_routing_table_size`).
- **Human-readable byte counts.** `humanize_bytes` shows a count in the largest
  of TB, GB, MB and KB (powers of 1024) that it strictly exceeds, with one
  decimal. Otherwise it shows the bare count followed by `B`.
- **Accumulator size.** For each block height, `render_accumulator_stats`
  estimates the history size as `32 * height // epoch_size`. The maximum
  size adds one full epoch of 64-byte header records. The default epoch
  size is 8192.

The model is written as pure functions and lemmas, like the source, which
mutates nothing. Python's numeric operators are modelled explicitly in
`python_ints.dfy`:

- `int(a / d)` is true division truncated toward zero.
- `//` is floor division.
- `2**i` is `Pow2`.

Integer formatting with `:n` (under the C locale) and `:0.1f` formatting are
modelled in `decimal_text.dfy` and `byte_units.dfy`. Every rendered text is
paired with a parser. Lemmas show that each canonical text is the one
rendering of its value, for `:n` integers (`DecimalStringUnique`), one-decimal
texts (`ReadsAsTenthsUnique`) and whole `humanize_bytes` texts
(`HumanizeBytesUnique`).

Modules: `PythonInts`, `DecimalText`, `Outcomes` (the Python exceptions that
can occur: `ZeroDivisionError`, and the `ValueError` raised by `math.log2`),
`RoutingTable`, `ByteUnits`, `AccumulatorStats`.

## Model

| member | source | states |
|---|---|---|
| PythonInts.Pow2 | portal.py:7 | `2**i` is at least 1 |
| PythonInts.TruncDiv | portal.py:7 | `int(a / d)` for an exact quotient: the quotient rounded toward zero (`q*d <= a < (q+1)*d` for `a >= 0`, `(q-1)*d < a <= q*d` below) |
| PythonInts.FloorDiv | portal.py:65 | `a // b` is the floor of the quotient for either sign of divisor |
| PythonInts.FloorQuotientUnique | portal.py:65 | any integer satisfying the floor characterisation is `a // b` |
| PythonInts.TruncDivMonotone | portal.py:7 | `int(a / d)` never decreases as `a` grows |
| PythonInts.MaxExactIntIsPow2 | portal.py:7 | the exactness bound used for the float division is `2**53` |
| DecimalText.DecimalString | portal.py:36 | `f"{n:n}"` (C locale) is canonical decimal text that parses back to `n`, with a minus sign exactly when `n < 0` |
| DecimalText.DecimalStringUnique | portal.py:36 | any canonical decimal text that reads as `v` is exactly the rendering of `v` |
| DecimalText.DecimalDigitsOfParse | portal.py:36 | every canonical numeral is the rendering of the value it parses to |
| DecimalText.ParseDecimalDigits | portal.py:36 | the digits of `n` parse back to `n` |
| RoutingTable.BucketSize | portal.py:6-7 | bucket size never exceeds 16 and is 16 exactly when `16 * 2**i <= n`; otherwise for `n >= 0` it is `n div 2**i` (floor characterisation), and for `n < 0` the quotient truncated toward zero |
| RoutingTable.BucketEmptyIff | portal.py:7 | a bucket is 0 exactly when `-2**i < n < 2**i` |
| RoutingTable.BucketSizeByIndex | portal.py:7 | for `n >= 0` bucket size is non-increasing in the bucket index (non-decreasing toward 0 for `n < 0`) |
| RoutingTable.BucketSizeMonotone | portal.py:7 | each bucket's size is non-decreasing in the network size |
| RoutingTable.BucketSizeExamples | portal.py:137-149 | `n = 16` gives 8, 4, 2, 1, 0 for buckets 1 to 5 |
| RoutingTable.RoutingTableSize | portal.py:9-13 | the sum over buckets 1..255 is at most 16*255 = 4080, non-negative for `n >= 0` and non-positive below |
| RoutingTable.BucketSumBounds | portal.py:9-13 | a sum over `hi - lo` buckets is at most `16*(hi - lo)`, with the sign of `n` |
| RoutingTable.RoutingTableMonotone | portal.py:9-13 | the routing table size is non-decreasing in the network size |
| RoutingTable.BucketSumMonotone | portal.py:9-13 | every partial bucket sum is non-decreasing in the network size |
| RoutingTable.RoutingTableSign | portal.py:9-13 | the size is 0 exactly when `-2 < n < 2` and positive exactly when `n >= 2` (bucket 0 is excluded) |
| RoutingTable.RoutingTableUpTo | portal.py:9-13 | buckets from the first one whose span exceeds the network contribute nothing |
| RoutingTable.BucketSumZero | portal.py:9-13 | buckets whose span exceeds the magnitude of `n` sum to 0 |
| RoutingTable.BucketSumSplit | portal.py:9-13 | a bucket sum splits at any middle index |
| RoutingTable.RoutingTableSmall | portal.py:9-13 | below 34 nodes no bucket is capped and the size is `n` minus the number of one bits of `n` (15 for 16 nodes) |
| RoutingTable.CappedIsUncapped | portal.py:7 | below 34 nodes the cap of 16 never applies to buckets from 1 up |
| RoutingTable.UncappedIsHalvingSum | portal.py:9-13 | the uncapped sum of `n div 2**i` over buckets 1.. equals `n/2 + n/4 + ...` |
| RoutingTable.UncappedShift | portal.py:9-13 | shifting the bucket range by one is halving the network |
| RoutingTable.HalvingSumIsNMinusPopcount | portal.py:9-13 | `n/2 + n/4 + ...` (rounded down) equals `n` minus its number of one bits |
| RoutingTable.NetworkSizeExample | portal.py:39 | a network of 1000 nodes gives a routing table of 106 entries |
| RoutingTable.RoutingTableRows | portal.py:42-53 | the table fails (`math.log2` domain error) exactly when some network size is below 2; otherwise one row per size, in order, whose two cells read back as the size and its routing-table size |
| ByteUnits.UnitsArePowersOf1024 | portal.py:20-23 | KB, MB, GB and TB are `2**10`, `2**20`, `2**30` and `2**40` |
| ByteUnits.ChooseUnit | portal.py:26-36 | TB iff `n > TB`, GB iff `GB < n <= TB`, MB iff `MB < n <= GB`, KB iff `KB < n <= MB`, bytes iff `n <= KB` |
| ByteUnits.RoundHalfEven | portal.py:28-34 | the rounding the `:0.1f` format spec applies: nearest integer to `num/den`, ties to even |
| ByteUnits.RoundHalfEvenUnique | portal.py:28-34 | nearest-with-ties-to-even determines the rounded value uniquely |
| ByteUnits.OneDecimal | portal.py:28-34 | for an exact quotient, `f"{n / scale:0.1f}"` is a numeral, a point and one digit reading as `10n/scale` rounded half-to-even |
| ByteUnits.ReadsAsTenthsUnique | portal.py:28-34 | any numeral-point-digit text reading as the rounded tenths of `n/scale` is exactly `f"{n / scale:0.1f}"` |
| ByteUnits.HumanizeBytes | portal.py:26-36 | the text ends in the chosen unit's suffix; in bytes the rest reads back as `n` exactly; otherwise it reads as the count in tenths of the unit, rounded half-to-even |
| ByteUnits.HumanizeBytesUnique | portal.py:26-36 | a text with the chosen unit's suffix whose rest reads as the count (bytes) or its rounded tenths (larger units) is exactly `humanize_bytes(n)` |
| ByteUnits.ScaledTextRange | portal.py:26-34 | a scaled text is within half a tenth of the true count in its unit, never below 1.0 and, below TB, never above 1024.0 |
| ByteUnits.HumanizeByteExamples | portal.py:152-160 | 0 renders as `"0B"` and exactly 1024 stays in bytes as `"1024B"` |
| ByteUnits.HumanizeKilobyteExamples | portal.py:26-36 | 1025 renders as `"1.0KB"` and 1280 (1.25 KB) as `"1.2KB"`, the tie going to the even tenth |
| AccumulatorStats.AccumulatorSizes | portal.py:62-69 | raises `ZeroDivisionError` exactly when the epoch size is 0 and some height is given; otherwise one row per height in input order, history size `32*h // e` (floor characterisation) and max minus history `= 64*e` |
| AccumulatorStats.FullEpochSize | portal.py:64 | with the default epoch size a full epoch of records is 512 KiB (524288 bytes) |
| AccumulatorStats.DefaultSizes | portal.py:59-69 | the default heights give history sizes 390, 3906, 39062, 58593, 117187 and max sizes 524678, 528194, 563350, 582881, 641475 |
| AccumulatorStats.SizesFollowHeights | portal.py:65-69 | with a positive epoch size, a higher block never has a smaller history or max size |
| AccumulatorStats.HistoryBetweenCompletedEpochs | portal.py:65 | the pro-rated history size lies in `[32*(h div e), 32*(h div e + 1))`: the roots of the completed epochs plus less than one more |
| AccumulatorStats.HistoryWithinCapacity | accumulator.py:1-2 | up to `8192 * 2**20` blocks, the estimate stays within `32 * 2**20` bytes, the room of the history list |
| AccumulatorStats.AccumulatorCells | portal.py:66-70 | one cell triple per row, in order; the height cell reads back as the block number |
| AccumulatorStats.DefaultFirstRowSizes | portal.py:65-67 | the first default row's sizes render as `"390B"` and `"512.4KB"` |
| AccumulatorStats.DefaultFirstRowCells | portal.py:59-67 | the first default row renders as `("100000", "390B", "512.4KB")` |

## Left out

- RoutingTable.BucketSize: requires `|n| <= 2**53`. Up to that bound `n / 2**i` is an exact double, so truncating it is exact. Above it, Python's float rounding can differ from the exact quotient. For example, `(2**64 - 1) / 2**60` rounds to 16.0. The same bound is carried by `RoutingTableSize`, `RoutingTableRows` and the lemmas about them.
- RoutingTable.BucketSize: the bucket index is a natural number. Python would also accept a negative index, giving `2**i` as a float, but the source only calls it with indices 1..255.
- ByteUnits.HumanizeBytes: requires `n <= 2**53`, for the same reason: above that bound, `n / 1024**k` may be rounded before formatting.
- AccumulatorStats.AccumulatorCells: its contract states only the height cell. The size cells are `HumanizeBytes` texts. What those texts show is stated by `HumanizeBytes` and `ScaledTextRange`, and `DefaultFirstRowCells` checks one full row.
- RoutingTable.NetworkSizeExample: checks only the first default network size (1000). The other six sizes are not evaluated concretely.
- Locale: `:n` formatting is modelled under the C locale, with no digit grouping. `do_rendering` calls `locale.setlocale(locale.LC_ALL, '')`, and under a grouping locale the digits would be separated.
- The `Log2` column of the routing-table table is float formatting and is not modelled. Only its failure for a size that is not positive is modelled.
- Table rendering with `snakemd`, `print`, `setlocale`, `do_rendering` and the `__main__` entry: I/O and a foreign library.
- `get_header_gossip_network_storage_range` and `get_average_storage_requirements` are empty stubs. `StorageProfile` has no behaviour. The pytest functions are the test vectors used in the example lemmas, not model content.
- `accumulator.py` declares SSZ container types through `remerkleable`. Only its two constants are used here.
- `rlp_sedes.py` (RLP and keccak through foreign libraries, plus fetching headers from a node), `w3_access_list.py` and `w3_debug_trace.py` (web3 RPC registration and trace data shapes), and `jsonrpc/scripts/build.js` (file I/O and an OpenRPC library call) are not part of this model.
- Access lists from execution traces: `w3_debug_trace.py` only declares the trace entry and trace shapes, and `w3_access_list.py` only registers RPC methods. No source file computes an access list from a trace, so none is modelled.
