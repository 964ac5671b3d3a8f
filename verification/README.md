# Verified models of go-ycsb

go-ycsb drives databases with synthetic workloads. Around its drivers it has a handful of algorithms
whose correctness is not visible in any one function. This project models those in Dafny and proves
what they promise, for all inputs and, where threads or operation sequences are involved, for all runs.

| file | models |
|---|---|
| `AckProtocol.dfy`, `AckCounter.dfy` | the acknowledged-insert counter: as interleaved atomic steps of any number of threads, and as a class over an in-place ring |
| `Varint.dfy`, `Row.dfy`, `RowCodec.dfy` | zigzag varints, the row format, rows as field maps |
| `BadgerStore.dfy` | the badger driver over an ordered byte map, as a refinement of key -> field -> value |
| `Integrity.dfy` | deterministic values, row verification and the read, update and insert transactions |
| `AckedRows.dfy` | the transaction phase as a whole: the counter, the store and the integrity check together |
| `Discrete.dfy`, `MixGraph.dfy`, `KeyNames.dfy` | the weighted wheel, the MixGraph key chooser, zero-padded key names |
| `Zipfian.dfy` | the incrementally extended zeta sum under double-checked locking |
| `LoadRun.dfy`, `LoadedTable.dfy` | worker quotas, the insert loop, the interleaved load phase, and the stored bytes it leaves |
| `S3Scan.dfy`, `MySqlInsert.dfy`, `MySqlText.dfy`, `ShardedMap.dfy` | the paged scan, the multi-row insert and its statement text, the sharded map |
| `Lexicographic.dfy`, `Decimal.dfy`, `Options.dfy` | key order, decimal rendering and optional values, used by the others |

`dafny verify dfyconfig.toml` checks everything.

## Conventions

- What the program draws at random, reads from a clock or computes with `exp`, `log`, `pow` or a hash is a
  parameter, so a result holds for every value of it. Floats are reals, with infinities and NaN where the code
  may divide by zero. Integers are unbounded except where the code relies on 64-bit words: varints, hashes and
  casts are modelled with their wrap-around.
- A thread's program is a chain of positions (`Pc`), one shared-memory access per step. A schedule names
  the thread that moves next, and a theorem about runs quantifies over all schedules. Fields called history
  in the comments are read by no step.
- A class method states the whole new state. Where its effect depends on Go's map iteration order, a
  predicate such as `EncodingOf` or `ByteStep` says which outcomes are possible.
- The ring of the acknowledged counter is exact only while issued ids stay within `limit + 2^20`. The code
  does not enforce this; `AckProtocol.Enabled` makes it the guard of drawing an id. Past the window marking
  breaks the ring and the panic test catches it only if the id one lap back is acknowledged
  (`AckProtocol.PastTheWindow`).

## Where the code does not do what it says

- Last() can fall behind for good once all calls have ended: a thread that marks its id after the sweeper
  has read the slot, and then loses the try-lock, leaves the id behind (`AckProtocol.LastCanLag`; the exact
  condition is `AckProtocol.CaughtUpIff`).
- The loop guard `index != beforeFirstSlot` keeps a sweep from covering what was acknowledged when it began,
  exactly when it began at a limit in [-2^20, 0) with all 2^20 ids after it acknowledged
  (`AckProtocol.SweepReachesMarkedPrefixIff`, `AckCounter.SweepRepresents`; an instance is
  `AckCounter.GuardCutsShort`, a run that gets there `AckCounter.FirstAcknowledgedLast`). When ids are marked
  during the sweep the guard can also end a loop that has covered those already (`AckProtocol.GuardEndsLoopIff`).
- Last() reports ids whose insert failed (`AckedRows.Setup.FailedIsReported`). With distinct key names a reported
  id reads back exactly when its insert succeeded, and with any names if it did
  (`AckedRows.Setup.ReportedReadsBackIff`).
- Key names sort in numeric order exactly for key counts up to 10^max(zeropadding, 1)
  (`KeyNames.NamesOrderedIff`, `KeyNames.PaddingIsNeeded`).
- A comment says that the MixGraph region size is always 100000 (pkg/workload/core.go:708). It is exactly
  when `recordCount >= 1000000` and `recordCount % 100000 < recordCount / 100000`
  (`KeyNames.RegionSizeIff`, `KeyNames.RegionSizeNotAlways`).
- The insert retry loop is documented to retry failures (pkg/workload/core.go:287-289). It stops on a
  failure and repeats a success (`LoadRun.InsertWithRetry`).
- A MixGraph whose weights are all zero always draws its coldest region (`MixGraph.DrawsIff`, an instance is
  `MixGraph.WithoutWeight`), and a wheel whose weights add up to zero panics unless its first weight is positive
  (`Discrete.Discrete.Next`, instances in `Discrete.WheelsThatPanic`).
- A Zipfian draw that was compared with n can use a zetan that is not the sum for n: because the count is
  noted before the sum is written (`Zipfian.UnlockedReadCanBeStale`), or because another caller completed an
  update in between (`Zipfian.DrawCanBeOvertaken`). It uses the right sum exactly when n is the count that
  zetan belongs to at the draw: countForZeta if no thread is inside its summing loop, otherwise the count
  noted before that update (`Zipfian.DrawExactIff`).
- An S3 scan with keys only returns a start key that does not exist, and a scan from the empty key leaves
  out the record whose key is empty (`S3Scan.InventedStartKey`, `S3Scan.EmptyKeyLeftOut`; the exact condition
  is `S3Scan.ScanExactIff`).
- A MySQL batch whose rows have different fields files values under the first row's names
  (`MySqlInsert.BatchMisfiles`; the exact condition is `MySqlInsert.BatchEqualsEachIff`), and one with a wrong
  number of arguments is lost as a whole (`MySqlInsert.RefusedBatch`, an instance is `MySqlInsert.BatchLost`).

## Model

| member | source | states |
|---|---|---|
| `AckProtocol.StepKeepsInv` | pkg/generator/acknowledged_counter.go:70-110 | every atomic step of every thread keeps the ring exact, one thread in the critical section, ids owned at most once and none lost; limit and the acknowledged set only grow |
| `AckProtocol.Safety` | pkg/generator/acknowledged_counter.go:70-110 | in every interleaving: start..Last() all acknowledged, each slot true exactly when its one unswept id is marked (also mid-sweep), the panic unreachable |
| `AckProtocol.LastNeverDecreases` | pkg/generator/acknowledged_counter.go:75-77 | Last() is monotone between any two points of any run |
| `AckProtocol.VettingSucceeds` | pkg/generator/acknowledged_counter.go:81-84 | the slot of an issued, unacknowledged id is free in every reachable state |
| `AckProtocol.MarkKeepsRing` | pkg/generator/acknowledged_counter.go:86 | marking an issued id disturbs no other id's slot |
| `AckProtocol.PastTheWindow` | pkg/generator/acknowledged_counter.go:80-86 | up to a lap past the window: the panic test fires iff the id one lap back is acknowledged; marking an id it lets pass keeps the ring exact iff the id is inside the window, and otherwise the id one lap back counts as marked |
| `AckProtocol.ClearKeepsRing` | pkg/generator/acknowledged_counter.go:100-107 | clearing the next id's slot hands the slot to the id one lap later, which is not marked |
| `AckProtocol.TryLockKeepsInv` | pkg/util/spinlock.go:41-43 | the compare-and-swap admits a thread only when no other is inside; that it does admit one then is FreeLockSweeps |
| `AckProtocol.NeverStuck` | pkg/generator/acknowledged_counter.go:70-110 | every thread can move in every reachable state, except that drawing an id waits while 2^20 ids are out |
| `AckProtocol.FreeLockSweeps` | pkg/generator/acknowledged_counter.go:88-109 | any thread that finds the lock free, from any reachable state, running alone: its call ends with the lock free, nothing else touched, and the limit the largest n with start..n acknowledged iff the guard does not fire |
| `AckProtocol.CallAlone` | pkg/generator/acknowledged_counter.go:70-110 | a whole Next and Acknowledge running alone acknowledges exactly the id it drew, with the same exact limit |
| `AckProtocol.TakenLockReturns` | pkg/generator/acknowledged_counter.go:88-92 | a thread that finds the lock taken returns at once and changes nothing else |
| `AckProtocol.UnlockKeepsInv` | pkg/util/spinlock.go:36-38 | after Unlock no thread is inside and limit equals the last swept id |
| `AckProtocol.IssueKeepsInv` | pkg/generator/counter.go:51-53 | the atomic add gives every thread an id nobody else holds |
| `AckProtocol.SweepReachesMarkedPrefixIff` | pkg/generator/acknowledged_counter.go:97-109 | a published limit covers every n with start..n acknowledged when the sweep began, iff not (the sweep began at a limit in [-2^20, 0) with all 2^20 ids after it acknowledged); otherwise it stops one id short |
| `AckProtocol.LaterSweepCatchesUp` | pkg/generator/acknowledged_counter.go:88-109 | over whole runs: once start..n are acknowledged, every sweep begun later, by any thread, publishes at least n unless the guard fires, and always for a positive start |
| `AckProtocol.GuardEndsLoopIff` | pkg/generator/acknowledged_counter.go:98-100 | the index guard ends the loop iff the limit is in [-2^20, 0) and the index is 2^20 past it, so never for a non-negative limit |
| `AckProtocol.SweepIsBounded` | pkg/generator/acknowledged_counter.go:100-107 | a sweep clears at most 2^20 slots whatever others mark meanwhile |
| `AckProtocol.CaughtUpIff` | pkg/generator/acknowledged_counter.go:80-110 | at rest every issued id is acknowledged, and Last() reports all of them iff the slot after it is free |
| `AckProtocol.LastCanLag` | pkg/generator/acknowledged_counter.go:86-92 | a schedule of two threads that comes to rest with an acknowledged id Last() does not report |
| `AckCounter.SweepRepresents` | pkg/generator/acknowledged_counter.go:97-109 | a sweep keeps the represented set; the new limit is the largest n with start..n acknowledged iff the guard condition on the old limit and the acknowledged ids does not hold |
| `AckCounter.GuardCutsShort` | pkg/generator/acknowledged_counter.go:97-109 | from limit -1 with a full ring the sweep ends at 2^20 - 2 although 2^20 - 1 is acknowledged too |
| `AckCounter.TakeOne` | pkg/generator/acknowledged_counter.go:101-106 | one loop round takes exactly one more id; no round can take a slot of the next lap |
| `AckCounter.AcknowledgedCounter.constructor` | pkg/generator/acknowledged_counter.go:60-67 | starts with an empty set, limit start-1 and a clear ring |
| `AckCounter.AcknowledgedCounter.Next` | pkg/generator/acknowledged_counter.go:70-72 | returns the counter and advances it by one |
| `AckCounter.AcknowledgedCounter.Sweep` | pkg/generator/acknowledged_counter.go:97-109 | the loop terminates and relates old and new ring and limit slot by slot, for any ring and any limit |
| `AckCounter.AcknowledgedCounter.Acknowledge` | pkg/generator/acknowledged_counter.go:80-110 | panics iff the slot is taken; with the lock taken only marks; with the lock free marks and sweeps, and for an issued id in the window the limit becomes the largest n with start..n acknowledged iff the guard does not fire |
| `AckCounter.FirstAcknowledgedLast` | pkg/generator/acknowledged_counter.go:69-110 | a run from start 0 that acknowledges 0..2^20-1, the first of them last, and ends with Last() at 2^20 - 2 |
| `Varint.ZigZagRoundTrip` | pkg/util/row.go:58-62 | unzigzag inverts zigzag for every int64 |
| `Varint.Uvarint` | pkg/util/row.go:95-104 | an accepted varint is below 2^64 and consumes between one byte and the whole input |
| `Varint.UvarintReadsBack` | pkg/util/row.go:95-104 | reading at any position returns the number written there, whatever follows |
| `Varint.UvarintCanonical` | pkg/util/row.go:58-62 | exactly the last byte lacks the continuation bit, and it is not a needless zero |
| `Varint.VarintBytes` | pkg/util/row.go:58-62 | the bytes carry, seven bits each and low bits first, 2x for x >= 0 and -2x-1 for x < 0 |
| `Varint.UvarintWorth` | pkg/util/row.go:95-104 | for every byte string, encoded or not: too short, overflow or the number up to the first byte without continuation bit, decided exactly |
| `Varint.VarintRoundTrip` | pkg/util/row.go:58-62 | every int64 followed by any suffix decodes to itself after its own 1 to 10 bytes |
| `Row.EncodeRow` | pkg/util/row.go:27-40 | count mismatch is an error; otherwise the layout of the columns in order, independent of the buffer's old contents |
| `Row.ColumnBytes` | pkg/util/row.go:42-62 | a column is byte 8, the zigzag varint of the id, byte 2, the zigzag varint of the length and the value |
| `Row.DecodeRow` | pkg/util/row.go:67-89 | the loop computes the recursive decoding, with the partial row and the error on malformed input |
| `Row.DecodeColumn` | pkg/util/row.go:91-115 | an encoded column decodes to its id and value and leaves exactly the suffix |
| `Row.ColumnsRoundTrip` | pkg/util/row.go:67-89 | decoding encoded columns yields the overlay of the columns, last value of an id winning, for any ids |
| `Row.EmptyRowIsUnmistakable` | pkg/util/row.go:32-34 | the one-byte empty row is the encoding of no non-empty row |
| `Row.RowRoundTrip` | pkg/util/row.go:27-115 | for distinct ids in any order decoding gives exactly the id -> value map without error |
| `RowCodec.FieldNameInjective` | pkg/util/core.go:26-34 | different field numbers have different names |
| `RowCodec.FieldNameReads` | pkg/util/core.go:26-34 | a field name is "field" and a decimal that denotes its number |
| `RowCodec.CreateFieldIndices` | pkg/util/core.go:26-34 | field i is mapped to i and nothing else is mapped |
| `RowCodec.NewRowCodec` | pkg/util/core.go:54-59 | fields are distinct and each is indexed by its position |
| `RowCodec.Encode` | pkg/util/core.go:84-96 | never fails; the result is the layout of the values in some iteration order |
| `RowCodec.Decode` | pkg/util/core.go:62-81 | exactly the requested fields, or all known ones when none is requested, that the decoded row has a value for; or the decoding error |
| `RowCodec.FieldRoundTrip` | pkg/util/core.go:62-96 | a known field comes back with its value iff it was written |
| `RowCodec.CodecRoundTrip` | pkg/util/core.go:62-96 | decode after encode is the original map restricted to the requested known fields, for every iteration order |
| `RowCodec.ChosenRoundTrip` | pkg/util/core.go:62-96 | decode after encode holds exactly the written fields f with no field requested or f requested |
| `RowCodec.UnknownLandsOnFirst` | pkg/util/core.go:84-96 | a row of one unknown field comes back as the first field |
| `RowCodec.RoundTripIffKnown` | pkg/util/core.go:84-96 | reading all fields back gives the written map iff every written field is known |
| `BadgerStore.BadgerDB.Account` | db/badger/db.go:365-370 | logical bytes are conserved between the local and the global count, and the local one is flushed exactly when it reaches a mebibyte |
| `BadgerStore.BadgerDB.Read` | db/badger/db.go:279-297 | not found, decoding error or the projected row |
| `BadgerStore.BadgerDB.Iterate` | db/badger/db.go:303-307 | the iterator yields the stored keys at or after the seek key in ascending order |
| `BadgerStore.BadgerDB.Scan` | db/badger/db.go:299-327 | the first rows at or after the start in key order, then nils up to count; an error iff one of those rows does not decode, with the rows before it and nils beside the error |
| `BadgerStore.BadgerDB.Update` | db/badger/db.go:329-377 | a missing key changes nothing; otherwise the row becomes an encoding of the merged fields |
| `BadgerStore.BadgerDB.Insert` | db/badger/db.go:379-411 | the row becomes an encoding of the values; no other key changes |
| `BadgerStore.BadgerDB.Delete` | db/badger/db.go:413-429 | exactly the key is removed |
| `BadgerStore.KeysAgree` | db/badger/db.go:275-277 | stored keys at or after table:start are the table's keys at or after start, in the same order |
| `BadgerStore.UpdateRefines` | db/badger/db.go:329-377 | update merges into the existing row |
| `BadgerStore.ScanRefines` | db/badger/db.go:299-327 | a scan of the bytes is the scan of the table, padded with nils |
| `BadgerStore.StepRefines` | db/badger/db.go:275-429 | one byte-level operation is one operation on the key -> field -> value map, with the same answer |
| `BadgerStore.RunRefines` | db/badger/db.go:275-429 | in every operation sequence from an empty store every answer is that of the plain map |
| `BadgerStore.ReadShows` | db/badger/db.go:279-297 | in every run a read of a present row shows exactly the fields asked for, all of them when none is named, with the row's values; and finds nothing iff the row is absent |
| `BadgerStore.ScanShows` | db/badger/db.go:299-327 | in every run row i of a scan shows the i-th row at or after the start in the same way, and is nil iff there is none |
| `BadgerStore.TablesDisjoint` | db/badger/db.go:275-277 | tables whose names have no colon share no row key |
| `Integrity.Round` | pkg/workload/core.go:239-241 | a round adds between 2 and 21 bytes |
| `Integrity.BuildDeterministicValue` | pkg/workload/core.go:229-245 | terminates with exactly size bytes, spelled out by the head and chunks below; the buffer is outgrown iff key:field did not fit to begin with |
| `Integrity.DeterministicSpelled` | pkg/workload/core.go:234-244 | the value is cut from the key's bytes, a colon, the lowercased field, and then chunks, each a colon and the decimal hash of everything up to and with it, as many as the size takes |
| `Integrity.SpelledUnique` | pkg/workload/core.go:234-244 | nothing else is spelled out that way, so the value depends on key, lowercased field and size only |
| `Integrity.Workload.BuildValues` | pkg/workload/core.go:190-204 | the full row: exactly the configured fields, each with its deterministic value |
| `Integrity.Workload.BuildSingleValue` | pkg/workload/core.go:172-188 | exactly the chosen field with its deterministic value |
| `Integrity.Workload.VerifyRow` | pkg/workload/core.go:247-259 | accepts a row iff every value is the deterministic one |
| `Integrity.Workload.StaysGenuine` | pkg/workload/core.go:505-558 | any sequence of operations as the workload issues them leaves only deterministic values |
| `Integrity.Workload.EveryReadVerifies` | pkg/workload/core.go:430-503 | in every byte-level run from an empty store no read yields a row that fails verification |
| `Integrity.Workload.DoInsert` | pkg/workload/core.go:505-514 | the key then holds the full deterministic row in every table the bytes stand for; a sound store stays sound; the acknowledgement is part of AckedRows |
| `Integrity.Workload.DoUpdate` | pkg/workload/core.go:540-558 | merges the full row or the chosen field into an existing row; a missing key leaves the store unchanged; a sound store stays sound |
| `Integrity.Workload.DoRead` | pkg/workload/core.go:430-457 | answers with all or the chosen field of the row; passes iff what was read is deterministic, hence always in a sound store |
| `Integrity.Workload.DoReadModifyWrite` | pkg/workload/core.go:459-503 | has the effect and the answer of the update; its verdict is about what was read before the write, hence never a mismatch in a sound store |
| `AckedRows.Setup.StepKeepsInv` | pkg/workload/core.go:505-514 | every step of a thread (draw, insert with either outcome, acknowledge, sweep) or a client keeps every stored row full and every acknowledged id accounted for |
| `AckedRows.Setup.InsertOutcome` | pkg/workload/core.go:505-514 | an insert step stores the full row under the id's name or counts the id as failed, as it went |
| `AckedRows.Setup.ReportedReadsBackIff` | pkg/workload/core.go:505-514 | in every interleaving and through the encoded bytes, an id from start to Last() reads back as its full genuine row iff its insert succeeded (distinct names), and when all inserts succeed all of them do (any names) |
| `AckedRows.Setup.FailedIsReported` | pkg/workload/core.go:508-513 | a run in which Last() reports an id whose insert failed and nothing is stored |
| `AckedRows.Setup.OrderedNamesInjective` | pkg/workload/core.go:163-170 | the names of ordered inserts are distinct in the sense that theorem needs |
| `Discrete.SelectsIffBetween` | pkg/generator/discrete.go:62-70 | with weights that are not negative, the first sector whose normalised prefix sum exceeds the draw is the one whose prefix sums enclose it |
| `Discrete.Discrete.Next` | pkg/generator/discrete.go:53-73 | for weights of any sign: returns the value of the first sector whose normalised prefix sum exceeds the draw; panics iff the weights add up to zero and the first is missing or not positive |
| `Discrete.WheelsThatPanic` | pkg/generator/discrete.go:53-73 | wheels without sectors, without weight and with cancelling weights |
| `Discrete.Discrete.Add` | pkg/generator/discrete.go:76-78 | appends one sector |
| `MixGraph.CdfShape` | pkg/generator/mixgraph.go:73-81 | with a positive total the distribution never falls, ends at 1 and gives bucket i width w_i/total |
| `MixGraph.BuildCdf` | pkg/generator/mixgraph.go:60-81 | the loops compute the normalised prefix sums, where overwriting the last with 1 changes nothing over reals; without any weight all entries but the last are NaN |
| `MixGraph.Search` | pkg/generator/mixgraph.go:173 | binary search for the first entry that is at least u |
| `MixGraph.DrawsIff` | pkg/generator/mixgraph.go:172-176 | u draws bucket i iff u lies between the cumulative weights before and after it, one bucket only and past the first none without weight; without any weight always the last |
| `MixGraph.WithoutWeight` | pkg/generator/mixgraph.go:60-81 | with both coefficients zero every draw goes to the last bucket |
| `MixGraph.SwapKeepsPermutation` | pkg/generator/mixgraph.go:101 | a swap keeps range, injectivity and surjectivity |
| `MixGraph.Shuffle` | pkg/generator/mixgraph.go:87-102 | the swaps at the drawn positions, always a permutation |
| `MixGraph.EveryOrderComesOut` | pkg/generator/mixgraph.go:96-102 | every arrangement of the regions comes out for some drawn positions |
| `MixGraph.MixPicks` | pkg/generator/mixgraph.go:111-138 | rank and draw decide the operation: a read below 0.3 for the hottest tenth, below 0.5 up to three tenths, below 0.9 for the rest, an update otherwise |
| `MixGraph.BuildChoosers` | pkg/generator/mixgraph.go:105-143 | every region has a wheel, the one of the rank shuffled to it |
| `MixGraph.Offset` | pkg/generator/mixgraph.go:194-202 | the scrambled offset stays inside the region |
| `MixGraph.ScrambleInstances` | pkg/generator/mixgraph.go:194-199 | the scrambled words of two features in two regions |
| `MixGraph.RegionsAgreeIff` | pkg/generator/mixgraph.go:184-225 | drawn region and region of the key agree iff the region is below the number of keys; with no more regions than keys nothing is clamped and key/regionSize is the region drawn |
| `MixGraph.PrefixMixGraphGenerator.constructor` | pkg/generator/mixgraph.go:50-155 | for every key count and all weights: the double-exponential weights with negative values cut off, their distribution, the shuffled regions and the wheel of every rank |
| `MixGraph.PrefixMixGraphGenerator.Next` | pkg/generator/mixgraph.go:168-214 | for every int64 key count, with wrap-around: the key is placed in the region of the bucket that u draws; it lies in [0, numKeys) if there are keys, and otherwise below numKeys except for the least int64 |
| `MixGraph.PrefixMixGraphGenerator.ChooseOperationForKey` | pkg/generator/mixgraph.go:221-229 | the operation is the one that the rank of the key's region makes of the draw: 1 below 0.3, 0.5 or 0.9, else 2; panics iff the truncated region number is negative |
| `MixGraph.PrefixMixGraphGenerator.ChooseKeyThenOperation` | pkg/workload/core.go:365-375 | key and operation come from the same hotness bucket, the operation by that bucket's threshold, and the key is never -1 |
| `KeyNames.NamesDistinct` | pkg/workload/core.go:163-170 | distinct key numbers have distinct names for any padding |
| `KeyNames.NameReads` | pkg/workload/core.go:163-170 | a name is the prefix and a decimal, as wide as the padding or the digits, that denotes the key |
| `KeyNames.NamesOrdered` | pkg/workload/core.go:163-170 | keys below 10^max(zeropadding, 1): lexicographic order of names is numeric order |
| `KeyNames.PaddingIsNeeded` | pkg/workload/core.go:163-170 | for every padding the first key that does not fit sorts before its predecessor |
| `KeyNames.NamesOrderedIff` | pkg/workload/core.go:163-170 | the names of the keys below a count are in numeric order iff the count is at most 10^max(zeropadding, 1) |
| `KeyNames.RegionSizeIff` | pkg/workload/core.go:708-725 | the region size is 100000 iff recordCount >= 1000000 and its remainder is below the region count |
| `KeyNames.RegionSizeNotAlways` | pkg/workload/core.go:708-713 | 1050000 records give regions of 105000 keys |
| `KeyNames.RegionIsNameStem` | pkg/generator/mixgraph.go:54-57 | whenever the region size is 100000, two keys whose names have five digits share a region iff their names agree on all but the last five or both lie in the last region or past it, where the region is clamped; for any padding |
| `Zipfian.ZetaStatic` | pkg/generator/zipfian.go:125-133 | adds the terms st..n-1; continuing a from-scratch sum gives the from-scratch sum |
| `Zipfian.Zipfian.constructor` | pkg/generator/zipfian.go:92-118 | starts with the from-scratch sum of its item count, of any sign, the sum for 2 and the matching eta |
| `Zipfian.Zipfian.ComputeZeta` | pkg/generator/zipfian.go:120-123 | notes the new count and extends the sum |
| `Zipfian.Zipfian.Adjust` | pkg/generator/zipfian.go:136-149 | countForZeta grows, or follows the item count when decreasing is allowed; zetan and eta stay those of countForZeta iff no negative-index terms of nonzero sum were added, so always from a non-negative count |
| `Zipfian.StepKeepsInv` | pkg/generator/zipfian.go:135-149 | every step of every caller keeps the lock exclusive and the partial sum exact |
| `Zipfian.DrawsAfterUpdate` | pkg/generator/zipfian.go:135-149 | in every interleaving a draw has been through the lock with its count or was compared with a count then noted; while counts only grow, its count is at most countForZeta |
| `Zipfian.UpdateAlone` | pkg/generator/zipfian.go:137-149 | a caller that waits for a free lock gets it, from any reachable state: running alone it comes to its draw with the lock free and the count grown to its own, or equal to it when decreasing is allowed |
| `Zipfian.TakenLockWaits` | pkg/util/spinlock.go:28-32 | a caller that finds the lock taken keeps waiting |
| `Zipfian.NotedCountSkipsLock` | pkg/generator/zipfian.go:136 | a call with the noted count draws without the lock, any other goes for the lock |
| `Zipfian.CachedSumExact` | pkg/generator/zipfian.go:135-149 | in every interleaving, whenever the lock is free: zetan is the from-scratch sum, each term added once, eta matches, countForZeta is the maximum of the initial and the handled counts |
| `Zipfian.CachedSumExactIff` | pkg/generator/zipfian.go:135-152 | in every state of every interleaving, with positive terms, zetan is that of countForZeta iff no thread is inside its summing loop |
| `Zipfian.SumBelongsIff` | pkg/generator/zipfian.go:135-152 | in every state of every interleaving, with positive terms, zetan is the sum for n iff n is countForZeta, or the count noted before the update while a thread is summing |
| `Zipfian.DrawExactIff` | pkg/generator/zipfian.go:135-152 | a draw that was compared with n uses the sum for n iff n is the count that zetan then belongs to; with no thread summing, iff n is countForZeta |
| `Zipfian.DrawCanBeOvertaken` | pkg/generator/zipfian.go:135-152 | a schedule in which a draw compared with 0 uses the sum for 1 with the lock free, and would have been right while the update was summing |
| `Zipfian.UnlockedReadCanBeStale` | pkg/generator/zipfian.go:136-152 | a schedule in which a draw uses a zetan that is not that of countForZeta |
| `LoadRun.QuotasFair` | pkg/client/client.go:67-81 | quotas sum to the total, differ by at most one and are at least one |
| `LoadRun.QuotaSumClosed` | pkg/client/client.go:67-81 | the first total % threads workers get one operation more |
| `LoadRun.InsertWithRetry` | pkg/workload/core.go:270-301 | a failure ends the loop at once, a cancellation after a success ends it as a success, and successes are repeated up to the limit, so a successful row is inserted once iff the limit is not positive or the run was cancelled |
| `LoadRun.StepKeepsInv` | pkg/client/client.go:121-154 | every step of every worker keeps each drawn key inserted once or held by one worker, within its quota |
| `LoadRun.RunTerminates` | pkg/client/client.go:121-154 | no interleaving takes more than two steps per operation |
| `LoadRun.LoadComplete` | pkg/workload/core.go:262-302 | when no worker can move, insertstart..insertstart+total-1 have been inserted, each exactly once |
| `LoadedTable.InsertedKeys` | db/badger/db.go:379-411 | inserts of distinct keys leave exactly their rows, as many as there are inserts |
| `LoadedTable.LoadLeavesExactlyTheRows` | pkg/workload/core.go:262-302 | when the load phase is over, for any workers, interleaving and order of the inserts, the encoded bytes stand for exactly total rows, one per key number from insertstart on, each with every field and its deterministic value |
| `S3Scan.ObjectKeysOrdered` | db/s3/db.go:320-325 | object keys of a table are ordered and distinct as the record keys are |
| `S3Scan.TablesDisjoint` | db/s3/db.go:320-325 | tables whose names have no slash share no object key |
| `S3Scan.ReadPage` | db/s3/db.go:236-263 | a page's keys are stripped and read in order; the records of those whose read succeeds are kept |
| `S3Scan.ScanAfter` | db/s3/db.go:212-269 | for every paging policy and every set of failing reads the loop terminates with the first count readable records after the start key; a count of 2^31 or more may fail or stop at a prefix of them |
| `S3Scan.Scan` | db/s3/db.go:166-272 | the records of the start key, if reported, and of the readable keys after it, cut at count, each with exactly the fields asked for; for counts of 2^31 or more an error or a prefix |
| `S3Scan.ScanExactIff` | db/s3/db.go:181-272 | these are the first min(count, available) readable records at or after startKey iff the start key is sound |
| `S3Scan.InventedStartKey` | db/s3/db.go:189-193 | a keys-only scan of an empty bucket returns its start key |
| `S3Scan.EmptyKeyLeftOut` | db/s3/db.go:190-210 | a scan from the empty key does not return the record whose key is empty |
| `MySqlInsert.NewFieldPairs` | pkg/util/core.go:123-134 | the fields in ascending order with their values |
| `MySqlText.Insert` | db/mysql/db.go:411-439 | statement text and arguments of a single-row insert; executed in a database they add exactly the row to the named table unless the key is taken |
| `MySqlText.BatchInsert` | db/mysql/db.go:441-478 | statement text with the first row's columns and all arguments in order; executed in a database they are the batch on the named table; panics iff a row is missing |
| `MySqlText.RenderReadsBack` | db/mysql/db.go:420-436 | the text names the columns, holds one tuple per row and rows * (1 + fields) placeholders |
| `MySqlText.HeadReadsBack` | db/mysql/db.go:420-422 | the text is an INSERT IGNORE and names the table |
| `MySqlText.InsertTextMeaning` | db/mysql/db.go:411-439 | the server's reading of the single-row text with its arguments inserts the row |
| `MySqlText.BatchTextMeaning` | db/mysql/db.go:441-478 | the server's reading of the multi-row text with its arguments is the batch, for any rows |
| `MySqlInsert.BatchBinding` | db/mysql/db.go:469-475 | arguments i*(1+m)..(i+1)*(1+m) are the key and the sorted values of row i |
| `MySqlInsert.InsertOneMeaning` | db/mysql/db.go:411-439 | a single insert adds exactly the row unless the key is taken |
| `MySqlInsert.BatchEqualsEach` | db/mysql/db.go:441-478 | a batch of rows with the same fields has the effect of the single inserts in order |
| `MySqlInsert.BatchEqualsEachIff` | db/mysql/db.go:451-475 | any table, any keys, any fields as long as the first row with another number of fields, if any, takes effect: the batch equals the single inserts iff every row that takes effect has the fields of the first |
| `MySqlInsert.BatchMisfiles` | db/mysql/db.go:451-475 | two rows with fields a and b: the second row's value is filed under a |
| `MySqlInsert.RefusedBatch` | db/mysql/db.go:469-477 | a batch with a wrong number of arguments changes nothing, which equals the single inserts iff no row would take effect |
| `MySqlInsert.BatchLost` | db/mysql/db.go:469-477 | rows {a} and {a, b}: the batch stores nothing, the single inserts store both |
| `ShardedMap.Home` | pkg/util/concurrent_map.go:310-319 | every key has a shard in range |
| `ShardedMap.MixedNotNegative` | pkg/util/concurrent_map.go:310-319 | the last round cancels the sign bit: the hash is never negative, also for negative keys |
| `ShardedMap.HomeIsRemainder` | pkg/util/concurrent_map.go:310-319 | up to 2^32 shards the home is the plain remainder of the hash |
| `ShardedMap.MixInstances` | pkg/util/concurrent_map.go:310-317 | the hash of four keys |
| `ShardedMap.HomeLookup` | pkg/util/concurrent_map.go:38-40 | a key is in the flat map iff in its home shard, with the same value |
| `ShardedMap.ReplaceHomeShard` | pkg/util/concurrent_map.go:49-55 | changing one key in its home shard changes that key only in the flat map |
| `ShardedMap.SizesIsFlatSize` | pkg/util/concurrent_map.go:99-108 | shard sizes add up to the size of the flat map |
| `ShardedMap.ConcurrentMap.constructor` | pkg/util/concurrent_map.go:27-35 | an empty map for any positive shard count |
| `ShardedMap.ConcurrentMap.Set` | pkg/util/concurrent_map.go:49-55 | the flat map with one key set |
| `ShardedMap.ConcurrentMap.Upsert` | pkg/util/concurrent_map.go:64-72 | the callback sees the flat map's entry and its result is stored |
| `ShardedMap.ConcurrentMap.SetIfAbsent` | pkg/util/concurrent_map.go:75-85 | stores iff the key was absent |
| `ShardedMap.ConcurrentMap.Get` | pkg/util/concurrent_map.go:88-96 | the flat map's entry, or zero and false |
| `ShardedMap.ConcurrentMap.Count` | pkg/util/concurrent_map.go:99-108 | the size of the flat map |
| `ShardedMap.ConcurrentMap.Has` | pkg/util/concurrent_map.go:111-119 | membership in the flat map |
| `ShardedMap.ConcurrentMap.Remove` | pkg/util/concurrent_map.go:122-128 | the flat map without the key |
| `ShardedMap.ConcurrentMap.RemoveCb` | pkg/util/concurrent_map.go:137-148 | removes iff the callback says so, and returns its answer |
| `ShardedMap.ConcurrentMap.Pop` | pkg/util/concurrent_map.go:151-159 | returns the entry and removes it |

## Left out

- All other database drivers, TLS, the command line, the shell, gc reporting, log parsing and scripts: I/O or thin wrappers.
- int64 overflow of the counters: ids, limits and byte counts are unbounded integers.
- The spin lock as a class of its own: its compare-and-swap and store are steps of the two protocols; in `Zipfian.State` the lock word is replaced by the holder's number.
- Weak memory: the ring slots are plain Go booleans; the model gives every access a place in one total order.
- MixGraph's power-law feature and the exponential: any values, since the results do not depend on them.
- The distribution shape of the Zipfian draw, float rounding, and a zetan handed to NewZipfian from outside.
- Zipfian.Zipfian.Adjust: the term with index -1 is infinite in the code and a parameter here; the interleaved theorems start from a count that is not negative and, with decreasing allowed, take only such counts. Nothing in the repository turns decreasing on.
- Hashed key names and keys below zero: names are modelled for ordered inserts.
- Pooled buffers being shared between values: values are immutable in the model.
- Field names outside ASCII in ToLower, and the GPD length override, which replaces the constant length that data integrity needs.
- Scans of a badger store that holds several tables: the byte-level statement covers them (a scan runs on into the next table), the refinement theorem is about one table.
- Badger transactions: every operation is one atomic step on the map; conflicts and I/O errors are modelled only as failing inserts in `AckedRows`, nor is the byte count under concurrent updates.
- S3Scan.Scan: the code casts what remains to int32, and what a listing does with a page size that is not positive is not part of the repository, so how far a scan of 2^31 or more records gets depends on a parameter; other errors of the listing are not modelled.
- MySqlText.Insert: the meaning of the text is stated for table and field names without parentheses, commas and question marks; the driver does not quote names.
- ShardedMap.ConcurrentMap.Count: not while other goroutines write; operations are atomic here, Count locks the shards one after the other; channel iteration is left out.
- Insert retries, warm-up, cancellation, batches and throttling in the interleaved load phase: the run is that of retry limit zero and batch size one.
- Batch transactions, which acknowledge their ids before the rows are written.
- MySqlInsert.BatchEqualsEachIff: leaves open a batch whose first row with another number of fields is ignored because its key is taken, while the arguments still add up to the number of placeholders; later rows are then stored under shifted values.
