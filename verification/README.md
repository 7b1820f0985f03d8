# Verified models of the Sahyadri node and mining bridge

A Dafny model of the parts of Sahyadri whose correctness is hardest to see from the code: the fixed-width integer
arithmetic, the compact target encoding, the cached database stores, the Stratum share protocol of the mining bridge, and
the chunking of transaction batches. `dafny verify dfyconfig.toml` checks everything.

| file | models |
|---|---|
| `Basics`, `Powers`, `Limbs` | shared types, powers of two and word operations, the value of a little-endian limb array |
| `UintShift`, `UintArith`, `UintDiv`, `UintDisplay`, `UintFloat` | `math/src/uint.rs`, for every number of limbs |
| `CompactTarget` | the two decoders and the encoder of compact difficulty bits |
| `Cache`, `Database`, `DbAccess`, `SetAccess` | the bounded cache, direct and batched writes, and the two kinds of cached stores |
| `JobRing` | the per-client job ring and the loop that validates a share against earlier jobs |
| `Guards`, `ShareRuns` | the two time-limited guards, and every run of concurrent share submissions |
| `SocketWriter` | every interleaving of socket writes and reads with disconnection |
| `LineFraming` | incremental line framing of a connection |
| `Chunking` | mass-bounded chunks of transactions |

Limb arrays that the source copies are local `seq<u64>` variables updated in loops; objects with methods that change them
are classes; the buffer of `Display` is an array. The socket writer and the share handler run as many tasks at once, so
they are state machines: one step for each access to shared state, any task may move at any time, and the theorems are
about every state of every run. Atomics are sequentially consistent there. A `ghost rounds` or `ghost tested` result records
what a loop did.

## Properties that hold only under a condition

Where a property one might expect is false of the code, the code is kept and the exact condition is proved.

- The overflow flag of `overflowing_mul` misses overflow: `FlagExactWhen` says exactly when it is right, `FlagMissesOverflow`
  gives operands for which it is wrong. The product modulo 2^(64n) is always right.
- The two compact decoders differ on some bits: `DecodersAgreeExactly`, `DecodersDiffer`. On every encoded target they agree
  (`DecodeEncode`).
- A read that misses while a batch is pending returns, and caches, the value from before the batch. `MissExactlyWhen` says by
  the last pending operation on the key when that is right, `StaleRead` has a run where it is not. A direct write
  past a pending batch is undone by the commit: `DirectCommutes` and `DirectWriteExactly` have the exact conditions,
  `StaleWrite` a run. `StepExactly` puts them together for any call. Stores written directly need no such care (`DirectRun`).
- The same holds of set stores: `SetAccess.MissExactlyWhen`, `SetAccess.StepExactly`, `StaleSet`, `SetAccess.DirectRun`.
- A bucket scan can read entries of another bucket: `EntryUnderBucket` and `BucketsLeakExactly` say for any layout when,
  `ScanLeaks` has a layout in which a scan returns a wrong set. With fixed-length keys it never happens (`ScanIsolated`).
- `get_job` does not compare ids: `LookupExactly` says for which ids it finds that id's own job, `WalkOnRing` which job the
  others are tested against. Job id 0 wraps around to 2^64 - 1 in the walk (`WalkDistinct`).
- A guard entry can outlive its time behind a fresher one: `ExpiredGoExactly`, `RefreshedFrontHides`. The queue of the block
  guard can list a hash twice: `MarkRepeatsExactly`, `RemarkedGoesFirst`.
- The overall share counter can be below the sum over workers, between the two increments of a share:
  `CounterConserved` has the exact condition, `OverallLags` a run. When nothing is under way it is never below
  (`RunQuiescent`), and until a worker is pruned it is equal (`RunUntilPruned`).
- A disconnection shuts the write half exactly when no writer holds it at that step (`TakeExactly`), and drops the read half
  exactly when the listener does not hold it (`TakeReadExactly`). Otherwise the half goes back to its slot and stays there
  (`RunSettled`, `ReadHalfSurvives`), and a call that checked the flag earlier can still write (`WriteAfterTeardown`).
- The first-message check looks at the first read, not at the first line: `FramedExactly`, `SplitMatters`.

## Model

| member | source | states |
|---|---|---|
| UintShift.Bits | math/src/uint.rs:52-59 | the bit length of the value of any limb array |
| UintShift.Compare | math/src/uint.rs:517-525 | the limb comparison from the top orders values, in all three outcomes |
| UintShift.OverflowingShl | math/src/uint.rs:67-84 | the result is v·2^s mod 2^(64n) for s reduced mod 64n; the flag is s >= 64n |
| UintShift.ShlValue | math/src/uint.rs:67-84 | limbs joined from two neighbours, across word-aligned and seam-crossing shifts, denote the shifted value |
| UintShift.OverflowingShr | math/src/uint.rs:92-109 | the result is v / 2^s rounded down for s reduced mod 64n; the flag is s >= 64n |
| UintShift.ShrValue | math/src/uint.rs:92-109 | limbs joined from two neighbours denote the floor of the quotient |
| UintArith.CarryingAdd64 | math/src/uint.rs:112-127 | word + carry out·2^64 = x + y + carry in, the carry out being that the two overflow flags differ |
| UintArith.BorrowingSub64 | math/src/uint.rs:143-159 | word + y + borrow in = x + borrow out·2^64, likewise |
| UintArith.OverflowingAdd | math/src/uint.rs:112-127 | result plus carry·2^(64n) is the sum |
| UintArith.OverflowingAddU64 | math/src/uint.rs:130-140 | the same for a one-word operand, the loop stopping at the first limb without carry |
| UintArith.OverflowingSub | math/src/uint.rs:143-159 | borrow exactly when a < b; the result is the difference, plus 2^(64n) on borrow |
| UintArith.MulRow | math/src/uint.rs:193-209 | one row of the schoolbook product, its carry included, adds y·a cut to the limbs that fit |
| UintArith.OverflowingMul | math/src/uint.rs:193-209 | the result is the product mod 2^(64n); the flag is set exactly when the kept partial products reach 2^(64n) |
| UintArith.ProductSplits | math/src/uint.rs:193-209 | the product is the kept partial products plus 2^(64n) times the skipped ones |
| UintArith.OverflowExactly | math/src/uint.rs:193-209 | the product overflows exactly when the kept part does or some skipped pair of limbs is nonzero |
| UintArith.FlagExactWhen | math/src/uint.rs:193-209 | the flag never lies when set; it is right exactly when it is set or no skipped pair is nonzero |
| UintArith.FlagMissesOverflow | math/src/uint.rs:193-209 | in every width n >= 2, the square of 2^(64(n-1)) overflows and is not flagged |
| UintDiv.DivRemU64 | math/src/uint.rs:262-270 | exact quotient and remainder by one word |
| UintDiv.Align | math/src/uint.rs:310-343 | shifting the divisor under the dividend cannot overflow and leaves the dividend below twice the result |
| UintDiv.SetBit | math/src/uint.rs:310-343 | recording a quotient bit with OR adds exactly 2^shift |
| UintDiv.Round | math/src/uint.rs:310-343 | one round keeps a = q·d + r and brings r below the shifted divisor; the subtraction cannot borrow |
| UintDiv.Rounds | math/src/uint.rs:328-341 | the loop ends after shift + 1 rounds with a = q·d + r and r < d |
| UintDiv.DivRem | math/src/uint.rs:310-343 | quotient and remainder for every n; there are bits(a) - bits(b) + 1 rounds, or none |
| UintDisplay.AtLeastU64 | math/src/uint.rs:479-489 | comparison with a word over all limbs |
| UintDisplay.Room | math/src/uint.rs:763-819 | the digits still to come fit in front of the index, so it never underflows the 20n-byte buffer |
| UintDisplay.PutPair | math/src/uint.rs:763-819 | the two table characters at the index are the decimal digits of the pair, and the digits behind it stay |
| UintDisplay.DisplayChunks | math/src/uint.rs:763-819 | after the loop less than 10000 is left and buffer and rest together denote the value |
| UintDisplay.DisplayPair | math/src/uint.rs:763-819 | the step that leaves at most two digits keeps the denoted value |
| UintDisplay.DisplayHead | math/src/uint.rs:763-819 | the last one or two digits complete a canonical numeral of the value |
| UintDisplay.Display | math/src/uint.rs:763-819 | the printed string parses back to the value and has no leading zeros |
| UintDisplay.CanonicalUnique | math/src/uint.rs:763-819 | a value has only one numeral without leading zeros, so the printed string is determined |
| UintFloat.NeighboursDecide | math/src/uint.rs:273-306 | choosing the nearer of two adjacent doubles, ties to even, is nearest among all doubles |
| UintFloat.RoundMantissa | math/src/uint.rs:273-306 | the dropped bits are split off exactly, and the round-up test is "more than half, or half and odd" |
| UintFloat.RoundedPattern | math/src/uint.rs:273-306 | mantissa plus round bit added to the exponent field is the nearest double, carry into the exponent included |
| UintFloat.AsF64 | math/src/uint.rs:273-306 | for at most 1024 bits, the bit pattern is the value rounded to nearest, ties to even (section 4.3.1 of IEEE 754-2019) |
| CompactTarget.CompactTargetBits | math/src/lib.rs:83-97 | the encoder computes size byte and mantissa of the reference form, sign bit clear, in 32 bits |
| CompactTarget.FromCompactTargetBits | math/src/lib.rs:64-79 | the decoder computes the reference decoding, zero for a set sign bit |
| CompactTarget.CalculateTarget | bridge/src/hasher.rs:398-416 | the bridge's decoder computes mantissa shifted by exponent, without bound, the shift cast to 32 bits |
| CompactTarget.DecodeEncode | math/src/lib.rs:64-97 | both decoders map the encoding of any 256-bit x to x without its dropped bits |
| CompactTarget.RoundedClose | math/src/lib.rs:83-97 | d <= x and, for x > 0, (x - d)·2^15 < d |
| CompactTarget.EncodeRounded | math/src/lib.rs:83-97 | encode(d) = encode(x): the encoding is a fixed point after one round |
| CompactTarget.RoundedMono | math/src/lib.rs:83-97 | the round trip and the bits themselves are monotone in x |
| CompactTarget.RoundedIsBest | math/src/lib.rs:83-97 | no 23-bit mantissa at any byte exponent lies between d and x |
| CompactTarget.NothingBetween | math/src/lib.rs:64-97 | no compact bits at all decode to a value between d and x |
| CompactTarget.DecodersAgreeExactly | bridge/src/hasher.rs:398-416 | on 32-bit bits, the decoders agree exactly when the mantissa m is 0, or m has a clear sign bit and bitlen(m) + shift <= 256 |
| CompactTarget.DecodersDiffer | bridge/src/hasher.rs:398-416 | 0x04800000 and 0x23010000 decode differently, for the sign bit and for a target beyond 256 bits |
| CompactTarget.RoundTrip | math/src/lib.rs:64-97 | encoder and both decoders composed, on limbs: same d, its error bound, and encode(d) again |
| CacheStore.TotalSizeRemove | database/src/cache.rs:61-68 | the sum of sizes loses exactly the removed entry's size, whatever entry is taken |
| CacheStore.TotalSizeUpdate | database/src/cache.rs:70-84 | the sum after an insertion, replaced entry accounted for |
| CacheStore.Cache.constructor | database/src/cache.rs:142-146 | an empty cache with the limits of its policy |
| CacheStore.Cache.TrackedEvict | database/src/cache.rs:61-68 | for any random choices: ends, keeps the tracked size exact, reaches the limit or the minimum count, evicts nothing when already there |
| CacheStore.Cache.InsertInner | database/src/cache.rs:70-84 | exact tracked size and policy bound kept; only old entries or the new one remain; nothing is evicted while there is room |
| CacheStore.Cache.Insert | database/src/cache.rs:156-162 | the same for the locked insertion, entries staying while there is room included; a zero-size cache stays empty |
| CacheStore.Cache.InsertMany | database/src/cache.rs:164-172 | what remains comes from applying the items in order, and everything remains as long as there is room for each item |
| CacheStore.Cache.UpdateIfEntryExists | database/src/cache.rs:86-100 | only a present entry changes, by the given operation, and the size stays exact; nothing is evicted while there is room |
| CacheStore.Cache.Remove | database/src/cache.rs:102-112 | exactly the key goes; the size subtraction cannot underflow |
| CacheStore.Cache.RemoveMany | database/src/cache.rs:191-199 | exactly the given keys go |
| CacheStore.Cache.RemoveAll | database/src/cache.rs:201-210 | empty, with tracked size zero |
| Database.PrefixRangeExact | database/src/access.rs:204-213 | the range from a prefix to its successor contains exactly the keys that start with the prefix |
| Database.AllMax | database/src/set_access.rs:154-178 | a prefix without successor: the keys from it on are exactly those that start with it |
| Database.WriteTo | database/src/writer.rs:36-93 | a direct write changes the database at once, a batched one only the batch |
| Database.Commit | database/src/writer.rs:71-93 | committing applies the batch in order and empties it |
| Database.Untouched | database/src/writer.rs:71-93 | keys no operation of a batch affects keep their entry |
| Database.LastDecides | database/src/writer.rs:71-93 | what a batch leaves under a key is what its last operation on the key leaves, or what was there if there is none |
| Database.DirectCommutes | database/src/writer.rs:36-93 | direct writes past a pending batch can be moved behind it exactly when, wherever both write a key, they leave the same there |
| Database.PrefixDeleted | database/src/writer.rs:50-57 | range deletion removes exactly the keys of the prefix |
| DbAccess.CachedDbAccess.Read | database/src/access.rs:51-68 | a step of the store machine: from the cache, else from the database and then cached, not-found and corrupt data included |
| DbAccess.CachedDbAccess.Has | database/src/access.rs:44-49 | a step that changes nothing |
| DbAccess.CachedDbAccess.Write | database/src/access.rs:134-143 | a step: cache insertion under any eviction, and the write through the given writer |
| DbAccess.CachedDbAccess.WriteMany | database/src/access.rs:145-161 | a step for all items in order |
| DbAccess.CachedDbAccess.WriteManyWithoutCache | database/src/access.rs:164-180 | a step that clears the cache and writes all items |
| DbAccess.CachedDbAccess.Delete | database/src/access.rs:182-189 | a step: the key leaves the cache, and its deletion goes through the given writer; `FetchAfter` says what that leaves |
| DbAccess.CachedDbAccess.DeleteMany | database/src/access.rs:191-201 | a step for all keys |
| DbAccess.CachedDbAccess.DeleteAll | database/src/access.rs:204-213 | a step; written directly, exactly the keys of the store's prefix are gone |
| DbAccess.EffectiveStep | database/src/access.rs:134-213 | database overlaid by the pending batch follows the uncached reference store exactly when direct writes leave what the batch leaves |
| DbAccess.OutputExact | database/src/access.rs:44-68 | reads and tests of a coherent store answer as the uncached store exactly when the key is cached or the batch keeps it |
| DbAccess.StepExactly | database/src/access.rs:44-213 | a call of a coherent store has the data and the answer of the uncached store exactly when it is disciplined |
| DbAccess.StepCoherent | database/src/access.rs:134-213 | every disciplined operation keeps each cached entry equal to the overlaid database |
| DbAccess.RunCoherent | database/src/access.rs:44-213 | over every disciplined run, any eviction: coherence, and every answer is that of the uncached store on the same operations |
| DbAccess.FetchAfter | database/src/access.rs:134-213 | what a fetch of any key finds after each operation on the uncached store: the written value, the last item for the key, not found after its deletion, and what was there in all other cases |
| DbAccess.ModelsStep | database/src/access.rs:134-213 | each operation changes a store that holds a map as the plain map operation does: insertion, the last of each item, removal, clearing |
| DbAccess.RunIsMap | database/src/access.rs:44-213 | over every disciplined run, any eviction, direct or batched: every read and test answers as a plain map on which the same operations were done |
| DbAccess.DirectNeedsNoDiscipline | database/src/writer.rs:36-57 | without a pending batch every call is disciplined |
| DbAccess.DirectRun | database/src/writer.rs:36-57 | every run of direct calls is disciplined, so its cache agrees with the database and its answers are those of the uncached store, unconditionally |
| DbAccess.CommitAgrees | database/src/writer.rs:71-93 | after the commit the cache agrees with the database itself |
| DbAccess.MissExactlyWhen | database/src/access.rs:51-68 | a missing read is right exactly when the batch does not touch the key, last puts bytes that decode like the stored ones, or last deletes a key not stored; when its result may be cached, and when a missing test is right, likewise |
| DbAccess.StaleRead | database/src/access.rs:51-68 | for every key and two values, a run that leaves the old value cached after the commit |
| DbAccess.DirectWriteExactly | database/src/access.rs:134-143 | after a direct write past a batch, the cache agrees with what a commit leaves exactly when the batch does not touch the key or last puts bytes that decode to the value |
| DbAccess.StaleWrite | database/src/access.rs:134-143 | for every key and two values, a batched write, a direct write and a commit leave the wrong value cached |
| SetAccess.DbKey.New | database/src/key.rs:12-17 | path and prefix length of a key |
| SetAccess.DbKey.AddBucket | database/src/key.rs:35-41 | path and prefix length grow by the bucket |
| SetAccess.DbKey.AddKey | database/src/key.rs:43-49 | path and prefix length grow by the key as well |
| SetAccess.NewWithBucket | database/src/key.rs:19-28 | the path is prefix, bucket and key, all of it counted as prefix |
| SetAccess.EntryKeyInjective | database/src/key.rs:19-28 | for fixed-length bucket keys and injective serialization, an entry key determines bucket and element |
| SetAccess.ScanIsolated | database/src/set_access.rs:154-193 | every key under a bucket's prefix is an entry of that bucket |
| SetAccess.EntryUnderBucket | database/src/set_access.rs:154-178 | for any layout, an entry of bucket j lies in the range of a scan of k exactly when j's key bytes extend k's, or k's extend j's and the element's bytes start with the rest |
| SetAccess.BucketsLeakExactly | database/src/set_access.rs:154-178 | for any layout and pair of buckets, when a scan of one can read some entry of the other |
| SetAccess.ScannedUnique | database/src/set_access.rs:184-193 | what a scan returns is determined, decode errors included |
| SetAccess.ScanLeaks | database/src/set_access.rs:154-193 | with keys of different lengths, one written element makes the scan of an empty bucket return an element never written, and the scan of another empty bucket fail |
| SetAccess.BucketAfter | database/src/set_access.rs:132-152 | which entries the database holds after each operation, for every bucket and element |
| SetAccess.CachedDbSetAccess.Scan | database/src/set_access.rs:184-193 | for any layout: an error exactly when some key under the bucket does not decode, else the decoded elements; for fixed-length keys these are exactly the bucket |
| SetAccess.CachedDbSetAccess.Read | database/src/set_access.rs:66-75 | the cached set, else the scanned one, cached whole; nothing changes when the scan fails; a step of the machine for fixed-length keys |
| SetAccess.CachedDbSetAccess.Write | database/src/set_access.rs:81-87 | a step: the entry is written through the given writer and a cached set, if any, gets the element |
| SetAccess.CachedDbSetAccess.Delete | database/src/set_access.rs:94-101 | a step: the entry is deleted through the given writer and a cached set, if any, loses the element |
| SetAccess.CachedDbSetAccess.DeleteBucket | database/src/set_access.rs:89-92 | a step: the bucket's range is deleted through the given writer and its set uncached |
| SetAccess.MissExactlyWhen | database/src/set_access.rs:66-75 | a scanned set is right, and may be cached, exactly when the last pending operation on each entry of the bucket leaves it stored or not stored as it is |
| SetAccess.EffectiveStep | database/src/set_access.rs:81-101 | database overlaid by the pending batch follows the uncached store exactly when direct writes leave what the batch leaves |
| SetAccess.StepExactly | database/src/set_access.rs:66-101 | a call of a coherent store has the data and the answer of the uncached store exactly when it is disciplined |
| SetAccess.StepCoherent | database/src/set_access.rs:66-101 | every disciplined operation keeps each cached set equal to its bucket in the overlaid database; a read returns exactly that bucket |
| SetAccess.RunExact | database/src/set_access.rs:66-101 | over every disciplined run, any eviction, direct or batched: cached sets are whole buckets of the overlaid database, and every read returns the bucket of the uncached store |
| SetAccess.DirectRun | database/src/set_access.rs:66-101 | every run of direct calls is disciplined: cached sets are exact buckets of the database and every read returns one |
| SetAccess.StaleSet | database/src/set_access.rs:66-87 | for every bucket and new element, a batched write to the uncached set, a read and a commit leave a set cached without the element |
| JobRing.LatestIsLargest | bridge/src/mining_state.rs:54-73 | the id a slot holds is the largest issued id of that slot |
| JobRing.LookupExactly | bridge/src/mining_state.rs:79-85 | the slot of an id holds that very id exactly when it is among the last 300 issued |
| JobRing.MiningState.constructor | bridge/src/mining_state.rs:38-51 | an empty ring |
| JobRing.MiningState.AddJob | bridge/src/mining_state.rs:54-73 | the next id in order; jobs and ids keep one domain and hold the latest of each slot |
| JobRing.MiningState.GetJob | bridge/src/mining_state.rs:79-85 | the job of the latest congruent id, which is the asked one for the last 300 ids; none only for ids never issued |
| JobRing.MiningState.GetJobIdAtSlot | bridge/src/mining_state.rs:88-91 | the latest id of the slot |
| JobRing.ValidateShare | bridge/src/share_handler.rs:476-1015 | the jobs tested are consecutive 64-bit ids downwards; the outcome is that of the first that settles it, low difficulty exactly at job 1, a full lap or an empty slot next |
| JobRing.WalkDistinct | bridge/src/share_handler.rs:971-994 | no slot is tested twice; at most min(id, 300) jobs, and at most 16 for id 0, which wraps around |
| JobRing.WalkUnique | bridge/src/share_handler.rs:476-1015 | table, id, target and hashes determine tested jobs and outcome |
| JobRing.WalkOutcome | bridge/src/share_handler.rs:753-1013 | by hash, targets and the node's answer for the last tested job, exactly when the outcome is valid, stale, bad or low difficulty |
| JobRing.WalkOnRing | bridge/src/share_handler.rs:983-990 | on a client's own ring, for any id: tested against its own job exactly in the last lap, against a newer job of its slot exactly when older, against the latest issued job of its slot exactly when above the counter |
| Guards.PrunedQueued | bridge/src/share_handler.rs:173-195 | pruning keeps queue and entries in step, and ends within the capacity |
| Guards.PrunedSub | bridge/src/share_handler.rs:173-195 | pruning adds and alters nothing |
| Guards.PrunedReason | bridge/src/share_handler.rs:173-195 | an entry leaves only after its time, or when more than the capacity is left behind the expired front |
| Guards.PruneExcessExact | bridge/src/share_handler.rs:188-194 | over capacity exactly the capacity is kept, and it is the end of the queue |
| Guards.ExpiredGoExactly | bridge/src/share_handler.rs:174-186 | no expired entry is left exactly when the queue holds the expired entries before the others |
| Guards.RefreshedFrontHides | bridge/src/share_handler.rs:211-217 | two insertions, a late outcome for the first and a pruning: the second is still held after its time |
| Guards.DuplicateSubmitGuard.constructor | bridge/src/share_handler.rs:169-171 | an empty guard |
| Guards.DuplicateSubmitGuard.Prune | bridge/src/share_handler.rs:173-195 | the two loops compute the specified pruning |
| Guards.DuplicateSubmitGuard.Get | bridge/src/share_handler.rs:197-200 | the outcome held after pruning, which `AnswersLast` determines by the earlier calls; the queue lists exactly the entries, each once |
| Guards.DuplicateSubmitGuard.InsertInflight | bridge/src/share_handler.rs:202-209 | a present key is left alone, a new one is held in flight and queued last; the queue stays exact |
| Guards.DuplicateSubmitGuard.SetOutcome | bridge/src/share_handler.rs:211-217 | only a present key changes, in place, to the new outcome and time; the queue stays exact |
| Guards.HeldThrough | bridge/src/share_handler.rs:173-217 | through any calls none of which finds the key beyond its time or the guard over capacity, it stays held, with time and outcome of its last insertion or outcome call |
| Guards.AnswersLast | bridge/src/share_handler.rs:197-217 | from the insertion of a key that was not held until it may be dropped, the answer for it is in flight before any outcome call for it and the outcome of the last one after |
| Guards.BlockSubmitGuard.constructor | bridge/src/sahyadriapi.rs:65-67 | an empty guard |
| Guards.BlockSubmitGuard.Prune | bridge/src/sahyadriapi.rs:69-91 | the two loops compute the specified pruning |
| Guards.BlockSubmitGuard.TryMark | bridge/src/sahyadriapi.rs:93-101 | true exactly when the hash is not held after pruning, and then it is held and queued; every entry stays queued |
| Guards.BlockSubmitGuard.Remove | bridge/src/sahyadriapi.rs:103-106 | the hash leaves the entries but not the queue; every entry stays queued |
| Guards.UnmarkFrees | bridge/src/sahyadriapi.rs:93-106 | after a removal the hash, and no other than the pruning takes, is not held, and marking it succeeds |
| Guards.MarkSurvives | bridge/src/sahyadriapi.rs:69-106 | a mark keeps its time through any calls within the limit, unless one removes it or exceeds the capacity |
| Guards.MarkBlocks | bridge/src/sahyadriapi.rs:93-101 | after a successful mark and any calls within the limit, a second attempt fails, unless the hash was removed or evicted for capacity |
| Guards.MarkRepeatsExactly | bridge/src/sahyadriapi.rs:93-106 | marking repeats a hash in the queue exactly when it was removed before and is still queued |
| Guards.RemarkRepeats | bridge/src/sahyadriapi.rs:93-106 | from the empty guard, three marks, a removal and a new mark leave the hash queued twice |
| Guards.RemarkedGoesFirst | bridge/src/sahyadriapi.rs:69-106 | from the empty guard, by calls: a hash removed and marked again is evicted before one marked earlier than its second marking |
| ShareRuns.CountedStep | bridge/src/share_handler.rs:868-1063 | every step keeps each counter of each worker record, and each overall counter, equal to the number of submissions counted there |
| ShareRuns.OwnedStep | bridge/src/share_handler.rs:244-272 | every step keeps: the record of a live worker was created for that worker, and the record a submission looked up was created for its own worker |
| ShareRuns.WorkerTotal | bridge/src/share_handler.rs:868-1063 | for each worker and counter, the records created for the worker add up to the number of its submissions counted there |
| ShareRuns.LiveWorkerTotal | bridge/src/share_handler.rs:1127-1144 | the record of a live worker, together with its records that were pruned, has all submissions of the worker |
| ShareRuns.RunWorker | bridge/src/share_handler.rs:1127-1144 | in every run without a pruning so far, the record of a live worker has exactly the submissions of that worker |
| ShareRuns.KeyedStep | bridge/src/share_handler.rs:438-449 | every step keeps: times let through = times dropped + one while held, for every key |
| ShareRuns.DropReason | bridge/src/share_handler.rs:173-195 | a key is dropped only after its time, or when more than the capacity is left behind the expired front |
| ShareRuns.TruthfulStep | bridge/src/share_handler.rs:438-471 | every step keeps: a held or replayed outcome is that of a submission of the same key |
| ShareRuns.PendingStep | bridge/src/share_handler.rs:438-1087 | every step keeps: a key held in flight has a submission that is still to record its outcome |
| ShareRuns.RunInFlight | bridge/src/share_handler.rs:438-454 | in every run, a copy is told that its key is in flight only while such a submission exists |
| ShareRuns.RunArrivals | bridge/src/share_handler.rs:274-449 | in every run, there is one submission for each arrival, in order, with the key and the worker it came with |
| ShareRuns.RunOutcome | bridge/src/share_handler.rs:862-1087 | in every run, the outcome a submission is counted and recorded under is the one it was settled with |
| ShareRuns.NeverStuck | bridge/src/share_handler.rs:244-272 | a submission that is not finished always has the record it needs, pruned or not |
| ShareRuns.InvStep | bridge/src/share_handler.rs:438-1087 | every step of any submission and any pruning of workers keeps all of these invariants |
| ShareRuns.RunInv | bridge/src/share_handler.rs:438-1087 | the invariants hold in every state of every run |
| ShareRuns.CounterConserved | bridge/src/share_handler.rs:1127-1144 | overall + submissions between their two increments = live workers + pruned records; overall is at least the live sum exactly when no more stand between than the pruned records hold |
| ShareRuns.DetachedWerePruned | bridge/src/share_handler.rs:1127-1144 | in every run, a record that no live worker has is the record of a worker that some earlier event pruned by name |
| ShareRuns.RunUntilPruned | bridge/src/share_handler.rs:1127-1144 | in every run without a pruning so far, overall + submissions between their two increments = the sum over workers, and overall equals it when nothing is under way |
| ShareRuns.ProcessedConserved | bridge/src/share_handler.rs:862-1087 | submissions let through = the three overall counters + those not yet counted |
| ShareRuns.CountersByOutcome | bridge/src/share_handler.rs:868-1063 | in every reachable state, overall shares, stale and invalid shares are the numbers of counted submissions accepted, stale, and low-difficulty or bad |
| ShareRuns.RunQuiescent | bridge/src/share_handler.rs:862-1144 | whenever nothing is under way, every submission let through was counted once; overall equals live workers plus pruned records, so is never below the live sum, and equals it exactly when the pruned records are zero; no key is held in flight |
| ShareRuns.RunOnce | bridge/src/share_handler.rs:438-471 | in every run, a key was let through once per drop and once while held, so again only after an event at which it was beyond its time or over capacity; replayed outcomes are those of its submissions |
| ShareRuns.OverallLags | bridge/src/share_handler.rs:1021-1022 | a run in which the overall counter is below the sum over workers |
| SocketWriter.WriterInv | bridge/src/stratum_context.rs:472-531 | every step of a write keeps mutual exclusion, the single place of the half, and the bounds of every call |
| SocketWriter.CloserInv | bridge/src/stratum_context.rs:568-611 | every step of a disconnection keeps them, and teardown runs once |
| SocketWriter.ReaderInv | bridge/src/stratum_listener.rs:171-196 | every step of a turn of the listener keeps them, and the read half is in one place |
| SocketWriter.InvStep | bridge/src/stratum_context.rs:472-621 | every step of every write, disconnection and turn of the listener keeps all invariants |
| SocketWriter.RunInv | bridge/src/stratum_context.rs:472-621 | the invariants hold in every state of every interleaving of any number of calls |
| SocketWriter.RunSafe | bridge/src/stratum_context.rs:472-611 | one holder of each half, that of the write half owning the lock; one owner; one teardown; lock free when all calls have ended; a call begun after the flag begins no write and a turn no read; success is returned exactly when one write succeeded |
| SocketWriter.RunReasons | bridge/src/stratum_context.rs:472-531 | in every run, a write call succeeds exactly when one write did, and fails exactly when it met the flag at its start, an empty slot, a failed write, or three attempts each blocked or timed out; it reports exactly a failed write or a third attempt that timed out |
| SocketWriter.RunStarts | bridge/src/stratum_context.rs:505-621 | in every run, there is one disconnection for each one asked for and for each report while the flag is clear, and no other |
| SocketWriter.StepProgress | bridge/src/stratum_context.rs:478-528 | a step lowers the rank of its own call and leaves the other calls alone |
| SocketWriter.RunBounded | bridge/src/stratum_context.rs:478-528 | in every run, the steps a call has taken and its remaining rank are at most 24, so every call ends within 24 steps of its own |
| SocketWriter.TakeExactly | bridge/src/stratum_context.rs:593-604 | the teardown shuts the write half exactly when no writer holds it |
| SocketWriter.TakeReadExactly | bridge/src/stratum_context.rs:606-610 | the teardown drops the read half exactly when the listener does not hold it |
| SocketWriter.RunAfterTeardown | bridge/src/stratum_context.rs:568-611 | what the teardown found never changes; once it has shut the write half, no call ever begins a write |
| SocketWriter.RunSettled | bridge/src/stratum_context.rs:568-611 | when all calls have ended after a teardown, each half is gone if it was found and lies in its slot if not |
| SocketWriter.WriteAfterTeardown | bridge/src/stratum_context.rs:480-497 | a run in which a write begins after the teardown has ended |
| SocketWriter.ReadHalfSurvives | bridge/src/stratum_listener.rs:178-196 | a run in which the read half is back in its slot after the teardown, because the listener was reading |
| LineFraming.CutJoins | bridge/src/stratum_listener.rs:381-386 | lines and remainder, joined with newlines, give the text back |
| LineFraming.CutClean | bridge/src/stratum_listener.rs:381-386 | no line and no remainder contains a newline |
| LineFraming.CutUnique | bridge/src/stratum_listener.rs:381-386 | lines and a remainder without newlines that give the text back are its cut |
| LineFraming.CutAppend | bridge/src/stratum_listener.rs:379-386 | later text continues the remainder of earlier text |
| LineFraming.Listener.constructor | bridge/src/stratum_listener.rs:167-169 | an open connection with an empty buffer, before its first message |
| LineFraming.Listener.TakeLine | bridge/src/stratum_listener.rs:381-384 | the text up to the first newline is cut off the buffer and trimmed; `TrimSpec` and `TrimUnique` determine the trimming |
| LineFraming.TrimSpec | bridge/src/stratum_listener.rs:383 | trimming takes white characters off both ends and nothing else, until none is left there; nothing remains exactly of all-white text |
| LineFraming.TrimUnique | bridge/src/stratum_listener.rs:383 | that determines the trimmed text |
| LineFraming.TrimIgnores | bridge/src/stratum_listener.rs:383 | white characters around a line, a carriage return among them, do not change what is handed over |
| LineFraming.WhiteAscii | bridge/src/stratum_listener.rs:383 | among ASCII characters, exactly space, tab, newline, carriage return, vertical tab and form feed are white |
| LineFraming.RefusedLines | bridge/src/stratum_listener.rs:235-244 | in literals, exactly which lines are refused |
| LineFraming.StripSpec | bridge/src/stratum_listener.rs:225-226 | each byte of a read stays, in order, exactly when it is not zero |
| LineFraming.Listener.DrainLines | bridge/src/stratum_listener.rs:381-444 | all complete lines leave the buffer; the trimmed non-empty ones are handed over up to the first line of HTTP, which ends the connection |
| LineFraming.Listener.Read | bridge/src/stratum_listener.rs:223-444 | one read: zero bytes stripped, first-message check, then the framing of buffer and read together |
| LineFraming.SplitsDoNotMatter | bridge/src/stratum_listener.rs:379-444 | over every sequence of reads whose first is not rejected: messages, rejection and buffer are those of the whole text framed at once |
| LineFraming.BytesDecide | bridge/src/stratum_listener.rs:223-386 | two splits of the same ASCII bytes, neither rejected at its first read, lead to the same messages and buffer |
| LineFraming.FramedExactly | bridge/src/stratum_listener.rs:229-298 | the first-message check changes nothing exactly when it accepts, or a complete line follows and the rejected word is not the "SM" of a longer first line |
| LineFraming.SplitMatters | bridge/src/stratum_listener.rs:235-244 | any first line that continues "SM" is handed over from one read and refused when the read ends after "SM" |
| Chunking.NextChunkUpperBound | mining/src/manager.rs:511-527 | none exactly at the end; else a non-empty chunk, below the limit or single, which the next transaction would bring to the limit |
| Chunking.MassOf | mining/src/manager.rs:519 | the larger of the two masses, zero when they are not known |
| Chunking.GreedyUnique | mining/src/manager.rs:511-527 | that description determines the bound |
| Chunking.ValidateInChunks | mining/src/manager.rs:348-359 | the loop ends; its chunks are contiguous from first to last transaction; one result for each transaction, chunk by chunk in order |
| Chunking.CoveredOnce | mining/src/manager.rs:460-471 | every transaction lies in exactly one chunk |
| Chunking.FewestChunks | mining/src/manager.rs:700-710 | no way of cutting the list into admissible chunks uses fewer chunks |

## Left out

- Padding, sign and alternate flags of `Display`, hexadecimal and byte conversions, `carrying_mul_u64`, `mod_inverse`, saturating and operator wrappers, serialization and JavaScript glue of `math/src/uint.rs`: they would only add easy members or rest on foreign libraries.
- UintFloat.AsF64: values above 1024 bits are excluded; the exponent field of the code has no room for them.
- Debug assertions that guard shifts and operators in `math/src/uint.rs`.
- JobRing.ValidateShare: subtraction wraps as in release builds, where a debug build stops on id 0; hashes, targets and the node's answer to a submitted block are functions of the job; the job table and the pool target do not change during the walk.
- Blocks found, variable difficulty, hash-rate sums, Prometheus counters and log output of the share handler.
- ShareRuns.CountedStep: counters are unbounded, where the code has 64-bit integers.
- ShareRuns.RunInv: a submission is not cancelled between its steps and keeps its worker id, as the messages of a connection are handled one after the other; the retention rule of the pruning thread is any set of workers, so the theorems hold for every rule.
- Parsing of a submission and the checks before the duplicate guard.
- SocketWriter.RunInv: bytes, partial writes on timeout and cancellation are not modelled; a turn of the listener's loop is a call of its own, so turns may overlap where the code runs one after the other; atomics are sequentially consistent, where the code uses acquire and release.
- DbAccess.RunCoherent: operations are sequential and database writes succeed; a miss that races a write is not atomic in the code.
- SetAccess.CachedDbSetAccess.Read: returns the set as it is, where the source hands out a shared handle that later writes to a cached set change.
- The fallback-prefix reads and iterators of `database/src/access.rs`.
- The single-value stores of `database/src/item.rs`: a cache of one entry over the same writers.
- LineFraming.Listener.Read: the lossy UTF-8 decoding of one read is a parameter, assumed only to map ASCII bytes to their characters where bytes are compared; handlers, timeouts and end of stream are not modelled.
- Chunking.ValidateInChunks: validation is a function that returns one result for each transaction; masses are unbounded, where the code has 64-bit integers.
- The mempool, the orphan worklist, templates, proof-of-work hashing, consensus, networking and user interfaces of the repository.
