# Verified model of the persistent-memory benchmarks

The repository measures persistent memory with a small engine of assembly loops, and databases with TPC-H.
This project models the engine's loops and three of the queries in Dafny, and proves what they are relied on for.

## What is modelled

**Pointer chase** (`ChaseIndex`, `ChaseWalk`). The builder draws random successors into a zeroed array in which 0 means
both "not visited" and "back to node 0". The writer walks that array and plants each successor in a line of memory; the
reader walks memory alone. The array returned is always a single cycle, every single cycle can come out, and the reader
retraces the writer exactly when no step of a block hits a line that an earlier block stored for another node.

**Persistence** (`Persistence`, `CacheFence`, `CacheFenceSafety`). A written line is dirty, pending (written back or
stored non-temporally) or durable (fenced). A processor object issues instructions and keeps their history. After a crash
the durable lines are there, and any subset of the other written lines. `cachefence` is proved safe after every
instruction, not only at the end.

**Generators** (`Lfsr`, `LfsrPeriod`, `Lcg`). The shift register has period 2^64-1: the period divides 2^64-1, and by none
of its prime factors 3, 5, 17, 257, 641, 65537 and 6700417, proved prime in `Arith`, can it be divided. The
congruential generator has full period modulo every 2^k, and so has the three-step update of `rand_r_32`, which uses the
multiplier and increment of the sample `rand` in section 7.20.2.2 of ISO/IEC 9899:1999.

**Access loops and jobs** (`Loops`, `AccessLoops`, `BandwidthJobs`, `JobSafety`). The unrolled do-while loops refine a
walk of single lines. On top of them stand the passes and fences of the per-thread jobs, the exact tiling of the work set,
the traffic, and the exact condition on the seed and the access size under which the random job stays in its work set.

**Threads** (`Threads`, `FileStores`). The partition of memory or of a file among threads, and all interleavings of them:
instruction by instruction for memory, in pieces of any size for files.

**Queries** (`Relational`, `LikePattern`, `Query13`, `Query15`, `Query21`; sections 2.4.13, 2.4.15 and 2.4.21 of the TPC-H
specification). Tables are sequences of rows with the columns the query reads; the keys of the schema are premises only
where a result needs them.

`Arith` holds the number theory and the pigeonhole principle that the other modules share. Give
`--resource-limit 2000000 --verification-time-limit 0 --warn-contradictory-assumptions` to `dafny verify dfyconfig.toml` to check
the whole project: the bit-vector lemmas are sized for these options.

## Findings

Where the code does not do what its comments or callers suggest, the model follows the code.

- `size_bwjob` is launched with an access size of 256 (microbenchmarks/benchmark.cc:344), but the inner block of the
  `sizebw_*` loops is 512 bytes (microbenchmarks/memaccess.cc:23-26). Each random pass therefore moves twice the bytes that
  the bandwidth formula assumes (`RandomTrafficIsDoubled`); the access sizes for which the formula is right are those of
  `RandomTrafficIff`.
- An access at the last line of the work set runs past its end, into the next thread's region, by 448 bytes at the launched
  size. A random job stays in its work set exactly when its warm-up pass does and none of its draws comes that near the end
  (`RandomJobStaysInsideIff`; 838,860,800 draws at the launched size, `LaunchedJobStaysInsideIff`). No access size is safe for all seeds: one seed overruns on
  the first draw, whatever the size (`NoAccessSizeIsSafe`). Every nonzero seed overruns if enough passes are run
  (`LongRunsOverrun`); whether the hundred passes of a job are enough is what the condition on its draws decides. Durability does not suffer:
  wherever the threads overlap, what they wrote is durable at the end (`AllRandomLinesDurable`).
- `random_lat` indexes with a char (microbenchmarks/run_thread.cc:153), so after the mask only four offsets remain
  (`FourOffsets`).
- The seed of `size_bwjob` is declared with 32 bits, but the register loads and stores 64 (microbenchmarks/memaccess.cc:37-44);
  the model's seed is the whole 64-bit word. A zero word would never move (`ZeroSeedNeverMoves`).
- The chase is read back as written exactly when no step of a block hits a line that an earlier block stored for another node
  (`RoundTripIff`). For walks over the whole cycle and skips in whole lines this means that the blocks coincide or are at least
  64*csize bytes apart (`WholeCycleRoundTripIff`); shorter walks may get through with a smaller skip.
- A pass tiles the work set for exactly the access sizes of `TilesIff`; for other sizes the do-while loops overshoot or leave gaps.
- On Linux the two store paths of the file benchmark need not leave the same file when the access size divides the work set:
  a `pwrite` takes at most 2,147,479,552 bytes, one page less than the work set, and the source compares its result with -1 only
  (microbenchmarks/memaccess.cc:461-465). `PathsAgreeIff` and `PathsAgreeOnLinuxIff` have the exact conditions.
- More than 27 threads do not fit in the mapped region (`RegionFitsIff`), although the affinity table has 48 entries.
- The comments beside `op` in the jobs say 0 is a non-temporal store and 1 a store with write-back
  (microbenchmarks/run_thread.cc:331, 425); the function tables put loads at 0.

## Modelling choices

- Every loop of the assembly is a do-while with a signed comparison, and is kept so: the body runs at least once, and the counters
  may overshoot. Inner loops are methods of their own. Each method is proved against a recursive description of what it does.
- Addresses are unbounded integers, one for each line; registers that compute words (the shift register, the chase's shift
  by six, unsigned int arithmetic) wrap as in the source.
- `rdrand` outcomes are a finite sequence given in advance. When it ends before the builder does, the status is `Running`;
  every result holds for every such sequence.
- MFENCE and SFENCE make pending lines durable alike; no property needs the difference.
- Money is in integers of the schema's smallest unit, and dates are compared as calendar dates or day numbers.

## Model

| member | source | states |
|---|---|---|
| `ChaseIndex.GetRand` | microbenchmarks/memaccess.cc:611-627 | the first ready one of at most 32 `rdrand` outcomes is taken, and the value is its remainder by the range; 32 failures give up; exactly the outcomes looked at are consumed |
| `ChaseIndex.AcceptedIffFresh` | microbenchmarks/memaccess.cc:640-644 | the retry test `cindex[next] != 0 or next == curr` rejects exactly the nodes visited already, node 0 included, although 0 also marks an unset entry |
| `ChaseIndex.AcceptableCount` | microbenchmarks/memaccess.cc:640-644 | after i accepted draws exactly csize-1-i values end the retry loop, and 0 is never one of them |
| `ChaseIndex.InitChasingIndex` | microbenchmarks/memaccess.cc:629-651 | return code, outcomes left over and final array are those of the draw-by-draw run `Build`, for every stream of hardware outcomes |
| `ChaseIndex.BuilderIsCorrect` | microbenchmarks/memaccess.cc:629-651 | for every size and stream: the builder returns 0 exactly when its array is one cycle through all nodes, and in every case the array holds a simple path from 0 |
| `ChaseIndex.BuilderStopsRight` | microbenchmarks/memaccess.cc:636-650 | for every stream the path is node 0 and the remainders of the outcomes consumed, in order of first appearance; 0 is returned at the outcome that completes the nodes, 1 after 32 failures in a row |
| `ChaseIndex.PathIsFollowed` | microbenchmarks/memaccess.cc:642-650 | an array given up half way still leads from 0 along the drawn nodes to one whose entry is unset |
| `ChaseIndex.CompletePathIsCycle` | microbenchmarks/memaccess.cc:646-650 | the entry that is never written is the last node's, and its zero closes the path into a single cycle |
| `ChaseIndex.CycleVisitsAll` | microbenchmarks/memaccess.cc:629-651 | following a built array from 0 meets every node within csize steps |
| `ChaseIndex.LinksInjective` | microbenchmarks/memaccess.cc:629-651 | different accepted draw sequences give different arrays |
| `ChaseIndex.CycleHasPath` | microbenchmarks/memaccess.cc:629-651 | every single-cycle permutation is the array of its own sequence of nodes |
| `ChaseIndex.EveryCycleIsBuilt` | microbenchmarks/memaccess.cc:629-651 | every single-cycle permutation is produced by some stream of outcomes, with return code 0 |
| `ChaseWalk.ChasingStoreClwb` | microbenchmarks/memaccess.cc:653-685 | the stores are, block by block and in order, the walk along `cindex` from node 0, each line receiving the number of the next node |
| `ChaseWalk.ChasingLoadNt` | microbenchmarks/memaccess.cc:687-716 | the loads follow memory alone from node 0 of each block |
| `ChaseWalk.StoreAt` | microbenchmarks/memaccess.cc:656-680 | step k of block j stores the number of the next node in the line of the k-th node of the walk, j skips and 64 bytes a node from the start, modulo 2^64 |
| `ChaseWalk.LoadAt` | microbenchmarks/memaccess.cc:690-711 | step k of block j loads the line of the node number in hand, which is 0 at first and then the word just loaded, j skips from the start |
| `ChaseWalk.LastStoreWins` | microbenchmarks/memaccess.cc:665-698 | a line holds the word of the last store to it, and what it held before if there was none |
| `ChaseWalk.LoadsRetraceStores` | microbenchmarks/memaccess.cc:653-716 | without a clash, even on an array that is not a cycle, the reader's line and word sequence equals the writer's, for any earlier contents of memory |
| `ChaseWalk.RoundTripIff` | microbenchmarks/memaccess.cc:653-716 | for every start, size, skip and count: the loads are the stores, line for line and word for word, if and only if no step of a block hits a line that an earlier block stored for another node |
| `ChaseWalk.ApartNeverClashes` | microbenchmarks/memaccess.cc:653-716 | blocks that coincide, or lie at least 64*csize bytes apart in either direction, never clash |
| `ChaseWalk.WholeCycleRoundTripIff` | microbenchmarks/memaccess.cc:653-716 | a walk over the whole cycle with a skip in whole lines is read back as written if and only if there is one block, the skip is 0, or the skip is at least 64*csize in size |
| `ChaseWalk.FullLap` | microbenchmarks/memaccess.cc:662-671 | a size of 64*csize stores to every line of the block exactly once and ends at word 0 |
| `Persistence.TagIff` | microbenchmarks/memaccess.cc:731-748 | a line is durable if and only if the last write to it has left the cache, by a write-back or by bypassing it, and a fence came after that; pending if only the fence is missing; dirty otherwise |
| `Persistence.TrackedIff` | microbenchmarks/memaccess.cc:731-748 | a line is tracked if and only if some instruction wrote it |
| `Persistence.CountersCount` | microbenchmarks/memaccess.cc:731-748 | the counters are the numbers of stores, write-backs and fences issued |
| `CacheFence.WriteGroup` | microbenchmarks/memaccess.cc:730-736 | one flush group stores ceil(cache/64) lines, at least one |
| `CacheFence.FlushGroup` | microbenchmarks/memaccess.cc:740-744 | the write-backs cover exactly the lines of the group just stored |
| `CacheFence.CacheFence` | microbenchmarks/memaccess.cc:719-756 | the three do-while loops with their four counters terminate and issue exactly the instruction sequence `Trace` |
| `CacheFenceSafety.EachLineOnceInOrder` | microbenchmarks/memaccess.cc:724-751 | every line of [0, T) is stored once in address order and written back once in the same order, T being the least number of whole epochs that covers size |
| `CacheFenceSafety.InOrderAt` | microbenchmarks/memaccess.cc:731-742 | line number i begins 64*i bytes from the start |
| `CacheFenceSafety.SizesAreLeast` | microbenchmarks/memaccess.cc:735-751 | a flush group is the fewest lines that cover cache, an epoch the fewest groups that cover fence, the call the fewest epochs that cover size; at least one each |
| `CacheFenceSafety.EveryMomentIsPhased` | microbenchmarks/memaccess.cc:726-747 | at every instruction: a flush group has been stored whole before its first write-back, and written back whole before the next group is stored |
| `CacheFenceSafety.EveryMomentIsSafe` | microbenchmarks/memaccess.cc:719-756 | after every single instruction: completed epochs are durable, lines not written back fit in one flush group, lines not fenced fit in one epoch |
| `CacheFenceSafety.EndIsDurable` | microbenchmarks/memaccess.cc:746-751 | at the end there has been one fence per epoch and every line stored is durable |
| `CacheFenceSafety.CrashSafety` | microbenchmarks/memaccess.cc:719-756 | a crash after any instruction keeps every line of the completed epochs, keeps nothing that was not stored, and loses at most one epoch of lines |
| `AccessLoops.RandLfsr64` | microbenchmarks/memaccess.cc:37-46 | the ten instructions on the 64-bit seed word are one `Lfsr.Step`, and r8 is the new state under the mask |
| `Lfsr.StepIs` | microbenchmarks/memaccess.cc:37-46 | a step shifts right by one and flips the bits of 0xd800000000000000 if the bit shifted out was 1 |
| `Lfsr.StepIsBijective` | microbenchmarks/memaccess.cc:37-46 | a step can be undone: the mask's top bit tells the bit that was shifted out |
| `Lfsr.StepIsLinear` | microbenchmarks/memaccess.cc:37-46 | a step is linear over xor |
| `Lfsr.StepFixesOnlyZero` | microbenchmarks/memaccess.cc:37-46 | 0 is the only state that a step sends to 0 |
| `Lfsr.IterateIsLinear` | microbenchmarks/memaccess.cc:37-46 | so are any number of steps |
| `LfsrPeriod.OrderIsFull` | microbenchmarks/memaccess.cc:55 | with the mask 0xd800000000000000 the state 0x8000000000000000 first returns after exactly 2^64-1 steps |
| `LfsrPeriod.PeriodIsMaximal` | microbenchmarks/memaccess.cc:37-55 | from any nonzero state, n steps return to it if and only if 2^64-1 divides n |
| `LfsrPeriod.AllStatesOnOneCycle` | microbenchmarks/memaccess.cc:37-55 | from any nonzero state every nonzero state is reached |
| `Lcg.RunClosedForm` | microbenchmarks/run_thread.cc:395-406 | n steps of x -> a*x+c modulo m in closed form |
| `Lcg.GeometricDivisible` | microbenchmarks/run_thread.cc:395-406 | for a = 1 mod 4, 2^k divides 1+a+...+a^(n-1) if and only if it divides n |
| `Lcg.ReturnsIff` | microbenchmarks/run_thread.cc:395-406 | for every k, a = 1 mod 4 and odd c: n steps modulo 2^k return to the start if and only if 2^k divides n |
| `Lcg.VisitsAll` | microbenchmarks/run_thread.cc:395-406 | such a generator meets every residue |
| `Lcg.SeedPeriodIsMaximal` | microbenchmarks/run_thread.cc:390-412 | calling `rand_r_32` n times restores the seed if and only if 2^32 divides n, three steps a call included |
| `Lcg.AllSeedsOnOneCycle` | microbenchmarks/run_thread.cc:390-412 | repeated calls lead from any 32-bit seed to any other |
| `Lcg.XorOfDisjoint` | microbenchmarks/run_thread.cc:401-407 | the two xors add, because the shifted operand has its low ten bits clear |
| `Lcg.XorBits` | microbenchmarks/run_thread.cc:402-407 | each bit of an xor is set if and only if the two bits differ |
| `Lcg.RandR32` | microbenchmarks/run_thread.cc:390-412 | the new seed is the old one after three steps of x*1103515245+12345 modulo 2^32; the result, in [0, 2^31), consists of 11, 10 and 10 bits from bit 16 up of the three states; no shift overflows |
| `AccessLoops.Block256` | microbenchmarks/memaccess.hpp:59-64 | the 256-byte block is four steps of the 64-byte walk |
| `AccessLoops.Block512` | microbenchmarks/memaccess.hpp:188-205 | the 512-byte block is eight steps of the 64-byte walk |
| `AccessLoops.Stride` | microbenchmarks/memaccess.cc:283-319 | the loop nest accesses max(1, count) times, skip bytes apart, whole 256-byte blocks that cover size; the do-while overshoot is part of it |
| `AccessLoops.StrideIsWalk` | microbenchmarks/memaccess.cc:283-319 | accesses that abut are one contiguous walk over their lines |
| `JobSafety.StrideTouches` | microbenchmarks/memaccess.cc:296-315 | line r of access k lies k skips and 64*r bytes from the start, and there are exactly count times the lines of an access |
| `JobSafety.StrideEffect` | microbenchmarks/memaccess.cc:283-319 | a call of loads changes no line and issues no store or write-back; non-temporal stores are n stores and no write-back; stores with write-back are n of each |
| `AccessLoops.Seq` | microbenchmarks/memaccess.cc:803-904 | the `seq_*` loops: rounds of single lines, size bytes apart, until the end address, at least one |
| `AccessLoops.SeqIsWalk` | microbenchmarks/memaccess.cc:803-904 | with whole lines that fill the range, each line from start to end is accessed once in order |
| `AccessLoops.SizeBw` | microbenchmarks/memaccess.cc:48-104 | the four-way unrolled loop is the simple loop: 4*max(1, ceil(count/4)) accesses at the masked successive register states, and the saved seed is that many steps on |
| `AccessLoops.RandomAdd` | microbenchmarks/memaccess.cc:48-104 | drawing i and then j more from the saved seed is drawing i+j |
| `AccessLoops.CallsCompose` | microbenchmarks/memaccess.cc:224-281 | for positive counts divisible by 4, a call with a and then b is one call with a+b, in accesses and in saved seed |
| `JobSafety.RandomTouches` | microbenchmarks/memaccess.cc:59-99 | line r of the access of draw k+1 lies 64*r bytes from the masked state k+1 steps after the seed |
| `JobSafety.RandomEffect` | microbenchmarks/memaccess.cc:48-281 | the same counts for a random call |
| `BandwidthJobs.StridedBwJob` | microbenchmarks/run_thread.cc:349-374 | one warm-up and ten times ten measured passes over the work set, each followed by a fence |
| `BandwidthJobs.SizeBwJob` | microbenchmarks/run_thread.cc:432-460 | a strided warm-up and ten times ten random passes with the 64-byte mask of the work set, each followed by a fence, the seed carried from pass to pass |
| `JobSafety.PassesEffect` | microbenchmarks/run_thread.cc:359-374 | n strided passes issue n fences, and stores and write-backs as their kind says; passes of loads write nothing |
| `JobSafety.RandomPassesEffect` | microbenchmarks/run_thread.cc:452-460 | the same for n random passes |
| `BandwidthJobs.TilesIff` | microbenchmarks/run_thread.cc:349-374 | a pass touches each line of the work set once, in order, and nothing else if and only if the access size is a multiple of 256 that divides the work set or lies within the last block of it |
| `BandwidthJobs.PassTraffic` | microbenchmarks/benchmark.cc:201-205 | n tiling passes touch n times 2 GB: the 100 measured passes move what the bandwidth formula divides by |
| `JobSafety.StridedJobIsDurable` | microbenchmarks/run_thread.cc:359-374 | after the fence of any pass every line of that pass is stored and everything stored so far is durable |
| `JobSafety.RandomJobIsDurable` | microbenchmarks/run_thread.cc:452-460 | the same for the random passes |
| `JobSafety.RandomTrafficIsDoubled` | microbenchmarks/benchmark.cc:344 | with the launched access size of 256 a random pass moves twice the work set, because every access is rounded up to 512 bytes |
| `JobSafety.RandomPassMovesWorksetIff` | microbenchmarks/run_thread.cc:446-455 | a random pass moves exactly the work set if and only if rounds of four accesses rounded up to 512 bytes fill it and rounding up does not lower their number |
| `JobSafety.RandomTrafficIff` | microbenchmarks/benchmark.cc:240-250 | n random passes move the n times 2 GB of the bandwidth formula exactly for the access sizes of that condition |
| `JobSafety.OffsetBounds` | microbenchmarks/run_thread.cc:432-433 | every masked offset is a line of the work set |
| `JobSafety.MaskedIsAligned` | microbenchmarks/run_thread.cc:432-433 | for every mask (2^p-1) xor (2^a-1) a masked word is a multiple of 2^a |
| `JobSafety.MaskedIsAtMost` | microbenchmarks/run_thread.cc:432-433 | and it is at most 2^p-2^a |
| `JobSafety.OneAccessIff` | microbenchmarks/memaccess.cc:60-66 | a random access stays in a range if and only if its offset plus its length rounded up to 512 does not pass the end |
| `JobSafety.RandomPassesWithinIff` | microbenchmarks/run_thread.cc:452-460 | for every seed, access size and number of passes: the passes stay in a range if and only if each draw of the run leaves room for an access rounded up to 512 |
| `JobSafety.RandomJobStaysInsideIff` | microbenchmarks/run_thread.cc:446-460 | the whole job, warm-up included, stays in its work set if and only if the warm-up pass ends inside and each of its draws leaves room |
| `JobSafety.LaunchedJobStaysInsideIff` | microbenchmarks/benchmark.cc:344 | at the launched access size the job stays inside if and only if none of its 838,860,800 draws comes within the last 448 bytes |
| `JobSafety.RandomRunEnds` | microbenchmarks/run_thread.cc:446-460 | whatever the seed, no run reaches further than one rounded access from the last line |
| `JobSafety.NoAccessSizeIsSafe` | microbenchmarks/run_thread.cc:432-460 | for every access size there is a seed, the same one, whose first draw already leaves the work set |
| `JobSafety.LongRunsOverrun` | microbenchmarks/run_thread.cc:432-460 | from every nonzero seed some number of passes, below 2^64, leaves the work set |
| `JobSafety.ZeroSeedNeverMoves` | microbenchmarks/memaccess.cc:37-46 | a zero seed draws offset 0 for ever |
| `JobSafety.FourOffsets` | microbenchmarks/run_thread.cc:153 | a char widened to int and masked takes only four values |
| `JobSafety.RandomLatency` | microbenchmarks/run_thread.cc:151-157 | access j goes to the base, 64 bytes on for each access before it, plus the masked char |
| `JobSafety.LatencyStaysNear` | microbenchmarks/run_thread.cc:142-157 | every latency access is 64-byte aligned to the base and ends within 2^30+2^26 bytes of it, inside the work set |
| `Threads.Launch` | microbenchmarks/benchmark.cc:176-198 | thread i gets exactly region i, the access size, its number, and the operation that the two flags select |
| `Threads.RegionsPartition` | microbenchmarks/benchmark.cc:180 | regions are disjoint, and the first n are exactly the n work sets from start on |
| `Threads.AlignedRegionFits` | microbenchmarks/benchmark.cc:349-351 | the rounded address is page aligned and stays within the extra page allocated |
| `Threads.RegionFitsIff` | microbenchmarks/benchmark.cc:349-352 | the regions of n threads fit in the mapped region if and only if n is at most 27 |
| `Threads.RegionsDoNotInterfere` | microbenchmarks/benchmark.cc:176-202 | in every interleaving of threads that keep to their regions, the state of each line is what its own thread alone makes of it, fences being per core |
| `Threads.FencedRegionIsDurable` | microbenchmarks/run_thread.cc:362-374 | as soon as a storing thread has fenced a pass, every line of its region is durable, whatever the others are doing |
| `Threads.AllRegionsDurable` | microbenchmarks/benchmark.cc:176-202 | when all threads have finished, exactly the lines of the n work sets have been written and all are durable, in every interleaving |
| `Threads.PairedThreadsEndDurable` | microbenchmarks/memaccess.cc:529-565 | in every interleaving, overlapping or not: if each core writes back each line at once after storing it, and has fenced last, then every line written is durable |
| `Threads.WrittenIff` | microbenchmarks/benchmark.cc:220-246 | memory holds a line if and only if some core has written it |
| `Threads.AllRandomLinesDurable` | microbenchmarks/benchmark.cc:220-246 | when all random threads have finished, exactly the lines that their jobs write have been written and all are durable, for all seeds, access sizes and interleavings, although regions may be overrun |
| `FileStores.StrideSsdStore` | microbenchmarks/memaccess.cc:458-467 | the positional write replaces its size*count bytes, or as many as the system takes in one call, and no other byte; a short count goes unnoticed |
| `FileStores.StrideSsdMmapStoreNoDrain` | microbenchmarks/memaccess.cc:513-525 | the chunked copy loop leaves the image of one write of size*count bytes at start, and its writes are the chunks in order |
| `FileStores.DispatchIsRight` | microbenchmarks/run_thread.cc:487-489 | op + mmap + 3 selects the load or store function of the right path from the table |
| `FileStores.StridedSsdBwJob` | microbenchmarks/run_thread.cc:487-530 | on either path the job leaves the thread's range holding what one call writes and every other byte unchanged; the writes of its 101 calls are recorded |
| `FileStores.JobWritesInOrder` | microbenchmarks/run_thread.cc:507-519 | the writes recorded are those of 101 calls: on the mapped path each call writes the range in chunks of the access size in order, on the positional path in one piece up to the cap |
| `FileStores.ImagesAgreeIff` | microbenchmarks/memaccess.cc:458-525 | on a given file the two paths leave the same image if and only if the cap on one call is not reached or the bytes beyond it are there already |
| `FileStores.PathsAgreeIff` | microbenchmarks/run_thread.cc:487-530 | the two paths agree for every file and buffer if and only if the cap admits all the bytes of a call |
| `FileStores.PathsAgreeOnLinuxIff` | microbenchmarks/memaccess.cc:461-465 | with the cap of Linux they agree if and only if the access size leaves at least a page of the work set over |
| `FileStores.AnyLandingSameImage` | microbenchmarks/benchmark.cc:272-300 | the writes that the jobs record may land in pieces of any size, in any order and any number of times: the file ends the same |
| `FileStores.JobsFill` | microbenchmarks/benchmark.cc:272-300 | and that end is the one of running the jobs one after another |
| `Relational.GroupingConserves` | tpch/sql-for-duckdb/queries/q13.sql:12-16 | grouping keeps every total weighted by the grouping key |
| `Relational.OrderIsUnique` | tpch/sql-for-duckdb/queries/q13.sql:17-19 | the ordering leaves one possible output: two sorted arrangements of the same rows are equal |
| `Relational.StringLeIff` | tpch/sql-for-duckdb/queries/q21.sql:37 | a name comes first if it is a beginning of the other or has the smaller character where they first differ |
| `LikePattern.LikeTwoWords` | tpch/sql-for-duckdb/queries/q13.sql:11 | a pattern of two words between percent signs matches exactly the texts with both words, in order and without overlap |
| `Query13.PassesIff` | tpch/sql-for-duckdb/queries/q13.sql:11 | an order is left out if and only if its comment says special and, after it, requests |
| `Query13.OneRowPerCustomer` | tpch/sql-for-duckdb/queries/q13.sql:4-14 | the join and the inner grouping give each customer one row with the number of its orders that pass |
| `Query13.RowIff` | tpch/sql-for-duckdb/queries/q13.sql:1-19 | there is a row (k, d) if and only if d, at least one, is the number of customers whose orders that pass number k; customers without orders make the row of k = 0 |
| `Query13.OneRowPerCount` | tpch/sql-for-duckdb/queries/q13.sql:15-16 | no c_count has two rows |
| `Query13.ResultIsOrdered` | tpch/sql-for-duckdb/queries/q13.sql:17-19 | of two rows the earlier has the greater custdist, or the same and the greater c_count |
| `Query13.CustomersConserved` | tpch/sql-for-duckdb/queries/q13.sql:1-19 | custdist sums to the number of customers |
| `Query13.OrdersConserved` | tpch/sql-for-duckdb/create.sql:44-63 | by the keys of customer and orders, c_count * custdist sums to the number of orders that pass the filter |
| `Query15.ViewIsInlined` | tpch/sql-for-sqlserver/queries/15.sql:4-16 | the form with a view and dateadd returns the rows of the twice inlined form; the operators are shared, so what is shown is that the two date windows are one |
| `Query15.MonthsAdded` | tpch/sql-for-sqlserver/queries/15.sql:6 | adding months moves the month count by as many, and the day only where the month reached is too short |
| `Query15.WindowIff` | tpch/sql-for-duckdb/queries/q15.sql:15-17 | the window is January to March 1996 |
| `Query15.AmountIs` | tpch/sql-for-duckdb/queries/q15.sql:12 | an amount is l_extendedprice * (1 - l_discount) |
| `Query15.RevenueIff` | tpch/sql-for-duckdb/queries/q15.sql:10-19 | a revenue row is a supplier with a sale in the window, with the sum of its sales there |
| `Query15.WinnersIff` | tpch/sql-for-duckdb/queries/q15.sql:1-37 | the result is exactly the suppliers with sales whose revenue no other supplier with sales exceeds, each with that revenue |
| `Query15.NonemptyIff` | tpch/sql-for-duckdb/create.sql:35-83 | by the foreign keys lineitem to partsupp to supplier, the result is nonempty if and only if something was shipped in the window |
| `Query15.SuppliersRise` | tpch/sql-for-duckdb/queries/q15.sql:36-37 | s_suppkey strictly rises, so no supplier is repeated |
| `Query21.SubqueriesCount` | tpch/sql-for-duckdb/queries/q21.sql:13-30 | for a late line, EXISTS holds if and only if its order has at least two suppliers, NOT EXISTS if and only if it has one late supplier |
| `Query21.LineJoinsOnce` | tpch/sql-for-duckdb/queries/q21.sql:4-32 | by the primary keys a line joins into one row if it waits and into none otherwise |
| `Query21.NumwaitConserved` | tpch/sql-for-duckdb/queries/q21.sql:1-34 | before the limit, numwait sums to the number of late lines in F orders with at least two suppliers of which only one, from the chosen nation, is late |
| `Query21.RowIff` | tpch/sql-for-duckdb/queries/q21.sql:1-34 | before the limit a name has a row if and only if such a line has a supplier of that name, and numwait counts these lines |
| `Query21.OneSupplierPerOrder` | tpch/sql-for-duckdb/queries/q21.sql:14-30 | no order contributes to two suppliers |
| `Query21.LimitKeepsTheTop` | tpch/sql-for-duckdb/queries/q21.sql:35-38 | whatever the limit cuts off has fewer waiting lines than anything kept, or as many and a later name |
| `Query21.RowsAreOrdered` | tpch/sql-for-duckdb/queries/q21.sql:33-37 | of two rows the earlier has the greater numwait, or the same and the earlier name; no name has two rows |
| `Query21.ResultIsPrefix` | tpch/sql-for-duckdb/queries/q21.sql:38 | the result is the first hundred rows, or all of them |
| `Query21.NameIs` | tpch/sql-for-duckdb/queries/q21.sql:2 | by the primary key the name counted under is that of the supplier with the key |

## Left out

- ChaseWalk.ChasingStoreClwb: models the low 64-bit word of each line, which is all that the chase reads; the upper words and the write-backs are not part of it.
- ChaseWalk.RoundTripIff: takes addresses of different lines as different; a skip that is not a multiple of 64 makes the source's aligned stores fault.
- ChaseIndex.InitChasingIndex: does not cover csize = 0, where the source's unsigned loop bound wraps around and no array is valid.
- CacheFenceSafety.EveryMomentIsSafe: starts with no line written, so that the lag bounds speak of this call's lines only.
- AccessLoops.Seq: asks for a positive size, or a first round that reaches the end address, since the source loops for ever otherwise.
- FileStores.StridedSsdBwJob: writes are taken to succeed, and each positional write to take the same number of bytes, the cap; interrupted or failing calls are not part of it. `msync` and `fsync` leave the image alone.
- BandwidthJobs.SizeBwJob: the initial seed word is a parameter, because the source leaves it uninitialised before `rand_r_32`.
- JobSafety.RandomLatency: the measured kernels of common.hpp are not part of this model, only the addresses they are given.
- Timing, CPU affinity, NUMA placement, mapping of files, error exits and printing.
- Evictions: a dirty or pending line may reach memory early, which the crash model allows, but not when.
- `cacheprobe`, `imcprobe`, `stride_read_after_write`, `stride_store` and the other variants that repeat loop shapes proved here.
- NULL values in columns, collations, padding of CHAR columns, and decimal overflow in the queries.
- The other TPC-H queries and their dialect copies, which are mostly filters and sums; scripts and configuration.
