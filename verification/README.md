# Proofs about the miner

Dafny models of six parts of the miner, with proofs of what they promise. Each model follows the
code: the same branches, the same limits, the same treatment of odd input. Where code and
comments disagree the model follows the code, and a lemma says what is true instead.

**The cycle pipeline of c29.cpp.** `CycleGraph`, `CycleSearch` and `CycleFinder` model
`create_path`, `reverse_path` and `find_cycles` on the two maps they change; `CycleSoundness`,
`CycleForest` and `CycleCompleteness` prove what is emitted and when. Path nodes are compared as
bare ids, the insert branch also runs for cycles of the wrong length, and paths are cut at 8192
nodes, as in the code; soundness holds for every input all the same. The comment above
`find_cycles` promises all cycles of the target length. `CycleMissed` gives a graph where one is
missed; `CycleEmission` and `CycleEmitted` prove which cycles are emitted, those all of whose
edges but one join parts of the graph that the edges before them leave apart, and `CycleExact` for
which inputs: those all of whose cycles of that kind have the target length. It is read off the
input alone, and cycles of other kinds may have any length. For all other inputs `CycleInsert` says
what an edge does to the maps, whatever they hold, and `CycleLater` that a cycle on new vertices is
still found. `TrimRounds` says what a trimming round should do, `TrimKernel` models the kernel as a machine whose steps are its atomic
operations, and `TrimProof` shows that every interleaving does a round. `CyclePipeline` puts
trimming and search together, and `NoncePacking` is the bit packer behind them.

**The thread pool of ctpl-stl.h.** `ThreadPool` is a transition system of any number of workers,
the pushers and the thread that calls `stop`; `ThreadPoolProof` and `ThreadPoolRuns` prove its
invariant and what follows for whole runs.

**The big integer of fmt.** `Numbers`, `BigValue` and `BigArithmetic` are the arithmetic;
`BigInt` has the class with its methods in place. `compare` is not the comparison of the numbers
when one is written with trailing zero bigits, and the closing borrow loop of `subtract_aligned`
does not advance its index; the contracts of both, and of the division that uses them, say exactly
when the result is the intended one.

**Ethash.** `Ethash` has the three forms of a dataset item, the full dataset and the hash;
`FastMod` has the division by multiplication and the constants for it, `EthashLaws` what the hashes
depend on, in whole numbers, and `WordXor` exclusive or on numbers.

**Keccak.** `KeccakSpec` is the permutation of FIPS 202, sections 3.2 and 3.3, `KeccakInPlace` its
two in-place forms, `KeccakSponge` the sponge of section 4 and the single block of the first
kernel. `KeccakBits` states the same standard on 1600 bits and on bit strings; `KeccakWords`, with
the 64-bit words of `WordBits` and `WordShifts` and the round constants, meets it bit for bit.
`ByteBits` reads bytes as bits.

**Device planning and text.** `DevicePlan` is the planner for the L3 cache, `DeviceText` its
run-length text and the functions that read it, `Framing` the line framers, `Target` the codec
between difficulty and target. `Strings` has the JavaScript string operations they use. `Words` has
the unsigned integers of 32 and 64 bits, `Sequences` facts about sequences.

Numbers are unbounded unless a type or a contract bounds them; where the width of a word matters
(tickets of the kernels, borrows and carries, `fast_mod`, the planner) it is written out. SHA3 is
a parameter of the Ethash model, and the operations on lanes are parameters of the Keccak model
until `KeccakWords` fixes them. The model of an object the code changes is a class, and each of
its methods is proved against a function of the old state.

## Model

| member | source | states |
|---|---|---|
| CycleFinder.Graphs.CreatePath | c29.cpp:84-107 | The ids listed are those of the path that follows the arcs of the two maps from the start, cut at the given length; the maps are not changed. |
| CycleFinder.Graphs.ReversePath | c29.cpp:110-128 | On any path of ids whose sides alternate, the two maps in place become the arcs of the specification with the path turned round. |
| CycleFinder.Graphs.InsertEdge | c29.cpp:193-202 | The shorter path is reversed and the start of it hung below the other end of the edge, also when a cycle of another length was closed. |
| CycleFinder.JoinPaths | c29.cpp:160-174 | The join is the first id of the first path that occurs in the second, at its first place there; bare ids are compared. |
| CycleFinder.AppendPairs | c29.cpp:180-190 | The pairs of neighbours up to the join are appended in path order, later vertex first. |
| CycleFinder.ProcessEdge | c29.cpp:148-203 | One edge changes the maps and the solutions as one step of the search does: known edges are skipped, a closed cycle of the target length is emitted, anything else is inserted. |
| CycleFinder.FindCycles | c29.cpp:131-206 | The returned list is that of the whole search, for every edge list and target. |
| CycleFinder.IdsDeterminePath | c29.cpp:84-107 | A path alternates sides, so its bare ids and the side of its start determine it. |
| CycleFinder.EntriesAreArcs | c29.cpp:110-128 | The two maps together have exactly one entry for every arc. |
| CycleInsert.ReversalTurns | c29.cpp:110-128 | Reversing any path, also one that runs into a directed cycle or was cut: where the path meets a vertex first, its arc then leads one step back, the start has none, and all other vertices keep theirs. |
| CycleInsert.InsertIs | c29.cpp:193-202 | Whatever the maps hold: after an insertion, and for no other map, the shorter path is turned in this way, its start hangs below the other end of the edge, and every other vertex keeps its arc. |
| CycleInsert.InsertJoinsEnds | c29.cpp:193-202 | Whatever the maps hold, the ends of an inserted edge are joined by an arc, one way or the other, and vertices off the shorter path keep theirs. |
| CycleInsert.EdgeIsEmittedOrJoined | c29.cpp:148-203 | In every run an edge changes nothing iff an arc joins its ends already; otherwise it is emitted iff the two paths meet at the target length, and an arc joins its ends from then on iff it is not. |
| CycleSoundness.PathFollowsArcs | c29.cpp:84-107 | A path runs along arcs and, unless it was cut, ends where there is no arc, even when the arcs contain directed cycles. |
| CycleSoundness.MeetingPathsCloseACycle | c29.cpp:176-191 | Two paths that first meet in one vertex close a simple cycle with the new edge, and the emitted pairs tour it. |
| CycleSoundness.EvenJoinIsAVertex | c29.cpp:160-176 | A join of bare ids whose cycle length is even is a common vertex: parity rules out a join of equal ids on opposite sides. |
| CycleSoundness.EmittedAreCycles | c29.cpp:131-206 | Every emitted list has target-many pairs (one for target 0) and is a simple cycle of the input graph if and only if the target is even and positive; nothing is emitted for target 2. For every input, with no hypothesis on ids, maps or path lengths. |
| CycleForest.PathEndsAtRoot | c29.cpp:84-107 | In a forest of fewer than 8191 arcs no path is cut: it is simple and ends at a root. |
| CycleForest.ReversalTurnsPath | c29.cpp:110-128 | Step by step, reversing a simple path that ends at a root turns exactly its arcs, makes its start a root, leaves all other arcs alone and keeps the number of entries. |
| CycleForest.ReversalReRoots | c29.cpp:110-128 | After the whole reversal the undirected edges are the same and the start is the root. |
| CycleForest.TurningKeepsAcyclic | c29.cpp:110-128 | Re-rooting keeps the arcs acyclic. |
| CycleForest.LinkingKeepsAcyclic | c29.cpp:193-202 | Hanging a root below a vertex of another tree keeps the arcs acyclic. |
| CycleForest.ForestHasNoCycle | c29.cpp:131-206 | Edges that are arcs of a forest contain no simple cycle. |
| CycleForest.SimpleWalkIsTreePath | c29.cpp:160-176 | A simple walk between two vertices of a tree is the tree path: up to where the two root paths first meet, and down. |
| CycleCompleteness.JoinIffConnected | c29.cpp:155-174 | In a forest a join is found if and only if the accepted edges already connect the two ends. |
| CycleCompleteness.InsertKeepsForest | c29.cpp:193-202 | Inserting an edge between two trees leaves a rooted forest of the accepted edges and the new one. |
| CycleCompleteness.ClosedCycleIsUnique | c29.cpp:160-191 | Every cycle the new edge closes has the length 1 + join_a + join_b and the vertices of the two paths. |
| CycleCompleteness.StepFromForest | c29.cpp:148-203 | From a forest: an edge is recognised iff it was accepted; otherwise a join is found iff the edge closes a cycle, all cycles it closes have the reported length, and without a join the result is a forest again. |
| CycleCompleteness.RunKeepsForest | c29.cpp:131-206 | While no cycle of another length was closed, no id is on both sides and fewer than 8192 edges are given: the maps are a rooted forest of exactly the accepted edges, and neither path of any edge is cut. |
| CycleEmission.AcceptedIffJoins | c29.cpp:131-206 | While no cycle of another length was closed, no id is on both sides and fewer than 8192 edges are given, the edges accepted are exactly those that join two parts which the edges before them leave apart. |
| CycleEmitted.EmittedOnTarget | c29.cpp:130-206 | In a run that closed no cycle of another length, with no id on both sides and fewer than 8192 edges, a cycle is emitted iff all its edges but one join parts which the edges before them leave apart. |
| CycleExact.OnlyTargetCyclesClosed | c29.cpp:176-202 | With no id on both sides and fewer than 8192 edges, the run closes no cycle of another length if and only if every cycle of the input that has exactly one edge left over has the target length. An edge is left over if the edges before it already connect its ends. Other cycles may have any length. |
| CycleExact.EmittedIffOneLeftOver | c29.cpp:130-206 | Under that condition on the input a cycle is emitted if and only if it has exactly one edge left over. |
| CycleExact.AllEmittedIffOneLeftOverEach | c29.cpp:130-206 | Under it, all cycles of the target length are emitted if and only if each of them has exactly one edge left over: the promise of the comment above find_cycles and the exact condition for it. |
| CycleExact.SolutionIffCycle | c29.cpp:131-206 | Under it, something is emitted iff the input has a cycle of any length. |
| CycleExact.FindsCycleIffThereIsOne | c29.cpp:131-206 | Under it, something is emitted iff the input has a cycle of the target length. |
| CycleExact.OffTargetMakesDirectedCycle | c29.cpp:193-202 | The step that first closes a cycle of another length leaves a directed cycle in the maps, and no step before it does. |
| CycleExact.EarlierCyclesStay | c29.cpp:131-206 | For any input: a cycle with one edge left over in a beginning of the list that meets the condition is emitted, whatever follows. |
| CycleLater.LaterCycleIsEmitted | c29.cpp:131-206 | A cycle of the target length whose edges follow any others in the order of a tour, on ids that are new but for one vertex, is emitted, whatever cycles of other lengths came before and whatever follows. |
| CycleMissed.OneMissed | c29.cpp:130-206 | The comment above find_cycles promises all cycles of the target length; on the complete graph with two left and three right vertices one of the three cycles of length four is not emitted. |
| CycleMissed.TwoEmitted | c29.cpp:130-206 | On that graph exactly two lists are emitted. |
| TrimKernel.OrSetsOneBit | c29.cpp:441-454 | Within its work group every id has a low and a high bit of its own: the two atomic operations set that bit and no other. |
| TrimKernel.SlicesAreDisjoint | c29.cpp:614-617 | Two tickets of different buckets, or two different tickets of one bucket below its room, write different cells. |
| TrimProof.StoreStaysInSlice | c29.cpp:614-617 | For every value of the bucket counter the store lies in the slice of the bucket of the new x. |
| TrimProof.RunKeepsInv | c29.cpp:568-623 | For every interleaving of the atomic operations, overflow or not, the invariant holds: counters, tickets and stores are right, and every written cell is in the slice of its bucket. |
| TrimProof.SomeAgentCanMove | c29.cpp:584-606 | Until all are done some agent can take a step, and every step that changes anything leaves less work: the barrier does not block the kernel. |
| TrimProof.HighBitMeansShared | c29.cpp:441-454 | Past the barrier the high bit of an id is set iff another entry has the same x. |
| TrimProof.EveryInterleavingDoesARound | c29.cpp:568-623 | For every interleaving that runs to its end, if no bucket overflows: the buckets hold exactly the non-(0,0) entries whose x occurs at least twice, swapped, with multiplicity, each in the bucket of its new x, and no cell that was not written is read back. |
| TrimProof.TrimmingKeepsExactlyCycles | c29.cpp:625-632 | After any number of kernels, each under any interleaving and without overflow, the cycles of the graph are exactly the cycles it had that do not use the edge (0,0). |
| TrimRounds.RoundMembers | c29.cpp:568-623 | An edge is in the result of a round iff its swap was an entry with x occurring at least twice. |
| TrimRounds.RoundInventsNothing | c29.cpp:568-623 | With multiplicity, a round leaves only edges it was given. |
| TrimRounds.RoundsKeepExactlyCycles | c29.cpp:625-632 | Any positive number of rounds keeps a cycle if and only if it avoids the edge (0,0), and makes no new one. |
| TrimRounds.CycleThroughBlankIsLost | c29.cpp:599-612 | A cycle through the edge (0,0) is gone after one round. |
| CyclePipeline.EmittedAreOriginalCycles | c29.cpp:131-206 | What the search emits on trimmed edges is a simple cycle of the graph before trimming. |
| CyclePipeline.EmitsIffOriginalHasCycle | c29.cpp:131-206 | If all trimmed edges reach the search, no id is on both sides, fewer than 8192 are left and every cycle left with exactly one edge left over has the target length, something is emitted iff the graph before trimming has a cycle avoiding (0,0). |
| NoncePacking.PackNonce | c29.cpp:842-851 | The bits of one nonce go to their places in the stream and no other bit changes. |
| NoncePacking.Pack | c29.cpp:837-851 | Bit b of nonce k is stream bit 29k + b; all other bits, the padding included, are clear; exactly ceil(29n / 8) bytes are written. |
| NoncePacking.RoundTrip | c29.cpp:837-851 | The obvious unpacker returns the nonces if and only if each of them fits in 29 bits. |
| NoncePacking.UnpackPacked | c29.cpp:842-851 | For any 32-bit nonces the unpacker returns each of them modulo 2^29. |
| NoncePacking.PackingIsInjective | c29.cpp:837-851 | Two lists of 29-bit nonces with the same packed bytes are the same list. |
| NoncePacking.PackedIsNumber | c29.cpp:837-851 | The bytes as one number, the first lowest, are the nonces cut to 29 bits, nonce k counting 2^(29 k). |
| ThreadPoolProof.WorkKeepsInv | ctpl-stl.h:209-234 | Every step of a worker loop keeps the invariant of the pool. |
| ThreadPoolProof.PushKeepsInv | ctpl-stl.h:172-184 | Queueing a task keeps the invariant. |
| ThreadPoolProof.NotifyKeepsInv | ctpl-stl.h:181-182 | notify_one keeps the invariant, whichever waiter it wakes. |
| ThreadPoolProof.StopperKeepsInv | ctpl-stl.h:142-170 | Every step of stop keeps the invariant: flags, notify_all, joins and both queue clearings. |
| ThreadPoolProof.EveryRunKeepsInv | ctpl-stl.h:44-236 | The invariant holds after every sequence of steps of workers, pushers and the stopper. |
| ThreadPoolRuns.EveryTaskOnce | ctpl-stl.h:44-69 | In every run tasks leave the queue in the order they were pushed; a pushed task is queued, in the hands of one worker, run or deleted, and never two of these. |
| ThreadPoolRuns.NoLostWakeup | ctpl-stl.h:224-231 | If a task is queued and all workers are blocked, a notification is still under way. |
| ThreadPoolRuns.IdleCountIsRight | ctpl-stl.h:226-228 | n_idle is the number of workers inside the wait, in every run. |
| ThreadPoolRuns.StopRunsEverything | ctpl-stl.h:139-170 | When the joins of stop(true) have returned, with at least one worker and no task queued after the call: with two or more workers every pushed task has been run and none was deleted, whatever was under way at the call; with one worker that is so if and only if the worker was not between its failed pop and its read of isDone with a task queued. |
| ThreadPoolRuns.NoPushUnderWay | ctpl-stl.h:172-231 | No worker is in that place when every push made so far has taken the pool mutex to notify. |
| ThreadPoolRuns.LatePushCanBeDropped | ctpl-stl.h:142-184 | With any number of workers a task queued after stop(true) was called can be deleted unrun. |
| ThreadPoolRuns.PushUnderWayCanBeDropped | ctpl-stl.h:172-231 | With one worker and nothing queued after the call, a task whose push was under way when stop(true) was called can be deleted unrun. |
| ThreadPoolRuns.NoWorkersDropTask | ctpl-stl.h:142-170 | Without workers, a task pushed and announced before stop(true) is deleted unrun. |
| ThreadPoolRuns.NoWorkersRunNothing | ctpl-stl.h:209-234 | Without workers no run of the pool runs a task. |
| ThreadPoolRuns.InternalStepsDecrease | ctpl-stl.h:44-236 | Every step the pool takes by itself uses something up. |
| ThreadPoolRuns.SpuriousCost | ctpl-stl.h:224-231 | A spurious wakeup allows five more steps while the workers have not been told to leave, and uses a step up from then on. |
| ThreadPoolRuns.NeverStuck | ctpl-stl.h:209-234 | While a task is queued and there are workers, or a stop is under way, some thread can step. |
| ThreadPoolRuns.PoolRunsTasks | ctpl-stl.h:172-234 | Without any stop every pushed task is run: the steps of a pool with workers are bounded up to six for every spurious wakeup, and where it can take no step by itself exactly the tasks pushed have been run and none was deleted. |
| ThreadPoolRuns.StopFinishes | ctpl-stl.h:142-170 | A stop comes to its end: after it was called, the steps of the pool are bounded up to six for every spurious wakeup, and bounded whatever wakes up once isDone or all flags are set; where the pool can take no step by itself the stop has finished. |
| BigInt.Accumulator.Add | xmrig/3rdparty/fmt/format-inl.h:1219-1222 | The two words add as a 128-bit unsigned integer, wrap-around included. |
| BigInt.Accumulator.AddProduct | xmrig/3rdparty/fmt/format-inl.h:1415-1421 | Adding a product of two bigits is exact as long as the sum stays below 2^128. |
| BigInt.Accumulator.ShiftRight32 | xmrig/3rdparty/fmt/format-inl.h:1223-1228 | The shift divides the 128-bit sum by 2^32. |
| BigInt.Bigint.Assign | xmrig/3rdparty/fmt/format-inl.h:1315-1323 | The bigits written stand for n, without a leading zero unless n is zero. |
| BigInt.Bigint.RemoveLeadingZeros | xmrig/3rdparty/fmt/format-inl.h:1253-1257 | The number is unchanged and the result has no leading zero bigit, or is the single bigit zero. |
| BigInt.Bigint.Multiply32 | xmrig/3rdparty/fmt/format-inl.h:1271-1280 | The bigits stand for the old number times the factor. |
| BigInt.Bigint.Multiply64 | xmrig/3rdparty/fmt/format-inl.h:1282-1297 | The same for a 64-bit factor, with the carry of two bigits and its closing loop. |
| BigInt.Bigint.ShiftLeft | xmrig/3rdparty/fmt/format-inl.h:1327-1340 | The value is multiplied by 2^shift, whole words going to the exponent. |
| BigInt.Bigint.SubtractBigits | xmrig/3rdparty/fmt/format-inl.h:1247-1251 | One bigit is subtracted with borrow; the borrow out is 0 or 1. |
| BigInt.Bigint.SettleBorrow | xmrig/3rdparty/fmt/format-inl.h:1267 | The closing loop takes the borrow from the one bigit it stays at: a positive bigit becomes one less, a zero bigit becomes 2^32 - 2. |
| BigInt.Bigint.SubtractAligned | xmrig/3rdparty/fmt/format-inl.h:1260-1269 | The result is the difference if and only if no borrow is left after the bigits of the other number or the bigit behind them is not zero. |
| BigInt.Bigint.Align | xmrig/3rdparty/fmt/format-inl.h:1440-1449 | The bigits move up and zeros fill in below, down to the exponent of the other number. |
| BigInt.AlignKeepsValue | xmrig/3rdparty/fmt/format-inl.h:1438-1449 | Aligning changes neither the value nor the absence of leading zeros. |
| BigInt.Bigint.DivmodAssign | xmrig/3rdparty/fmt/format-inl.h:1453-1464 | For a dividend below 2^31 times the divisor: quotient times divisor plus remainder is the old value, and the remainder is below the divisor if and only if the dividend was not the divisor written with fewer bigits. |
| BigInt.Bigint.DivideAligned | xmrig/3rdparty/fmt/format-inl.h:1457-1463 | The subtraction loop ends, never loses a borrow, and leaves quotient and remainder of the division. |
| BigInt.Bigint.Square | xmrig/3rdparty/fmt/format-inl.h:1408-1436 | The bigits and exponent stand for the square, with every column and carry within 128 bits, for fewer than 2^30 bigits. |
| BigInt.Bigint.AssignPow5 | xmrig/3rdparty/fmt/format-inl.h:1392-1404 | Squaring along the bits of the exponent leaves 5^e. |
| BigInt.Bigint.AssignPow10 | xmrig/3rdparty/fmt/format-inl.h:1389-1406 | The value left is 10^e, for every exponent below 2^30, where the int bit mask has room. |
| BigInt.Compare | xmrig/3rdparty/fmt/format-inl.h:1348-1362 | The result is the sign of the difference, except between a number and the same number with trailing zero bigits written out. |
| BigInt.AddCompare | xmrig/3rdparty/fmt/format-inl.h:1365-1386 | The result is the sign of lhs1 + lhs2 - rhs, for all operands without leading zero bigits and with any exponents. |
| BigValue.EqualValues | xmrig/3rdparty/fmt/format-inl.h:1348-1362 | Two numbers without leading zero bigits are equal iff they are written the same or one is the other with zero bigits written out. |
| BigValue.CompareMistake | xmrig/3rdparty/fmt/format-inl.h:1352-1361 | 2^32 written with a low zero bigit compares as greater than 2^32 written with exponent one. |
| BigValue.BorrowMistake | xmrig/3rdparty/fmt/format-inl.h:1267 | Subtracting 1 from 2^64 leaves a borrow in front of a zero bigit: a case where subtract_aligned is not a subtraction. |
| BigValue.DebtDecides | xmrig/3rdparty/fmt/format-inl.h:1376-1385 | The difference carried along decides the sign of the sum as soon as it leaves 0 and 1. |
| BigArithmetic.ColumnsAreProduct | xmrig/3rdparty/fmt/format-inl.h:1415-1432 | The columns of cross products make up the product. |
| FastMod.FastModIsMod | xmrig/3rdparty/libethash/ethash_internal.c:154-158 | With a reciprocal within the round-up or round-down error bound for a limit, fast_mod(a) is a mod d for every a below the limit, and the product does not overflow 64 bits. |
| FastMod.CalculateFastModData | xmrig/crypto/kawpow/KPCache.cpp:153-176 | For every 32-bit divisor other than zero fast_mod with these constants is the remainder of every 32-bit number; for divisors up to 2^29 also of the sums up to 2^32 + 3 that the four-way form divides. |
| FastMod.ClearsLowestBit | xmrig/crypto/kawpow/KPCache.cpp:155 | d & (d - 1) is zero exactly for powers of two. |
| WordXor.XorBit | xmrig/3rdparty/libethash/fnv.h:37 | Every bit of the exclusive or is the sum of the two bits without carry. |
| EthashLaws.FnvInNumbers | xmrig/3rdparty/libethash/fnv.h:35-38 | fnv_hash with zero is the product with 16777619 modulo 2^32; the second argument is xored in and comes out again by hashing once more; the first comes out by the inverse of the prime. |
| EthashLaws.ParentReadsWord | xmrig/3rdparty/libethash/ethash_internal.c:123 | The hash that chooses parent i gives word i modulo 16 of the mix back, so it changes exactly when that word or the index changes. |
| EthashLaws.ParentIs | xmrig/3rdparty/libethash/ethash_internal.c:123 | The parent is the remainder of the one number whose hash with the index is that word. |
| EthashLaws.StartReadsIndex | xmrig/3rdparty/libethash/ethash_internal.c:110-113 | The index is xored into the first word of the cache node and nothing else. |
| EthashLaws.PageIs | xmrig/3rdparty/libethash/ethash_internal.c:281 | The page of an access is the remainder of the one number whose hash with the seed is the word of the mix. |
| EthashLaws.AccessWords | xmrig/3rdparty/libethash/ethash_internal.c:283-310 | Word w of the mix takes in word w modulo 16 of the first or the second item of the page. |
| EthashLaws.ReduceInNumbers | xmrig/3rdparty/libethash/ethash_internal.c:316-320 | Of the four words compressed into one the last is xored in, and each other is multiplied by the prime once more for every word after it. |
| Ethash.CalculateDagItem | xmrig/3rdparty/libethash/ethash_internal.c:101-152 | The node written is the dataset item; other nodes are unchanged. |
| Ethash.LightFor | xmrig/crypto/kawpow/KPCache.cpp:153-176 | The constants made for a cache let fast_mod find the place in the cache of every 32-bit number, and of four more for caches up to 2^29 nodes. |
| Ethash.LightIsValid | xmrig/3rdparty/libethash/ethash_internal.c:154-158 | A reciprocal within the error bound for the size of the cache is enough for that. |
| Ethash.CalculateDagItemOpt | xmrig/3rdparty/libethash/ethash_internal.c:160-181 | The form with fast_mod writes the same item. |
| Ethash.CalculateDagItem4Opt | xmrig/3rdparty/libethash/ethash_internal.c:183-217 | The four-way form, with its loops interchanged, writes four items, for every 32-bit index: each with the index wrapped to 32 bits, and started from the cache node at the index that is not wrapped. |
| Ethash.FourItems | xmrig/3rdparty/libethash/ethash_internal.c:191-204 | The cache node it starts from is that of the wrapped index if and only if the sum stays below 2^32 or the size of the cache divides 2^32; then the item is the dataset item. |
| Ethash.MixFour | xmrig/3rdparty/libethash/ethash_internal.c:199-212 | One parent round of the four-way form is one parent round of each of the four items. |
| Ethash.FillNodes | xmrig/3rdparty/libethash/ethash_internal.c:232-245 | The loop fills the nodes in order and stops before the first one at which the callback, asked once in every hundredth, says so. |
| Ethash.ComputeFullData | xmrig/3rdparty/libethash/ethash_internal.c:219-246 | It succeeds iff the size is divisible by 128 and the callback never stops it; then the memory up to the size is the dataset and the rest stays. Stopped, it has filled the nodes before that point; for another size nothing is written. |
| Ethash.DagNode | xmrig/3rdparty/libethash/ethash_internal.c:283-290 | A node read from the dataset is the node recomputed without one. |
| Ethash.CompressMix | xmrig/3rdparty/libethash/ethash_internal.c:315-322 | The in-place compression writes the eight words of the mix hash although it overwrites the mix it reads. |
| Ethash.EthashHash | xmrig/3rdparty/libethash/ethash_internal.c:248-329 | With a dataset at the start of the memory or with none, for every header, nonce and size of at least one page: the same mix hash and result, with every access inside the dataset. |
| Ethash.HashBothWays | xmrig/3rdparty/libethash/ethash_internal.c:219-329 | Memory of any length filled for a size and then hashed from gives the mix hash and result of hashing without it. |
| KeccakInPlace.ThetaUnrolled | xmrig/base/crypto/keccak.cpp:66-84 | Theta of FIPS 202, section 3.2.1. |
| KeccakInPlace.RhoPiUnrolled | xmrig/base/crypto/keccak.cpp:86-111 | The 24 assignments in place are rho and pi of sections 3.2.2 and 3.2.3. |
| KeccakInPlace.ChiUnrolled | xmrig/base/crypto/keccak.cpp:113-160 | The in-place rows, the last one differently written, are chi of section 3.2.4. |
| KeccakInPlace.Keccakf | xmrig/base/crypto/keccak.cpp:54-164 | For any number of rounds the constants reach for, the state becomes the permutation of that many rounds. |
| KeccakInPlace.ThetaFused | cn-gpu.cpp:84-99 | The form with the rotation folded into the column sums is theta. |
| KeccakInPlace.RhoPiLoop | cn-gpu.cpp:101-107 | The loop along the two tables is rho and pi. |
| KeccakInPlace.ChiSelect | cn-gpu.cpp:109-117 | The rows written with bitselect are chi. |
| KeccakInPlace.KeccakLoop | cn-gpu.cpp:62-121 | The table-driven form computes the same permutation. |
| KeccakInPlace.PilnIsWalk | cn-gpu.cpp:66-69 | The lane table is the walk (x, y) -> (y, 2x + 3y) of section 3.2.2. |
| KeccakInPlace.RotcIsTriangle | cn-gpu.cpp:63-66 | The rotation table holds (t + 1)(t + 2) / 2 modulo 64. |
| KeccakInPlace.RhoIsStandard | xmrig/base/crypto/keccak.cpp:86-111 | The rotation of each lane is the one the standard derives from the walk. |
| KeccakWords.SelectLaw | cn-gpu.cpp:112-116 | bitselect(x ^ z, x, y) is x ^ (~y & z) on 64-bit words. |
| KeccakWords.ConstantsAreStandard | xmrig/base/crypto/keccak.cpp:42-52 | The 24 round constants are those the feedback register of section 3.2.5 generates. |
| WordBits.RotationBit | xmrig/base/crypto/keccak.cpp:37 | Rotation by n moves bit j of a word to bit j + n modulo 64. |
| WordBits.StoredBits | xmrig/base/crypto/keccak.cpp:178-214 | The eight bytes of a word in memory hold its bits in order, the lowest first. |
| WordBits.LoadStored | xmrig/base/crypto/keccak.cpp:189-195 | A word stored is loaded again. |
| WordBits.StoreLoaded | xmrig/base/crypto/keccak.cpp:189-195 | Eight bytes loaded are stored again. |
| KeccakBits.ThetaBits | xmrig/base/crypto/keccak.cpp:66-84 | Bit by bit the lanes after theta are those of section 3.2.1. |
| KeccakBits.RhoPiBits | xmrig/base/crypto/keccak.cpp:86-111 | Bit by bit the lanes after rho and pi are those of sections 3.2.2 and 3.2.3. |
| KeccakBits.ChiBits | xmrig/base/crypto/keccak.cpp:113-160 | Bit by bit the lanes after chi are those of section 3.2.4. |
| KeccakBits.AddedBits | xmrig/base/crypto/keccak.cpp:189-195 | Xoring a block into the lanes adds its bits to the first bits of the state. |
| KeccakWords.PermutationIsStandard | xmrig/base/crypto/keccak.cpp:54-164 | The permutation of the 25 words of the source is Keccak-f[1600] on their 1600 bits. |
| KeccakWords.SpongeIsStandard | xmrig/base/crypto/keccak.cpp:178-214 | For every message and every rate of whole words the bytes of the state are the bits of the sponge of section 4. |
| KeccakWords.Digest | xmrig/base/crypto/keccak.cpp:178-214 | The bits of the digest are the first bits of that sponge, for every message and every output length with a rate of whole words. |
| KeccakWords.BothForms | xmrig/base/crypto/keccak.cpp:54-164 | On every state both forms leave the same 25 words. |
| KeccakSponge.PadInPlace | xmrig/base/crypto/keccak.cpp:198-202 | The block padded in the buffer is the rest of the message with its padding, for every length. |
| KeccakSponge.PaddingIsStandard | xmrig/base/crypto/keccak.cpp:197-202 | The padding bytes are, bit by bit, pad10*1 of section 5.1 for blocks of the rate. |
| KeccakSponge.PaddedIsWhole | xmrig/base/crypto/keccak.cpp:197-202 | A padded message is a whole number of blocks. |
| KeccakSponge.AbsorbWhole | xmrig/base/crypto/keccak.cpp:189-195 | Absorbing the full blocks leaves the rest of the message to absorb. |
| KeccakSponge.Keccak | xmrig/base/crypto/keccak.cpp:178-214 | For every message, and every output length whose last block fits the buffer, the output is the start of the state after absorbing the padded message. |
| KeccakSponge.PadInState | cn-gpu.cpp:347-351 | The bytes of the state are the padded message over an untouched capacity if and only if the message is shorter than 136 bytes. |
| KeccakSponge.AbsorbInKernel | cn-gpu.cpp:346-353 | For such a message the kernel stores the state the sponge reaches. |
| KeccakWords.BothSponges | cn-gpu.cpp:346-353 | For inputs under 136 bytes the sponge with 200-byte output and the kernel give the same bytes, and their bits are those of the sponge of the standard with a rate of 1088. |
| DevicePlan.FillThreads | sycl-lib.cpp:99-101 | As many single batches as threads and cache allow; what is left in used tells whether the cache ended it. |
| DevicePlan.SmallCacheFits | sycl-lib.cpp:99-107 | The condition that no 32-bit sum of the planner wraps holds for every cache below 2 GiB that leaves room for one batch more. |
| DevicePlan.RaiseBatches | sycl-lib.cpp:105-112 | One pass raises a prefix of the workers by one, and the memory kept stays within L3. |
| DevicePlan.GrowBatches | sycl-lib.cpp:102-114 | The growth loop ends with a balanced list that is maximal: all at the cap, or one more instance would exceed L3, or neither cache nor need for it. |
| DevicePlan.PlanSockets | sycl-lib.cpp:89-97 | One worker for every socket, all alike; together they exceed neither threads nor L3 unless each has a single instance, and one instance more for each would exceed one of the two. |
| DevicePlan.PlanWorkers | sycl-lib.cpp:98-116 | As many workers as threads and L3 allow; the list is non-increasing with spread at most one, pays for memory within L3, stays below the cap, and is maximal for the algorithms that may grow. |
| DevicePlan.WorkerPlanIs | sycl-lib.cpp:98-116 | These properties leave one plan: min(threads, L3 / memory) workers, and what the cache and the cap allow beyond the first instances dealt out evenly, the first workers first. |
| DevicePlan.PaidAndFree | sycl-lib.cpp:99-111 | The instances paid for are all instances when workers start with one; with a start of eight, seven of every worker are not paid for. |
| Strings.DecimalPlace | sycl-lib.cpp:121-125 | Digit k from the right of a printed number counts 10^k. |
| Strings.DecimalStarts | sycl-lib.cpp:121-125 | No zeros are printed in front of a number. |
| Strings.DecimalDigits | sycl-lib.cpp:121-125 | The digits are those from 0 to 9. |
| DeviceText.PrintThreads | sycl-lib.cpp:117-131 | The text is the run-length form of the list, for every list of positive batches. |
| DeviceText.GetThreadDev | helper.js:221-231 | The loop returns the device of the run that holds the thread, or nothing past the last. |
| DeviceText.GetDevThreads | helper.js:234-242 | The loop returns the total of the counts. |
| DeviceText.ReadersRead | helper.js:221-248 | Of any text: the number after a last * is the batch, that after a last ^ the count, and the counts of parts between commas add up. |
| DeviceText.DeviceReadBack | helper.js:245-248 | The batch read from a printed device is the one printed. |
| DeviceText.ReadsBack | helper.js:221-248 | The text printed for any non-empty list of batches reads back as that list: its length, and the batch of every worker. |
| DeviceText.FallbackReadsBack | sycl-lib.cpp:132 | The text for an algorithm of unknown memory reads back as one worker for every thread. |
| DeviceText.CpuDevices | sycl-lib.cpp:83-132 | What is printed for one algorithm is the text of the plan, for sockets or for workers, and reads back as its list. |
| Framing.LinesAreTheText | pool.js:231-249 | The lines and the kept text, newlines put back, are the stream, and neither contains a newline. |
| Framing.LinesAppend | pool.js:231-249 | The lines of a longer stream are those of its start and those of the kept text with the rest. |
| Framing.PoolFramer.OnData | pool.js:231-250 | One chunk delivers the non-blank lines it completes and keeps exactly the text after the last newline. |
| Framing.PoolFramer.OnAll | pool.js:229-250 | However the stream was cut, the messages and the kept text are those of the whole stream. |
| Framing.LineFramer.OnData | helper.js:206-214 | One chunk delivers the non-empty lines it completes and keeps the text after the last newline. |
| Framing.LineFramer.OnAll | helper.js:332-342 | However the stream was cut, the lines and the kept text are those of the whole stream. |
| Framing.SameNonBlankLines | helper.js:206-214 | The two framers differ in lines of white space only. |
| Framing.BothFramers | pool.js:231-250 | On one stream, cut in any two ways, both framers deliver the same non-blank lines and keep the same text. |
| Strings.HexDigits | helper.js:444 | The sixteen digits are written in lower case and read in both cases. |
| Target.Digits16 | helper.js:444 | The padded numeral of a 64-bit number has 16 digits that parse back. |
| Target.TextParsesBack | helper.js:432-450 | The stripped half is put back and the bytes are turned round again. |
| Target.TextIsBytes | helper.js:437-452 | The text of a difficulty is the eight bytes of (2^64 - 1) / d, lowest first, as pairs of lower case digits; the first four are left out exactly when they are zero. |
| Target.DifficultyOfBytes | helper.js:431-437 | The difficulty of any text of hexadecimal digits is the quotient by the number whose bytes its pairs are, lowest first; those of a text of eight digits are the upper four. |
| Target.NoDifficulty | helper.js:431-437 | A text without a pair, or with a character in its pairs that is no hexadecimal digit, throws. |
| Target.TargetReadsBack | helper.js:431-452 | The 64-bit target written for a difficulty is the target read. |
| Target.RoundTrip | helper.js:431-452 | The difficulty comes back exactly if and only if the remainder of (2^64 - 1) / d is below its quotient, which holds for every d below 2^32; up to 2^64 - 1 it never comes back smaller; above, it comes back as zero. |
| Target.ZeroDifficulty | helper.js:439-442 | A BigInt zero comes back as zero; a Number zero throws. |

## Left out

- Edge generation and recovery: SipHash, the seeding kernels before the trimming rounds, and the recovery of nonces in c29.cpp; edges are arbitrary input here.
- The last two kernels after trimming, which collect the edges into one buffer; `CyclePipeline.EmittedAreOriginalCycles` holds for whatever part of the edges reaches the search, `CyclePipeline.EmitsIffOriginalHasCycle` when all do.
- The first trimming round reads its bucket counts from other buffers and two source buffers; it is the same machine, with the list of entries as its input.
- Concurrency of the kernels and of the thread pool is modelled on values, as state machines over sequences of steps; there are no classes for them, because their methods do not run to completion undisturbed.
- Kernels stop at the bucket sizes of the source; the size and the offset step are parameters of `TrimKernel.Layout`.
- TrimProof.EveryInterleavingDoesARound: needs that no bucket overflows; on overflow only the last cell of a bucket is rewritten, and which entries are lost depends on the interleaving.
- CycleExact.EmittedIffOneLeftOver, and the results beside it: for inputs all of whose cycles with one edge left over have the target length. On all others the run closes a cycle of another length (`CycleExact.OnlyTargetCyclesClosed`), which puts a directed cycle into the maps (`CycleExact.OffTargetMakesDirectedCycle`). What was emitted before stays (`CycleExact.EarlierCyclesStay`) and what is emitted after is sound (`CycleSoundness.EmittedAreCycles`), but which cycles those are is known only for cycles on new vertices (`CycleLater.LaterCycleIsEmitted`) and, edge by edge, from the two paths (`CycleInsert.EdgeIsEmittedOrJoined`).
- CycleExact.Admissible: an id on both sides of the graph, 8192 edges or more, and a target of zero are outside these results, and inside those of `CycleSoundness`.
- thread_pool: resize after construction, the public pop, a second stop while one is under way, and exceptions thrown by tasks.
- fmt: the formatting code around bigint, the 128-bit type where the compiler has one (the two-word accumulator is proved to agree with it), the capacity of 32 bigits, and int overflow of exponents.
- BigInt.Bigint.Square: for fewer than 2^30 bigits, so that the two-word sum cannot overflow.
- BigInt.Bigint.AssignPow10: for exponents below 2^30, because the int bit mask of the source overflows from there on.
- BigInt.Bigint.DivmodAssign: for dividends below 2^31 times the divisor, because the quotient is an int; the callers stay below 10 times.
- Ethash: the progress value given to the callback, whose answer depends on the number of nodes done; sizes under 100 nodes with a callback, where the source divides by zero; the SSE forms, the cache, and the byte order conversions, which change nothing on the little-endian machines the SSE forms are for.
- Ethash.CalculateDagItem4Opt: for indices above 2^32 - 4 needs fast_mod to be right beyond 32 bits, which is proved for caches up to 2^29 nodes.
- KeccakSponge.Keccak: output lengths below 28, other than 200, do not fit the buffer of the last block and have no model; for lengths that are not a multiple of 4 the last bytes of a block are not absorbed, as in the source.
- KeccakInPlace.RhoPiUnrolled: its assignments are written in three methods of eight, in their order.
- DevicePlan.PlanWorkers: needs that no 32-bit sum wraps (`DevicePlan.SumsFit` names the two largest sums); when one does, the source counts on from the wrapped sum and may plan more than the cache holds.
- DevicePlan.PaidAndFree: for ghostrider the first eight instances of a worker count as one, as in the source, so the memory of all instances may exceed L3.
- The GPU part of the device string, and user-written device strings beyond what the readers accept.
- JSON, sockets, timers, logging, and what is done with the delivered lines.
- Target: difficulties that are not whole numbers, for which BigInt throws, and texts with white space at an end, which BigInt skips.
