# Durinn in Dafny

Durinn looks for bugs in concurrent persistent-memory programs. A tracer records the stores, cacheline flushes, fences,
locks and API calls of a run. The checker replays the trace through a simulated cache, builds the memory images a crash
could leave behind, runs the program's recovery on them and compares the answers with an oracle. The repository also
bundles PMDK, whose benchmarks and memory-mapping code it uses.

This project models the logic of those parts and proves what they promise. Classes keep the shape of the source's
objects (`WitcherCache`, `WitcherCacheline`, `ReplayCache`, `BinaryFile`, `LSValidator`, `MmapList`, `CloVector`); loops
stay loops; each method is tied by its `ensures` to a specification function, and the lemmas are about those functions.
What a whole operation leaves is stated a second time on the records, the operations or the schedule themselves, without
the functions that the code runs through.

**Persistence and crash images.** `Memory` has byte images and writes, `Persistence` the meaning of a trace: a store is
*durable* when a flush of its line and then a fence follow it. That meaning does not mention any cache. `CacheSpec`
steps the per-line cache and the program-order cache and shows that both keep exactly what the meaning says
(`WitcherTracks`, `ReplayTracks`), hence the same image and the same pending stores (`CachesAgree`). `CrashSpec` says
what a legal crash state is: each cacheline holds a program-order prefix of its stores that has every durable one. The
image the cache keeps, the "case 0" image and the "case 1" image are all legal, case 0 is volatile memory, and case 1 is
the least legal state with the crash store. `LsValidator.Run` is the replay driver and is proved to produce those images
at exactly the chosen stores; `RunTrace` does it from the records of a trace on. `TraceParser` and `TraceExtract` are
the parser, with the correspondence of records and operations (`EmittedCorresponds`); they supply the precondition that
every store lies inside one cacheline. `Rollback` is the two-thread replay with thread 1's tail cut off, and
`ReplaySpec` says by position which stores that leaves in the image and which in the list. `FlushWrapper` is the
tracer's range flush.

**Analyses and oracles.** `RaceOps` collects the stores each fence persists, and `LockSet` says which locks are held;
`LpSlice` is the backward slice from branch conditions; `OracleMatch`, `QueueOracle`, `MapOracle` and `MapScript` are
the oracles and their scripts; `JobSplit` cuts the work into jobs.

**PMDK.** `RangeTracker` is the list of mapped ranges; `WorkerProtocol` is the handshake of benchmark workers over every
interleaving; `InitOnce` is the compare-and-swap initialisation of locks; `CloVec` is the vector of option structures.

Where the source fails an `assert` or raises, the model has an explicit outcome (`Failed`, `Invalid`, `None`, a return
of -1), or the assertion is a precondition that another member is shown to establish. Properties that turned out not to
hold without a condition are stated with the exact condition:

- `InitOnce`: a run id left at `pop_runid - 1` makes every thread spin for ever (`StuckFromStaleClaim`); from any other
  start, every schedule has boundedly many moves that change anything, and a thread that has not returned can move or
  waits for one that can (`RunsAreBounded`, `MovesOrWaits`).
- `JobSplit`: the jobs hold all stores if and only if there are fewer than 10000 of them (`CoversAllIff`).
- `RaceOps.InSomeRace`: a chosen store of an API range is in a race if and only if a flush and a fence follow it in the
  range, or the range ends in an APIEnd with no lock held. Ranges cut off by the next APIBegin are included
  (`StoreUnderLockIsMissed` and `CutOffCallIsMissed` are the inputs that fail).
- `QueueOracle`: the script accepts exactly the queues that agree with the models, for every queue, if and only if no
  oracle line is skipped, and a line is skipped exactly where a single model has the empty string
  (`AcceptedExactlyWhenNoneSkipped`, `EmptyValueIsMissed`).
- `QueueOracle` and `MapScript`: no permitted outcome is reported if and only if every line is readable. A line with one
  alternative must recognise it: wildcards aside, the separator is not inside. A line with two must tell them apart
  after joining, or have a wildcard (`NoFalseAlarm`, `LsNoFalseAlarm` and `RaceNoFalseAlarm`; the inputs that fail are
  `SeparatorInValueIsReported`). Joined alternatives split back if and only if none has the separator inside and none
  but the last ends in '!' (`OracleMatch.SplitJoin`).
- `MapOracle`: the check of a key is lost exactly under `LsSkipped` and `RaceSkipped`, when the one permitted value is
  the empty string (`LsOracleSkipped`, `RaceOracleSkipped`, with an input each).
- `Rollback.StartsExact`: the index recorded for a thread is the position of its first operation if and only if the
  thread is `RightlyAnnounced`. Announced by a record that emits an operation, it must have no operation before, which
  fails exactly when a lock or unlock call of it has ended (`OpsBeforeAnnounced`, input `LockEndStart`). Announced by an
  allocation or a branch, the operation just before must be its first (inputs `SilentStart`, `SilentButRight`).
- `CloVec`: each combination of values is the content of exactly one place if and only if no list repeats a value
  (`ContentOnceIff`).
- `CacheSpec`: the image of the program-order cache is the durable stores in program order for one-line stores
  (`ReplayTracks`), and not for stores across lines (`WrittenOutOfOrder`, `BorderOutOfOrder`); for those it is the
  stores in the order of their fences (`FlatRunWritten`).
- `RangeTracker.MmapList.IsPmem`: an empty range is treated as one byte. `Unregister` fails with a bad range only if it
  meets a tracker.
- `FlushWrapper.EmptyRangeFlush`: an empty range flushes the line it points into unless it points at the start of a
  line.

## Model

| member | source | states |
|---|---|---|
| `Memory.ByteDependsOnOwnLine` | trace_checker/lib/utils.py:5-12 | a byte after a list of one-line stores depends only on the stores to its own cacheline |
| `Memory.SameLinesSameImage` | trace_checker/lib/binaryfile.py:36-39 | two store lists that agree line by line leave the same image: stores to different lines commute |
| `Memory.InFlushIsSameLine` | trace_checker/lib/memops.py:153-157 | for a one-line store the overlap test of a flush holds exactly when the flush is of the store's line |
| `Memory.InFlushIff` | trace_checker/lib/utils.py:64-98 | a flush touches a nonempty range if and only if some byte of the range is on the flushed line |
| `MemOps.BinaryFile.constructor` | trace_checker/lib/binaryfile.py:4-8 | the image of the mapped file's content at the given base |
| `MemOps.BinaryFile.DoStore` | trace_checker/lib/binaryfile.py:36-39 | the slice of the store is overwritten and no other byte of the image changes |
| `Persistence.MarkStep` | trace_checker/lib/memops.py:78-97 | the clear/flushing/fenced mark read off the whole trace moves as the accept_flush and accept_fence transitions do |
| `Persistence.HistoryMarks` | trace_checker/lib/memops.py:78-97 | the mark kept step by step for each store is the one defined by "some later flush" and "some later flush and then fence" |
| `Persistence.RankedAt` | trace_checker/lib/cache.py:30-61 | the stores of a history selected by mark are the stores of the trace at the positions with that mark, in order |
| `Persistence.HistoryLineOrdered` | trace_checker/lib/witchercache.py:14-35 | on one line, an earlier store is never less persistent than a later one |
| `Persistence.PutSplit` | trace_checker/lib/witchercache.py:25-43 | writing the more persistent stores first and the others after gives the same image as program order |
| `CacheSpec.FlatStepTracks` | trace_checker/lib/cache.py:39-61 | each operation keeps: the image is the durable stores in program order, the list is the others with their marks |
| `CacheSpec.ReplayTracks` | trace_checker/lib/cache.py:30-61 | that holds after every trace |
| `CacheSpec.PutLinesIsPutAll` | trace_checker/lib/witchercache.py:101-113 | writing back line by line equals writing back in program order |
| `CacheSpec.LinedStepTracks` | trace_checker/lib/witchercache.py:75-113 | each operation of the per-line cache keeps: the image is the durable stores, each line lists its pending ones |
| `CacheSpec.WitcherTracks` | trace_checker/lib/witchercache.py:65-130 | that holds after every trace |
| `CacheSpec.CachesAgree` | trace_checker/lib/cache.py:30-61 | after every trace of one-line stores both caches have the same image and, line by line, the same pending stores and marks |
| `CacheSpec.FlatRunWritten` | trace_checker/lib/cache.py:30-61 | for stores of any extent, the program-order cache's image is the stores it has written, in that order, and its list is exactly the ones not durable |
| `CacheSpec.WrittenAreDurable` | trace_checker/lib/cache.py:53-61 | for stores of any extent, exactly the durable stores are written, each once |
| `CacheSpec.WrittenOutOfOrder` | trace_checker/lib/cache.py:10-16 | of two stores whose first flush covers only the later one, the later one is written first |
| `CacheSpec.BorderOutOfOrder` | trace_checker/lib/cache.py:30-61 | an input with a store across two lines whose image is not the durable stores in program order |
| `CrashSpec.DurablePrefix` | trace_checker/lib/witchercache.py:25-35 | on each line the durable stores are exactly a prefix of the stores to it |
| `CrashSpec.PendingCompletesImage` | trace_checker/checker/ls_validator.py:90-105 | the kept image with all pending stores written line by line is sequential memory after all stores so far |
| `CrashSpec.KeptImageIsDurableCut` | trace_checker/lib/witchercache.py:25-35 | the image the cache keeps is the legal crash state with exactly the durable stores |
| `CrashSpec.CaseZeroLegal` | trace_checker/checker/ls_validator.py:90-105 | volatile memory is a legal crash state: every line is complete |
| `CrashSpec.CrashCutLegal` | trace_checker/checker/ls_validator.py:107-118 | the state of case 1 keeps every durable store and only prefixes |
| `CrashSpec.CrashCutLeast` | trace_checker/checker/ls_validator.py:107-118 | every legal state with the crash store has, on every line, at least as many stores as case 1 |
| `CrashSpec.CaseOneLegal` | trace_checker/checker/ls_validator.py:107-118 | writing the pending stores of the crash line and the crash store onto the kept image gives that state |
| `CrashSpec.CaseOneStores` | trace_checker/checker/ls_validator.py:107-118 | that image is sequential memory over the stores on the crash line and the durable ones on other lines, then the crash store |
| `WitcherCache.WitcherCacheline.AcceptStore` | trace_checker/lib/witchercache.py:14-17 | the store is appended, clear, and the line stays valid |
| `WitcherCache.WitcherCacheline.AcceptFlush` | trace_checker/lib/witchercache.py:19-23 | every store of the line becomes flushing; needs the line assertion of the source |
| `WitcherCache.WitcherCacheline.WriteBackAllFlushingStores` | trace_checker/lib/witchercache.py:25-35 | the flushing stores reach the image in order and leave the list; the clear ones stay in order |
| `WitcherCache.WitcherCacheline.WriteBackAllStores` | trace_checker/lib/witchercache.py:37-46 | all stores reach the image in order and the list is empty |
| `WitcherCache.PutOneMore` | trace_checker/lib/witchercache.py:101-113 | in whatever order the lines are visited, each visit adds exactly that line |
| `WitcherCache.WitcherCache.GetCacheline` | trace_checker/lib/witchercache.py:123-130 | the line object of an address, created empty if there was none, other lines untouched |
| `WitcherCache.WitcherCache.AcceptStore` | trace_checker/lib/witchercache.py:91-95 | the cache takes the Store step of the specification |
| `WitcherCache.WitcherCache.AcceptFlush` | trace_checker/lib/witchercache.py:97-99 | the cache takes the Flush step of the specification |
| `WitcherCache.WitcherCache.PersistFlushing` | trace_checker/lib/witchercache.py:101-106 | all flushing stores are written, line by line in any order, and the emptied lines are reported |
| `WitcherCache.WitcherCache.WriteBackAllFlushingStores` | trace_checker/lib/witchercache.py:101-108 | the cache takes the Fence step of the specification |
| `WitcherCache.WitcherCache.WriteBackAllStores` | trace_checker/lib/witchercache.py:110-116 | the cache takes the write-back step of the specification |
| `ReplayCache.ReplayCache.AcceptFlush` | trace_checker/lib/cache.py:10-13 | every pending store the flush covers becomes flushing |
| `ReplayCache.ReplayCache.AcceptFence` | trace_checker/lib/cache.py:53-56 | the flushing stores are written in program order and dropped |
| `ReplayCache.ReplayCache.WriteBackAllStores` | trace_checker/lib/cache.py:58-61 | all pending stores are written in program order |
| `ReplayCache.ReplayCache.AcceptOp` | trace_checker/lib/cache.py:39-48 | one operation takes the step of the specification |
| `ReplayCache.ReplayCache.AcceptOps` | trace_checker/lib/cache.py:35-37 | a list of operations takes the steps of the specification in order |
| `LsValidator.LSValidator.CaseZero` | trace_checker/checker/ls_validator.py:90-105 | a copy of the image with the pending stores of every line written; the cache and its image do not change |
| `LsValidator.LSValidator.CaseOneImage` | trace_checker/checker/ls_validator.py:107-118 | a copy of the image with the crash line's pending stores and the crash store; no list changes |
| `LsValidator.LSValidator.GenCrash` | trace_checker/checker/ls_validator.py:90-118 | case 0 is volatile memory before the store, case 1 is the least legal state with it, and the cache is as before |
| `TraceOps.LsDurable` | trace_checker/checker/ls_validator.py:77-88 | a store is durable for the replay if and only if a covering flush and then a fence follow it, or a border of an API call does |
| `LsValidator.LSValidator.AcceptOp` | trace_checker/checker/ls_validator.py:77-88 | the driver's dispatch on operations takes the step of the specification; what the steps make durable is `TraceOps.LsDurable` |
| `LsValidator.Run` | trace_checker/checker/ls_validator.py:67-88 | over every trace: one crash for each crash point, in order. Read off the operations, case 0 is memory over all stores before, and case 1 over those on the crash line and those flushed and fenced or older than a border of an API call; both are legal, case 1 the least |
| `LsValidator.CrashPointsAreChosen` | trace_checker/checker/ls_validator.py:67-88 | with ids equal to positions, the crash points are exactly the chosen stores between the first and last id |
| `LsValidator.RunTrace` | trace_checker/main_last_store.py:91-92 | from the records of a trace: refused exactly at a bad record; otherwise the operations represent the records, and there is one crash for each chosen store and no other, in order, with both images as above |
| `TraceParser.GetStores` | trace_checker/lib/trace.py:26-78 | the loop returns the atomic split of a store |
| `TraceParser.ChunkShape` | trace_checker/lib/trace.py:26-78 | chunks are nonempty, adjacent, in order, numbered consecutively, each inside one 8-byte word and so one cacheline |
| `TraceParser.SplitPreservesMemory` | trace_checker/lib/trace.py:26-78 | the chunks have the effect of the store on every image |
| `TraceParser.SplitTiles` | trace_checker/lib/trace.py:26-78 | the chunks lie end to end, have the bytes at their addresses, and are cut at word boundaries and nowhere else |
| `TraceExtract.ExtractOperations` | trace_checker/lib/trace.py:80-232 | fails exactly when a record outside lock calls is unknown or ends a call that is not open; otherwise the operations represent the records, with the API ranges and allocations |
| `TraceExtract.EmittedCorresponds` | trace_checker/lib/trace.py:80-232 | every operation has the kind, thread, address and size of its counted record, every counted record of a kept kind has its operations, in record order |
| `TraceExtract.ParsedMemory` | trace_checker/lib/trace.py:80-232 | sequential memory over the operations is sequential memory over the recorded stores |
| `TraceExtract.CountsIff` | trace_checker/lib/trace.py:93-123 | which records the parser looks at: ends of lock calls, and records with no lock call begun and not ended before them |
| `TraceExtract.FailsIff` | trace_checker/lib/trace.py:186-232 | the parser stops exactly at such a record |
| `TraceExtract.IdsArePositions` | trace_checker/lib/trace.py:80-232 | in both modes every operation's id is its position |
| `TraceExtract.ParsedWellOpened` | trace_checker/lib/trace.py:186-205 | in a parsed trace every call that ends has begun |
| `TraceExtract.RangesAreCalls` | trace_checker/lib/trace.py:186-205 | every API range starts at an APIBegin and runs to the next border with none between |
| `TraceExtract.RangesInOrder` | trace_checker/lib/trace.py:186-205 | API ranges are ordered and do not overlap, and an open call begins after them |
| `TraceExtract.CallNumber` | trace_checker/lib/trace.py:186-205 | the number of calls begun is the number of ranges plus the open call |
| `TraceExtract.AllocKeyIsItsCall` | trace_checker/lib/trace.py:186-216 | every pair filed under key k comes from an allocation record read while a call was open, and that call is range k, or the call still open at the end |
| `TraceExtract.AllocIsFiled` | trace_checker/lib/trace.py:207-216 | every allocation record read while a call is open is filed under that call's number |
| `TraceExtract.AllocKeysAreCalls` | trace_checker/lib/trace.py:186-216 | every allocation key is the number of a call that has begun |
| `TraceExtract.ParsedReplayable` | trace_checker/lib/witchercache.py:56-62 | a parsed persist-only trace with nonempty stores in the image meets every assertion of the replay |
| `TraceExtract.ModesAgreeOnMemory` | trace_checker/lib/trace.py:80-232 | both parse modes have the same effect on memory |
| `Rollback.ThreadStarts` | trace_checker/lib/trace_mt.py:20-134 | fails exactly on an unknown record outside lock calls; otherwise the operations represent the records, and each thread has the number of operations before its first naming record, less one if that is silent |
| `Rollback.AnnouncedIff` | trace_checker/lib/trace_mt.py:124-128 | threads are announced by exactly the first counted record that names them, in order |
| `Rollback.StartsExact` | trace_checker/lib/trace_mt.py:109-128 | an index is the least position of an operation of its thread if and only if the announcing record is right, said of the operations before it |
| `Rollback.OpsBeforeAnnounced` | trace_checker/lib/trace_mt.py:37-55 | a thread has an operation before it is announced if and only if one of its lock or unlock calls has ended |
| `Rollback.SilentStart` | trace_checker/lib/trace_mt.py:109-128 | an input where two threads get the same index |
| `Rollback.LockEndStart` | trace_checker/lib/trace_mt.py:37-55 | an input where a thread that begins by taking a lock gets a later index |
| `Rollback.SilentButRight` | trace_checker/lib/trace_mt.py:109-128 | an input where an allocation announces a thread with the right index |
| `Rollback.StartsInOrder` | trace_checker/lib/trace_mt.py:124-128 | threads are distinct and their indexes never fall, and rise when no silent record announces one |
| `Rollback.StartsAreOps` | trace_checker/lib/trace_mt.py:20-134 | unless a silent record announces a thread, each index is the position of an operation of its thread |
| `Rollback.GetRollBackIdx` | trace_checker/lib/trace_mt.py:136-146 | the last store or fence strictly between the two given positions, whatever its thread, and none exactly when there is none |
| `Rollback.GenCrashImg` | trace_checker/checker/gdb_checker.py:120-145 | the cut removes no store and no fence. Read off the operations, the list holds exactly the kept stores from thread 1 on with no flush and fence after them among the kept operations, and the image exactly the others, each once |
| `ReplaySpec.DurableIff` | trace_checker/checker/gdb_checker.py:140-145 | a store of the replay is durable if and only if it is from before thread 1 or persisted among the kept operations |
| `ReplaySpec.ReplayRolledBack` | trace_checker/checker/gdb_checker.py:140-145 | what the image and the list hold after the replay, by position; in program order when every store fits in a line |
| `Rollback.ReplayTrace` | trace_checker/checker/gdb_checker.py:120-145 | the same from the records on, with the indexes the parser recorded, and exactly when the trace is bad or has not three threads |
| `Rollback.CutIsLessPersistent` | trace_checker/checker/gdb_checker.py:136-145 | dropping operations that are not stores never makes a later store of any continuation more persistent |
| `Rollback.RollbackPersistsSubset` | trace_checker/checker/gdb_checker.py:136-145 | the rolled-back replay has the same stores as the full one, each at most as persistent |
| `Rollback.RollbackImage` | trace_checker/checker/gdb_checker.py:136-145 | for stores of any extent, the rolled-back replay writes exactly its durable stores, a sub-multiset of what the full replay writes, and its list holds the rest |
| `Rollback.RollbackImageInOrder` | trace_checker/checker/gdb_checker.py:136-145 | for one-line stores, that image is the durable stores in program order |
| `FlushWrapper.RecordFlushWrapper` | tracer/Tracing.cpp:520-543 | one translated flush record per line from the aligned start to below the end, and none when not recording |
| `FlushWrapper.FlushedLinesMeetRange` | tracer/Tracing.cpp:537-543 | for a nonempty range the lines flushed are exactly those that meet it |
| `FlushWrapper.EmptyRangeFlush` | tracer/Tracing.cpp:537-543 | what an empty range flushes |
| `FlushWrapper.BothMappingsOneAddress` | tracer/Tracing.cpp:275-280 | both mappings of a byte have its address in the first mapping |
| `FlushWrapper.LineTranslated` | tracer/Tracing.cpp:275-280 | translating the second mapping commutes with taking the line of an address |
| `FlushWrapper.RangeFlushDurable` | trace_checker/lib/cache.py:10-16 | after a range flush and a fence, every earlier store that touches the range is durable |
| `FlushWrapper.RangeFlushPersists` | trace_checker/lib/cache.py:53-56 | then no store that touches the range is left in the program-order cache, for stores of any extent |
| `FlushWrapper.RangeFlushImage` | trace_checker/lib/cache.py:53-56 | and for one-line stores every byte of the range in the image is the byte of volatile memory |
| `LockSet.OverlapsIff` | trace_checker/lib/utils.py:64-98 | locks overlap if and only if they share a byte |
| `LockSet.ReleaseLock` | trace_checker/checker/st_trace_checker.py:148-155 | the list without its largest overlapping index, and unchanged if no lock overlaps |
| `LockSet.HeldAddress` | trace_checker/checker/st_trace_checker.py:144-155 | an address is in the list if and only if a lock of it has not been released, an unlock releasing the latest held lock it overlaps |
| `LockSet.HeldIffStill` | trace_checker/checker/st_trace_checker.py:144-155 | when no unlock overlaps two held locks: a lock is held if and only if no overlapping unlock has come since |
| `LockSet.FailsIff` | trace_checker/checker/st_trace_checker.py:148-149 | the assertion fails exactly at an unlock when no lock is held |
| `RaceOps.InitRaceOps` | trace_checker/checker/st_trace_checker.py:103-178 | fails exactly at an unlock with no lock held; otherwise the store-side races of the call, each with exactly the addresses held where it is |
| `RaceOps.MarkMeaning` | trace_checker/lib/cache.py:7-28 | a store is dropped after a covering flush and fence and flushing after a covering flush only |
| `RaceOps.CollectedIff` | trace_checker/checker/st_trace_checker.py:130-168 | an operation collects a chosen store exactly when it is the first fence after its first flush, or the lock-free end before any |
| `RaceOps.StoreInOneRace` | trace_checker/checker/st_trace_checker.py:115-172 | in every API range, cut off or not, a chosen store is in at most one race, in its home |
| `RaceOps.InSomeRace` | trace_checker/checker/st_trace_checker.py:115-172 | it is in some race if and only if a flush and a fence follow it in the range, or the range ends in an APIEnd with no lock held |
| `RaceOps.InSomeRaceOfCall` | trace_checker/checker/st_trace_checker.py:160-168 | in a range that ends in an APIEnd: if and only if they follow before the end or no lock is held there |
| `RaceOps.BalancedLosesNothing` | trace_checker/checker/st_trace_checker.py:144-168 | a call that ends with every lock released loses no chosen store |
| `RaceOps.StoreUnderLockIsMissed` | trace_checker/checker/st_trace_checker.py:160-168 | an input whose store is in no race: its lock is held when the call ends |
| `RaceOps.CutOffCallIsMissed` | trace_checker/checker/st_trace_checker.py:115-172 | an input whose store is in no race: another call begins before its call ends |
| `RaceOps.ParsedSlice` | trace_checker/checker/st_trace_checker.py:68-70 | the slice of every API range of a parsed trace is numbered with no APIEnd before its last operation, and one call exactly if it ends in an APIEnd |
| `LpSlice.PushNew` | tracer/print_lps_from_brs.cpp:53-57 | the new non-constant values are queued, each once |
| `LpSlice.NextIff` | tracer/print_lps_from_brs.cpp:46-104 | the values followed from an instruction are, by its kind, what its block stores to its pointer, its arguments and returned values, or its operands |
| `LpSlice.GetLpsFromBr` | tracer/print_lps_from_brs.cpp:37-109 | on every finite graph, cycles included, the worklist ends, takes each value once, and adds exactly the loads and compare-exchanges reachable by such dependences |
| `LpSlice.Run` | tracer/print_lps_from_brs.cpp:111-115 | the union over all branches |
| `OracleMatch.ContainsIff` | trace_checker/lib/op_file.py:291-304 | a text contains another if and only if some position holds it |
| `OracleMatch.JoinSplit` | trace_checker/lib/op_file.py:300-304 | for every text, its pieces joined again are the text and no piece has the separator |
| `OracleMatch.SplitJoin` | trace_checker/lib/op_file.py:300-304 | splitting joined alternatives gives them back if and only if none has the separator inside and none but the last ends in a part of it |
| `OracleMatch.Match` | trace_checker/lib/op_file.py:291-304 | for an oracle joined from separable alternatives, whether the output is one of them |
| `OracleMatch.MatchesAlternatives` | trace_checker/lib/op_file.py:291-304 | an oracle joined from separable alternatives accepts exactly the alternatives |
| `OracleMatch.MatchesSelf` | trace_checker/lib/op_file.py:291-304 | the exact condition for a text to be accepted by itself as oracle |
| `OracleMatch.PairSplitsIff` | trace_checker/lib/op_file.py:300-304 | the exact condition for both of two joined texts to be among the pieces |
| `OracleMatch.LineReadableIff` | trace_checker/lib/op_file.py:278-304 | the exact condition for a line of one or two alternatives, whatever they hold and whatever was printed before, to let them through |
| `OracleMatch.StripEnds` | trace_checker/lib/op_file.py:295-296 | a stripped text has no white space at its ends |
| `OracleMatch.StripAround` | trace_checker/lib/op_file.py:295-296 | it is a part of the text with only white space around it |
| `OracleMatch.PreviousIs` | trace_checker/lib/op_file.py:276-288 | the previous output is the one of the last nonempty oracle before |
| `OracleMatch.AcceptedAlternatives` | trace_checker/lib/op_file.py:278-288 | a line of separable alternatives accepts exactly them, except that a single empty alternative is skipped |
| `OracleMatch.Validate` | trace_checker/lib/op_file.py:257-289 | accepts exactly a timeout, or equal lengths with every nonempty oracle line matched against the right previous output; a missing output and a length mismatch are reported as such |
| `QueueOracle.PrefixModel` | trace_checker/lib/op_file_q.py:9-27 | the queue after the prefix |
| `QueueOracle.FirstInFirstOut` | trace_checker/lib/op_file_q.py:9-27 | that queue is the values enqueued without as many from the front as dequeues found something |
| `QueueOracle.LsModels` | trace_checker/lib/op_file_q.py:140-172 | the queue before an interrupted enqueue; the queue before and after an interrupted dequeue; none past the end |
| `QueueOracle.GenScript` | trace_checker/lib/op_file_q.py:97-132 | the input and oracle scripts for the models |
| `QueueOracle.OutputShape` | trace_checker/lib/op_file_q.py:97-132 | what a queue answers at each step of the script |
| `QueueOracle.AcceptedIff` | trace_checker/lib/op_file_q.py:97-132 | for all separable models, the script accepts a queue exactly when every position agrees with some model or is skipped, and leftovers end after two wildcards |
| `QueueOracle.AcceptedExactlyWhenNoneSkipped` | trace_checker/lib/op_file_q.py:97-132 | acceptance is agreement with the models, for every queue, if and only if no line is skipped |
| `QueueOracle.EmptyValueIsMissed` | trace_checker/lib/op_file_q.py:112-117 | an input that is accepted without agreeing: one empty value |
| `QueueOracle.RaceOutcomeAgrees` | trace_checker/lib/op_file_q.py:60-86 | every outcome of a racing pair, either order, first taken or dropped, has at most two leftovers and agrees with the models |
| `QueueOracle.LsOutcomeAgrees` | trace_checker/lib/op_file_q.py:140-172 | both outcomes of an interrupted operation have at most two leftovers and agree with the models |
| `QueueOracle.AcceptsModelsIff` | trace_checker/lib/op_file_q.py:97-132 | all queues that begin as a model, with at most two elements more, are accepted if and only if the models are readable |
| `QueueOracle.NoFalseAlarm` | trace_checker/lib/op_file_q.py:60-132 | for every prefix and race, every permitted outcome is accepted if and only if the models are readable |
| `QueueOracle.LsNoFalseAlarm` | trace_checker/lib/op_file_q.py:97-172 | the same for every single interrupted operation |
| `QueueOracle.SeparatorInValueIsReported` | trace_checker/lib/op_file_q.py:97-132 | an untouched queue that is reported: a value with the separator inside |
| `MapOracle.LsModel` | trace_checker/lib/op_file.py:312-354 | the keys of the model and the oracle of each, also when the index is past the end |
| `MapOracle.LsOracleExact` | trace_checker/lib/op_file.py:257-354 | the validator's line for a key accepts exactly its value just before or just after the interrupted operation, or is skipped; for separable alternatives |
| `MapOracle.LsOracleSkipped` | trace_checker/lib/op_file.py:278-282 | exactly when the validator skips the check of a key |
| `MapOracle.LsLineReadable` | trace_checker/lib/op_file.py:278-354 | whatever the values are, the line of a key lets the values after and before the interrupted operation through if and only if it is readable |
| `MapOracle.SeparatorInValueIsReported` | trace_checker/lib/op_file.py:300-304 | a permitted value that its line reports: the separator is inside |
| `MapOracle.LsEmptyValueIsMissed` | trace_checker/lib/op_file.py:278-282 | an input whose line accepts every output |
| `MapOracle.PrefixModel` | trace_checker/lib/op_file.py:42-66 | the keys present after the prefix and their values |
| `MapOracle.ValueIs` | trace_checker/lib/op_file.py:42-66 | the value of a key is what the last operation that touches it left |
| `MapOracle.InsertedIff` | trace_checker/lib/op_file.py:312-354 | a key is in the model of the prefix if and only if some operation inserted it |
| `MapOracle.RaceModel` | trace_checker/lib/op_file.py:143-194 | the keys of the race model, and the oracle of each |
| `MapOracle.RaceOracleExact` | trace_checker/lib/op_file.py:143-289 | the validator's line accepts exactly the final values with the first operation taken or, unless done, dropped, and for a key read by the race the value read, or is skipped; for separable alternatives |
| `MapOracle.RaceOracleSkipped` | trace_checker/lib/op_file.py:278-282 | exactly when the validator skips the check of a key after a race |
| `MapOracle.RaceLineReadable` | trace_checker/lib/op_file.py:143-304 | whatever the values are, the line of a key lets the values with and without the first operation through if and only if it is readable |
| `MapOracle.RaceEmptyValueIsMissed` | trace_checker/lib/op_file.py:278-282 | an input whose line accepts every output |
| `MapScript.LookupIsValueAfter` | trace_checker/lib/op_file.py:42-66 | the store built operation by operation agrees with the value read off the operations |
| `MapScript.GenScript` | trace_checker/lib/op_file.py:356-415 | the loops write the inputs and oracles of the script; without extra keys it is the script of races |
| `MapScript.AcceptsByKey` | trace_checker/lib/op_file.py:205-289 | whatever the values are, on any recovered store: accepted exactly when the line of every modelled key lets its value through after what was printed before it; the extra keys, the deletes and the gets after them never complain |
| `MapScript.AcceptedMeansDeleted` | trace_checker/lib/op_file.py:219-228 | whatever printed the outputs, they are accepted only if every key reads as null after its delete |
| `MapScript.AcceptedMeansInserted` | trace_checker/lib/op_file.py:369-379 | and only if every extra key reads as it was inserted |
| `MapScript.AcceptsIff` | trace_checker/lib/op_file.py:205-229 | for separable alternatives: exactly when every modelled key has one of its alternatives or its line is skipped |
| `MapScript.LsScriptExact` | trace_checker/lib/op_file.py:312-415 | for an interrupted operation and separable alternatives, exactly the stores whose modelled keys have the value before or after it, skipped lines aside |
| `MapScript.LsNoFalseAlarm` | trace_checker/lib/op_file.py:312-415 | the store with the interrupted operation and the one without it are both accepted if and only if every line is readable |
| `MapScript.RaceScriptExact` | trace_checker/lib/op_file.py:143-229 | for a race and separable alternatives, exactly the stores whose modelled keys have a permitted value, skipped lines aside |
| `MapScript.RaceNoFalseAlarm` | trace_checker/lib/op_file.py:143-229 | the permitted stores that hold what a racing get printed are accepted if and only if every line is readable |
| `MapScript.LsValidation` | trace_checker/lib/op_file.py:306-415 | from the operations to the script: for separable alternatives, on any recovered store it is accepted exactly when every key the operations touched has the value before or after the interrupted one, skipped lines aside |
| `MapScript.RaceValidation` | trace_checker/lib/op_file.py:196-229 | from the operations of a race to the script: for separable alternatives, accepted exactly when every key has a permitted value, skipped lines aside |
| `JobSplit.Split` | trace_checker/checker/ls_trace_checker.py:100-116 | how many jobs there are and which stores each holds, and when it indexes past the end |
| `JobSplit.CoversAllIff` | trace_checker/checker/ls_trace_checker.py:100-116 | all stores are held if and only if there are fewer than the threshold |
| `JobSplit.WholeBlockIsLost` | trace_checker/checker/ls_trace_checker.py:100-116 | inputs that lose a whole block or fail |
| `RangeTracker.MmapList.Find` | pmdk-1.8/src/common/mmap.c:273-295 | the first tracker that meets the range, and none only if none does, in spite of the early break |
| `RangeTracker.MmapList.Insert` | pmdk-1.8/src/common/queue.h:608-619 | the list stays sorted and disjoint and gains exactly the new tracker |
| `RangeTracker.MmapList.Split` | pmdk-1.8/src/common/mmap.c:358-436 | exactly the bytes of the tracker inside the range become untracked; bad ranges and failed allocations change nothing |
| `RangeTracker.MmapList.Register` | pmdk-1.8/src/common/mmap.c:317-353 | refused exactly when a tracker meets the range; otherwise exactly its bytes get the new kind |
| `RangeTracker.MmapList.Unregister` | pmdk-1.8/src/common/mmap.c:445-479 | ends; on success exactly the page-rounded range becomes untracked and every other byte keeps its kind; the exact error condition; on failed allocation bytes only become untracked inside the range |
| `RangeTracker.MmapList.IsPmem` | pmdk-1.8/src/common/mmap.c:485-525 | true exactly when every byte of the range is tracked, by one tracker or several |
| `InitOnce.InvStep` | pmdk-1.8/src/benchmarks/obj_locks.cpp:176-199 | every atomic step keeps the single-owner invariant |
| `InitOnce.OneInside` | pmdk-1.8/src/benchmarks/obj_locks.cpp:176-199 | in every run at most one thread is inside init_lock |
| `InitOnce.CountersMean` | pmdk-1.8/src/benchmarks/obj_locks.cpp:186-195 | the counters of the model are zero exactly when no move of the schedule ended an init with that answer |
| `InitOnce.AtMostOneInit` | pmdk-1.8/src/benchmarks/obj_locks.cpp:176-199 | at most one move of a schedule ends an init successfully, and none if the run id was current |
| `InitOnce.PublishSucceeds` | pmdk-1.8/src/benchmarks/obj_locks.cpp:191-195 | the publishing compare-and-swap never fails |
| `InitOnce.LockIsInitialised` | pmdk-1.8/src/benchmarks/obj_locks.cpp:176-199 | a returned lock was current from the start, or some move of the schedule ended an init successfully |
| `InitOnce.NullMeansFailedInit` | pmdk-1.8/src/benchmarks/obj_locks.cpp:186-195 | a null return means that a move of that thread ended its own init with a failure |
| `InitOnce.FailedInitGivesNull` | pmdk-1.8/src/benchmarks/obj_locks.cpp:186-189 | a thread whose init fails returns null |
| `InitOnce.NoNullWhenOk` | pmdk-1.8/src/benchmarks/obj_locks.cpp:176-199 | when no init fails no thread returns null |
| `InitOnce.ReadyStays` | pmdk-1.8/src/benchmarks/obj_locks.cpp:176-199 | once the run id is current it stays so |
| `InitOnce.StepLowersRank` | pmdk-1.8/src/benchmarks/obj_locks.cpp:176-199 | every step that changes something lowers a rank |
| `InitOnce.RunsAreBounded` | pmdk-1.8/src/benchmarks/obj_locks.cpp:176-199 | in every schedule, whatever inits fail, at most rank-many moves change anything |
| `InitOnce.MovesOrWaits` | pmdk-1.8/src/benchmarks/obj_locks.cpp:176-199 | a thread that has not returned can move, or waits for the owner of the claim, and that one can |
| `InitOnce.EveryRunCanFinish` | pmdk-1.8/src/benchmarks/obj_locks.cpp:176-199 | every reachable state can be continued to the return of all threads, with the lock if no init fails |
| `InitOnce.StuckFromStaleClaim` | pmdk-1.8/src/benchmarks/obj_locks.cpp:181-183 | from a stale claim no step ever changes anything |
| `WorkerProtocol.InvStep` | pmdk-1.8/src/benchmarks/benchmark_worker.cpp:46-112 | every step of any worker or the main thread, spurious wakeups included, keeps the invariant |
| `WorkerProtocol.InvRun` | pmdk-1.8/src/benchmarks/pmembench.cpp:568-642 | the invariant holds after every schedule of any number of workers |
| `WorkerProtocol.NoAssertionFails` | pmdk-1.8/src/benchmarks/benchmark_worker.cpp:159-224 | no state assertion fails in any interleaving of any number of workers |
| `WorkerProtocol.NoLostWakeup` | pmdk-1.8/src/benchmarks/benchmark_worker.cpp:46-112 | a thread sleeps only while the state it waits on has not changed |
| `WorkerProtocol.InitAndExitAlone` | pmdk-1.8/src/benchmarks/pmembench.cpp:568-642 | init callbacks never overlap, nor do exit callbacks |
| `WorkerProtocol.InitsPrecedeFuncs` | pmdk-1.8/src/benchmarks/pmembench.cpp:1190-1214 | while any func runs, every worker has been initialised and no init or exit runs |
| `WorkerProtocol.EndsInOrder` | pmdk-1.8/src/benchmarks/pmembench.cpp:1190-1214 | every func has ended when results are stored, and every worker has exited at the end |
| `WorkerProtocol.StepLowersRank` | pmdk-1.8/src/benchmarks/benchmark_worker.cpp:46-112 | every step that changes something, spurious wakeups aside, lowers a rank |
| `WorkerProtocol.RunsAreBounded` | pmdk-1.8/src/benchmarks/pmembench.cpp:1190-1214 | so every run without spurious wakeups is bounded by the rank it starts with |
| `WorkerProtocol.SchedulesAreBounded` | pmdk-1.8/src/benchmarks/pmembench.cpp:1190-1214 | in every schedule of n workers the threads take at most 88 n + 22 steps that change something, and two more for each spurious wakeup |
| `WorkerProtocol.SomeoneCanMove` | pmdk-1.8/src/benchmarks/benchmark_worker.cpp:159-224 | until the end some thread can always move: no deadlock |
| `WorkerProtocol.CallbacksOnce` | pmdk-1.8/src/benchmarks/benchmark_worker.cpp:46-112 | init, func and exit of a worker each end exactly once by the time its state is past them, and not before |
| `WorkerProtocol.OutMeansFailedInit` | pmdk-1.8/src/benchmarks/pmembench.cpp:568-642 | the main thread gives up only after a choice ended the init of its worker with a failure |
| `WorkerProtocol.FailedInitEndsRun` | pmdk-1.8/src/benchmarks/pmembench.cpp:568-642 | once an init has failed the run never gets past the init phase |
| `WorkerProtocol.StoresBeforeExit` | pmdk-1.8/src/benchmarks/pmembench.cpp:1190-1214 | no worker is told to exit before the results are stored |
| `WorkerProtocol.EveryRunCanFinish` | pmdk-1.8/src/benchmarks/pmembench.cpp:1190-1214 | every reachable world can be continued to its end, and to the regular one if no init fails |
| `CloVec.CloVector.constructor` | pmdk-1.8/src/benchmarks/clo_vec.cpp:44-73 | one zeroed structure |
| `CloVec.CloVector.Grow` | pmdk-1.8/src/benchmarks/clo_vec.cpp:142-166 | the vector becomes the old structures taken round and round, in separate buffers |
| `CloVec.CloVector.Memcpy` | pmdk-1.8/src/benchmarks/clo_vec.cpp:229-243 | -1 and nothing changed when the field does not fit; otherwise the product with the one value |
| `CloVec.CloVector.SetBlock` | pmdk-1.8/src/benchmarks/clo_vec.cpp:269-275 | the inner loop gives one value to its block of structures |
| `CloVec.CloVector.MemcpyList` | pmdk-1.8/src/benchmarks/clo_vec.cpp:253-279 | -1 and nothing changed when the field does not fit; otherwise one structure per old structure and value |
| `CloVec.GrownAndSet` | pmdk-1.8/src/benchmarks/clo_vec.cpp:253-279 | growing and then copying block by block enumerates old structures fastest, values slowest |
| `CloVec.ApplyLists` | pmdk-1.8/src/benchmarks/clo.cpp:807-857 | applying option lists in turn succeeds exactly when all fields fit, and gives their product |
| `CloVec.EntryHoldsDigits` | pmdk-1.8/src/benchmarks/clo_vec.cpp:253-279 | for disjoint fields, field i of entry j is the mixed-radix digit of j for list i; empty lists leave zeros |
| `CloVec.EveryCombinationOnce` | pmdk-1.8/src/benchmarks/clo_vec.cpp:253-279 | the length is the product of the nonempty list lengths; each choice of values has a place that holds it, and no other place is made from that choice |
| `CloVec.ContentOnceIff` | pmdk-1.8/src/benchmarks/clo_vec.cpp:253-279 | each combination of values is the content of exactly one place if and only if no list repeats a value |

## Left out

- Processes, gdb scripts, pickling, memory-mapped file handles, signatures and result tables.
- TraceExtract.ExtractOperations: records arrive parsed from their text; source positions, `is_cas`, the tables of load
  addresses and the set of branch positions are not modelled, because they only collect fields of records.
- Marks live in the lists of a cache as values. That the same Store object is also in the trace, and so keeps its mark
  after it leaves a list, is not captured.
- `get_stores_from_crash_plan`, which no checker calls.
- Addresses are unbounded integers: 64-bit wrap-around of a range's end, the mask form of alignment, and the float
  divisions in `get_cacheline_address` and in the store splitter (exact below 2^53) are not modelled.
- CacheSpec.CachesAgree: the equivalence of the caches and the legality of crash images are for stores inside one
  cacheline, which the persist-only parser produces. The two-thread parser passes stores unsplit to the program-order
  cache; for those `FlatRunWritten`, `WrittenAreDurable` and `RollbackImage` say what is written, and the order in which
  stores reach the image is then that of their fences, not program order (`BorderOutOfOrder`).
- RaceOps.InitRaceOps: the load side of the race lists and the pairing of races are not modelled, because they add only
  list bookkeeping; the filters that choose the stores are a parameter, the set of chosen ids.
- FlushWrapper.RangeFlushDurable: needs both mappings to begin and end at cacheline borders, as mapped pages do.
- RangeTracker.MmapList.Register: runs of a single caller; the check and the insertion are under separate locks in the
  source, and the lookup of the region's kind is a parameter. Allocation failure is a free choice at each malloc.
- LpSlice.GetLpsFromBr: values, blocks and functions of LLVM are a finite graph given as data.
- MapScript.GenScript: the order of the dictionary and the random extra keys are parameters; the extra keys are any keys
  without a magic string that the model does not have.
- Rollback.ReplayTrace: when the second thread is announced silently before any operation its index is -1, and Python
  then slices from the end; that outcome is named `BeforeTrace` and what the cache holds after it is not stated.
- QueueOracle.NoFalseAlarm: the queue's answer to a dequeue of an empty queue and to an enqueue are parameters.
- WorkerProtocol.InvStep: thread affinity, failed thread creation and the contents of callbacks; an init may fail, which
  ends the run as in the source.
- CloVec.ApplyLists: the parsing of option text into lists of values, the choice of an option by its name, and the
  defaults, which are further lists applied in the same way; ranges in that text (`clo_eval_range`) may not end.
- The recording functions of the tracer other than flushes, the LLVM passes, bad-block handling, the other benchmarks,
  `st_trace_checker_2_ops.py` and everything else in PMDK.
