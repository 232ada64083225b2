# Verified model of badger-bench

badger-bench fills five key-value stores (Badger, RocksDB, LevelDB, Bolt, LMDB) with the same
workload and then times random reads and iteration over them. This project models the parts of it
that have something to get wrong, and proves what they promise:

- **The populate protocol** (`Populate`, `PopulateProof`, `PopulateProgress`, `PopulateHistory`): N workers, a shared
  counter, a WaitGroup, a reporter and the closing phase, as a step relation over atomic actions.
  A run is any interleaving. N, the batch size B, the number of keys nw (a real) and the value size
  are parameters; the program fixes N = 32 and B = 1000.
- **The keys** (`KeyCodec`, `ByteOrder`): `vsz=%05d-k=%010d`, its parser, its length and its order.
- **The reused buffers** (`Buffers`): entries whose arrays are refilled for every batch, and
  transactions that hold references to those arrays until they commit. `WorkerRefinement` ties the
  worker written over buffers to the worker of the protocol.
- **C memory** (`CMemory`, `Slices`) and **the filter-policy bridge** (`FilterBridge`): a flat byte
  heap with malloc blocks, the Go slices and views over it, and Go policies called from C++.
- **Equivalent loops** (`Cursor`, `ReadBench`, `HitCounts`, `Batches`, `Store`): cursors, iterate and
  read loops, tallies, batches against transactions, snapshots.

The databases are finite maps from byte strings to byte strings (`KeyValue`), with atomic batches and
cursors that walk the keys in byte order.

Where the code and a comment or a natural expectation part, the model follows the code:

- The keys are commented as 22 bytes. That holds exactly when vsz < 10^5 and k < 10^10
  (`KeyCodec.KeyLength`); past 10^10 keys the byte order is no longer the numeric order
  (`KeyCodec.OrderedIffFits`).
- With 0 < nw < 1 a worker reduces a random number modulo int(nw) = 0 and the program panics; for
  every other nw it finishes (`PopulateProgress.FinishesIff`).
- A Go filter longer than 2^24 bytes panics in `cByteSlice` (`FilterBridge.CppCreateFilter`).
- `GetBytes` passes the length as a C int, so it returns the whole value exactly when the value is
  shorter than 2^31 bytes (`Slices.GoBytesWhole`).
- The RocksDB read loop counts a stored empty value as not found (`ReadBench.TallyMeaning`), and it never
  frees a slice, so each key it finds leaves a block of C memory behind (`ReadBench.ReadLoop`).
- A nil filter policy is registered like any other and panics when RocksDB calls it
  (`FilterBridge.CppCreateFilter`).
- `SetSnapshot` with a snapshot already released unsets the snapshot, and a read through a snapshot
  released while it is set is undefined (`Store.Store.Get`).

## Model

| member | source | states |
|---|---|---|
| KeyCodec.ParsePrint | populate/main.go:47-53 | a parser of the key format accepts exactly the printed keys and returns exactly the two numbers printed, for all naturals, also those wider than the padding |
| KeyCodec.ParseOfPrint | rw-bench/bench.go:34-40 | parsing undoes printing |
| KeyCodec.PrintInjective | bench_test.go:76-80 | different (value size, key number) pairs print as different keys |
| KeyCodec.DecimalCanonical | populate/main.go:48 | the padded print has at least the width asked for, only digits, no leading zero beyond the padding, and reads back as the number |
| KeyCodec.CanonicalIsDecimal | populate/main.go:48 | every digit string of that shape is the print of its value |
| KeyCodec.DecimalWidth | populate/main.go:48 | the print has exactly the padded width if and only if the number is below 10^width |
| KeyCodec.KeyLength | rw-bench/bench.go:34-40 | a key has 22 bytes if and only if vsz < 10^5 and k < 10^10, and never fewer |
| KeyCodec.DecimalDigit | populate/main.go:48 | the i-th digit from the right is the character '0' plus n / 10^i mod 10, at every width and for every number |
| KeyCodec.KeyText | populate/main.go:48 | within both paddings the 22 bytes are the characters vsz=, five digits, -k= and ten digits, each the decimal digit of its place |
| KeyCodec.KeyOrder | bench_test.go:76-80 | within the padding, byte-lexicographic order on keys is numeric order on (value size, key number) |
| KeyCodec.OrderedIffFits | populate/main.go:47-48 | for any one value size, the keys below a bound are stored in numeric order if and only if the bound is at most 10^10 |
| KeyCodec.OverflowOutOfOrder | populate/main.go:48 | key number 10^10 sorts before key number 10^10 - 1 |
| KeyValue.PutAllIsMerge | rw-bench/bench.go:49-56 | an ordered list of puts with duplicates is one overwriting map, whatever store it meets |
| Populate.LoopTestRounds | populate/main.go:278-287 | the test written < nw/N lets a worker go round again exactly while it has finished fewer than ceil(nw/(N*B)) batches |
| Populate.KeySpaceTruncates | populate/main.go:47 | int(nw) is the whole number next to nw on the side of zero: int(nw) <= nw < int(nw) + 1, mirrored for negative nw |
| PopulateProof.StepInv | populate/main.go:240-321 | every atomic step of main, of a worker or of the reporter keeps the protocol's invariant |
| PopulateProof.RunInv | populate/main.go:240-321 | so does every run, in any interleaving |
| PopulateProof.CounterConservation | populate/main.go:278-287 | in every reachable state the counter is the sum of the workers' own totals plus B for each worker between its two adds, and trails the committed entries by B for each worker between commit and add, at most N*B |
| PopulateProof.CounterBounded | populate/main.go:279-287 | the counter and the committed entries never pass N*B*ceil(nw/(N*B)) |
| PopulateProof.WaitGroupExact | populate/main.go:266-292 | the WaitGroup is the number of started workers that have not called Done (plus one between Add and go), is never negative, and is at least one while a worker is live |
| PopulateProof.CloseAfterLastCommit | populate/main.go:292-321 | once Wait has returned every worker has exited, no worker step is possible, and counter and committed entries have their final value |
| PopulateProof.ClosedMeansPastWait | populate/main.go:292-321 | the store is closed, the context cancelled and the total printed only after Wait has returned |
| PopulateProof.PrintedTotal | populate/main.go:321 | whatever the schedule, the printed total is N*B*ceil(nw/(N*B)), at least nw and less than nw + N*B, and 0 when nw is not positive |
| PopulateProof.TotalBounds | populate/main.go:159-160 | nw <= N*B*ceil(nw/(N*B)) < nw + N*B for positive real nw |
| PopulateProof.ReportsNeverDecrease | populate/main.go:242-258 | the reporter's successive reads never decrease and never pass the counter or the final total |
| PopulateProof.ReportsExact | populate/main.go:242-258 | in every run the reporter has shown, tick by tick, exactly B times the number of atomic adds made before that tick |
| PopulateProof.ReportReads | populate/main.go:246-250 | while the reporter lives it can read in every reachable state, and what it reads is the sum of the workers' own totals plus B for each worker between its two adds |
| PopulateProof.StoredKeys | populate/main.go:47-128 | in every reachable state each stored key is the print of some k with k + 1 <= nw, each value has length valsz, and the number of keys is at most the committed entries, nw (none when nw is negative) and, at the end, the printed total |
| PopulateProof.CommitKeepsStore | populate/main.go:67-128 | one committed batch keeps the shape of the stored keys and values and adds at most its length to the number of keys |
| PopulateProgress.StepUsesOne | populate/main.go:265-321 | every step other than a reporter's read lowers the remaining work by exactly one |
| PopulateProgress.EveryRunEnds | populate/main.go:265-321 | no run does more than 2N + 5 + N*(4*ceil(nw/(N*B)) + 1) steps of work, and a run does exactly that many if and only if main has finished and the reporter has left |
| PopulateProgress.NothingRemains | populate/main.go:292-321 | no work remains if and only if main has finished and the reporter has left |
| PopulateProgress.Progress | populate/main.go:265-321 | a state with work left always has a possible step, whatever batches the workers draw next, unless they must draw from an empty key space |
| PopulateProgress.NoDeadlock | populate/main.go:265-321 | for nw outside (0, 1), nothing but reporter reads is possible if and only if main has finished and the reporter has left |
| PopulateProgress.FinishesIff | populate/main.go:47 | some run prints its total if and only if nw is not strictly between 0 and 1 |
| Buffers.Entry.constructor | populate/main.go:272-274 | a new entry has its own 22-byte key array and its own value array of the value size |
| Buffers.Entry.Fill | populate/main.go:46-57 | the key slice becomes the printed key, the value the random bytes, the key capacity never shrinks, and a bigger key array is a new one |
| Buffers.FillOne | populate/main.go:46-57 | filling one entry changes the buffers and bytes of no other entry |
| Buffers.FillAll | populate/main.go:67-70 | after refilling, the entries hold exactly the drawn pairs and still share no array |
| Buffers.Txn.Set | populate/main.go:75-77 | the transaction keeps references and they are intact at Set time |
| Buffers.Txn.Commit | populate/main.go:78 | a commit through intact references writes the bytes of Set time, later puts of a key winning |
| Buffers.CommitBatch | populate/main.go:72-125 | each of the five engines applies exactly the entries' pairs in order |
| Buffers.WriteBatch | populate/main.go:67-128 | one batch through reused buffers applies exactly the pairs just drawn, keeps the entries' arrays apart and their capacity, and returns the number of entries |
| Buffers.RunRound | populate/main.go:279-287 | each turn of the loop takes the store exactly one round further |
| Buffers.TestLoop | populate/main.go:279 | the loop condition on written and nw/N is the comparison of finished rounds with ceil(nw/(N*B)) |
| Buffers.RunWorker | populate/main.go:270-287 | one worker stops after exactly ceil(nw/(N*B)) batches with written = B times that, and the store has met all its pairs in order, each random number reduced modulo floor(nw); it writes nothing when nw <= 0 |
| WorkerRefinement.TurnIsFourSteps | populate/main.go:279-287 | one turn of the loop is the four protocol steps fill, commit, count and bump, and has their combined effect |
| WorkerRefinement.WorkerIsProtocolRun | populate/main.go:270-289 | the code over buffers is one schedule of the protocol: from any point of its loop a worker can run out alone, leaving in the store exactly the pairs the worker over buffers leaves, with the counter grown by what it wrote |
| PopulateHistory.StoreIsHistory | populate/main.go:240-321 | in every run the store is exactly the committed batches put in commit order, and the committed entries are their number |
| PopulateHistory.OwnCommitsInOrder | populate/main.go:278-287 | from any state of any interleaving, the commits of a worker are the next batches of its own sequence of draws, none lost, repeated or reordered |
| PopulateHistory.WorkerHistory | populate/main.go:270-292 | at every moment of every interleaving a worker has committed exactly its first batches in the order drawn, and all ceil(nw/(N*B)) of them once Wait has returned |
| PopulateHistory.StoredIsOwn | populate/main.go:67-128 | in any list of commits, each value left in the store is the last one some worker taken alone puts under its key |
| PopulateHistory.OwnKeysStored | populate/main.go:67-128 | every key a worker commits is in the store |
| PopulateHistory.EveryInterleaving | populate/main.go:265-321 | once Wait has returned, under any schedule, the stored keys are those of the stores the workers would leave alone, and each value is the one some worker alone would leave there |
| PopulateHistory.UnsharedKey | populate/main.go:265-321 | a key that only one worker draws holds that worker's last value for it, whatever the schedule |
| PopulateHistory.EverySourceRuns | populate/main.go:265-321 | for any random sources of the workers some schedule runs the program on exactly their draws to the printed total, for every nw outside (0, 1) |
| CMemory.CHeap.MallocCopy | rdb/rdbc.cc:68-72 | the copy gets any address, a released one too, whose block overlaps no live block (or null for no bytes), holds the bytes, and leaves every live block as it was |
| CMemory.FreedPreserves | rdb/slice.go:31-37 | freeing a block made since some moment leaves every block live at that moment live and unchanged |
| CMemory.CHeap.Free | rdb/slice.go:31-37 | only null or a live block may be freed, and exactly that block is released |
| Slices.SaveError | rdb/rdbc.cc:53-66 | an error status replaces any earlier error string by its own text up to the first zero byte and frees the earlier one; success changes nothing |
| Slices.RdbGet | rdb/rdbc.cc:107-126 | a found value is copied to a new block, a missing key gives null and no error, a failure gives an error string only |
| Slices.Get | rdb/db.go:88-100 | a slice that owns a new block and reads as the stored value; an error returns the text and leaves no block behind |
| Slices.GetBytes | rdb/db.go:103-119 | every block is given back; the result is the value as C.GoBytes sees it, nil for a missing key (or an empty value malloc answered with null), or the error text |
| Slices.GoBytesWhole | rdb/db.go:118 | the copy is the whole value if and only if its length is below 2^31 |
| Slices.GoBytes | rdb/db.go:118 | the first (length mod 2^32) bytes when that number is below 2^31, else a panic |
| Slices.FreeKeepsOwnership | rdb/slice.go:31-37 | freeing any slice, again or not, keeps the live blocks beyond RocksDB's own equal to the blocks of the unfreed slices, one each |
| Slices.IssueKeepsOwnership | rdb/iterator.go:51-68 | issuing a Get slice or an iterator slice keeps it too |
| Slices.AgreesKept | rdb/slice.go:10-29 | as long as live blocks are left alone, every unfreed slice goes on reading as the value it was handed out for |
| Slices.SoundAfterIssue | rdb/db.go:88-100 | handing out a slice keeps ownership, what every slice reads, and the blocks found at the start |
| Slices.SoundAfterFree | rdb/slice.go:31-37 | so does freeing one |
| Slices.OwnershipMeansNoLeak | rdb/slice.go:31-37 | each allocation made since the start is live if and only if an unfreed slice owns it |
| Slices.OriginsCount | rdb/iterator.go:51-68 | the slices handed out by a list of calls are as many as its Gets that do not fail and its Keys and Values that are not null |
| Slices.OriginAt | rdb/db.go:88-100 | the slice of each such call comes right after those of the calls before it, with that call's outcome or address |
| Slices.FreedExact | rdb/slice.go:31-37 | a slice counts as freed if and only if a Free names it after it was handed out |
| Slices.HitsStillRead | rdb/slice.go:10-29 | the slice of every Get that found a value reads as that value until it is freed |
| Slices.Slice.Free | rdb/slice.go:31-37 | the first Free of a slice that owns a block releases exactly that block, and any other Free changes no memory |
| Slices.Client.Free | rdb/slice.go:31-37 | C free is reached exactly for a slice that still owns its block |
| Slices.Client.Lookup | rdb/db.go:88-100 | a Get that does not fail issues exactly one slice, unfreed, that owns its block and reads as the value, and disturbs no other slice; a failed one issues none |
| Slices.Client.Look | rdb/iterator.go:51-68 | Key and Value hand out nothing for null and otherwise one slice over the iterator's memory that is marked freed from the start, so it can never release any block |
| Slices.RunCalls | rdb/slice.go:10-37 | for any list of Get, GetBytes, Key, Value and Free calls, from the list alone: which slices are handed out, which are marked freed (an iterator's, and those some later Free named), and that each unfreed one from Get reads as its value; every C free met a live block, RocksDB's blocks are untouched, and every other block is live exactly while one unfreed Get slice owns it, though malloc may reuse addresses |
| FilterBridge.BridgeKeepsContract | rdb/filter_policy.go:10-24 | for a policy with methods create and mayMatch: the C++ side sees no false negative for any heap layout if and only if mayMatch(k, create(keys)) holds for every key of every list whose filter has at most 2^24 bytes |
| FilterBridge.GoImpliesCpp | rdb/rdbc.cc:338-361 | under that contract mayMatch accepts a listed key wherever keys, key and filter lie in memory, overlapping or not |
| FilterBridge.CppImpliesGo | rdb/filter_policy.go:62-81 | conversely the C++ contract gives the Go contract |
| FilterBridge.StubBreaksContract | rdb/filter_policy.go:35-37 | the stub methods of a native policy deny every key of every list and would break both contracts |
| FilterBridge.Registry.Register | rdb/filter_policy.go:57-60 | the policy is appended and its index returned |
| FilterBridge.Registry.SetFilterPolicy | rdb/options_block_based_table.go:51-59 | the handle denotes the given policy, nil included, no earlier index changes meaning, and no native policy is registered |
| FilterBridge.Registry.SetMany | rdb/options_block_based_table.go:51-59 | over any sequence of calls every handle issued still denotes its policy |
| FilterBridge.CByteSlice | rdb/util.go:42-52 | null for no bytes, else a new block with a copy; a panic if and only if there are more than 2^24 bytes |
| FilterBridge.CreateCallback | rdb/filter_policy.go:63-74 | the policy's create is called on exactly the key list the two C arrays describe, and its filter comes back byte for byte; a nil policy and a filter over 2^24 bytes panic |
| FilterBridge.CppCreateFilter | rdb/rdbc.cc:338-355 | dst becomes the old dst followed by create of the keys' bytes, or the call panics when the policy is nil or the filter exceeds 2^24 bytes |
| FilterBridge.CppKeyMayMatch | rdb/rdbc.cc:357-361 | the answer is mayMatch of the key's bytes and the filter's bytes, in that order; a panic for a nil policy |
| FilterBridge.CreateThenAsk | rdb/rdbc.cc:338-361 | asking for a listed key about a filter made through the bridge gives mayMatch of that key and create of the whole list, so never no when the policy keeps its contract; there is no answer exactly when the policy is nil or the filter exceeds 2^24 bytes |
| Cursor.Iterator.Seek | rdb/iterator.go:90-94 | the cursor stands at the first key not before the target |
| Cursor.ScanPrefix | rdb/iterator.go:44-48 | Seek(prefix) and Next while ValidForPrefix(prefix) visit exactly the keys with the prefix, once each and in order |
| Cursor.PrefixScanned | rdb/iterator.go:44-48 | in an ordered key list the keys with a prefix are the block between the seek position and the first key without it |
| Cursor.CountKeys | rw-bench/bench.go:107-110 | the cursor loop counts each stored key once |
| Cursor.SafeCopy | bench_test.go:269-276 | the buffer holds the source afterwards, and its capacity never decreases |
| Cursor.Iterate | bench_test.go:284-302 | the loop counts min(number of keys, limit) keys, leaves the last visited pair in the buffers, and fails its size assertion if and only if a visited value has another size |
| Cursor.IterateLmdb | bench_test.go:359-396 | LMDB's loop, which fetches before it tests, ends the same way |
| Cursor.IterateRounds | bench_test.go:278-467 | the rounds of the RocksDB, Bolt, LMDB and Badger benchmarks fail if and only if there is a round and a value it visits has the wrong size (never for RocksDB); otherwise every round counts min(number of keys, limit), the shared buffers end with the last pair visited, and they never lose capacity |
| ReadBench.ReadLoop | bench_test.go:148-267 | a read loop's counter is the tally of its verdicts, counts every iteration once, and the loop fails if and only if some value has the wrong size; RocksDB's leaves one live C block per key found and at most one per empty value, the others touch no C memory |
| ReadBench.ReadBadger | bench_test.go:134-160 | one iteration over txn.Get and ValueCopy counts the answer of whichever call decides as Classify says |
| ReadBench.GetSize | rdb/db.go:88-100 | the slice of DB.Get has the size of the value, 0 for a missing key, and leaves a block behind for every nonempty value |
| ReadBench.ReadRocks | bench_test.go:171-181 | one iteration counts what DB.Get hands back as Classify says, and never frees the slice |
| ReadBench.ReadLevel | bench_test.go:190-202 | one iteration counts its answer as Classify says |
| ReadBench.ReadBolt | bench_test.go:214-224 | one iteration counts its answer as Classify says: nil is the only sign of no value |
| ReadBench.ReadLmdb | bench_test.go:248-260 | one iteration counts its answer as Classify says |
| ReadBench.TallySum | bench_test.go:148-267 | found + notFound + errored is the number of iterations |
| ReadBench.TallyMeaning | bench_test.go:170-183 | for any answers, errors included: the tallies are the numbers of hits, misses and errors, except that RocksDB counts hits on empty values as not found and Bolt has no errors |
| ReadBench.AllFiveAgree | bench_test.go:148-267 | on a healthy store all five tallies are equal if and only if no lookup hits an empty value, so always when the value size is positive |
| ReadBench.FoundAreStored | bench_test.go:148-267 | on a healthy store a loop finds exactly the drawn keys that are stored (for RocksDB: with a value that is not empty), misses the others and meets no errors |
| ReadBench.ReadersNeverFail | bench_test.go:143-144 | after any populate run no read or iterate assertion on the value size can fail with the same value size |
| ReadBench.IteratorsNeverFail | bench_test.go:305-467 | after any populate run no value an iterate benchmark visits has a size other than the one populated with |
| HitCounts.StepInv | bench_test.go:100-104 | each single atomic add keeps every field equal to the adds made so far, modulo 2^64 |
| HitCounts.RoundExact | bench_test.go:118-125 | whatever the interleaving of the adds, each field ends as the sum of the goroutines' local fields, modulo 2^64 |
| HitCounts.OnlyLastRound | bench_test.go:117-126 | any sequence of rounds leaves what its last round alone leaves |
| HitCounts.PrintedTally | bench_test.go:106-127 | what is printed is the exact sum of the last round's local tallies, and the three fields add up to its iterations |
| HitCounts.EveryLookupCounted | bench_test.go:118-125 | however the iterations are shared out, the local tallies account for each of them |
| HitCounts.PrintedAnswers | bench_test.go:106-127 | what is printed is the number of hits, misses and errors among all lookups of the last round, however they were shared out and scheduled (less the empty hits for RocksDB, without errors for Bolt) |
| HitCounts.SomeRoundCompletes | bench_test.go:118-125 | whatever the local tallies, some order of the adds completes the round |
| Batches.CreateEntries | rw-bench/bench.go:49-56 | the batch copies exactly the pairs drawn, which the entries still hold |
| Batches.WriteAndCount | rw-bench/bench.go:94-131 | the copied batch and the referencing transaction leave the same map, and both loops count its distinct keys |
| Batches.RwBench | rw-bench/bench.go:94-131 | the same for every list of draws, duplicates included |
| Batches.WriteEntries | populate/lmdb_txn_bench_test.go:42-50 | the error is that of the first failing Put, and without one all pairs are put |
| Batches.FirstFault | populate/lmdb_txn_bench_test.go:42-50 | no error if and only if no Put fails; otherwise the error of a failing Put with no failing Put before it |
| Batches.Env.UpdateSimple | populate/lmdb_txn_bench_test.go:52-57 | no error if and only if no Put and no commit fails, and then the store is the old one with all pairs put; otherwise the store is as it was and the error is that of the first failing Put, or else of the commit |
| Batches.Env.UpdateNested | populate/lmdb_txn_bench_test.go:59-66 | the same through a sub-transaction, whose own commit error comes before the outer one and also leaves the store as it was |
| Batches.UpdatesAgree | populate/lmdb_txn_bench_test.go:52-66 | run on the same store, the two updates end with the same error and store if and only if the sub-commit succeeds, fails as the outer commit does, or some Put fails |
| Batches.ReplayOnce | populate/main.go:100-112 | running the Bolt closure any positive number of times has the effect of running it once |
| Store.Store.WriteBatch | store/store.go:126-128 | a write (SetOne and Delete are batches of one) adds its updates to the history, or reports its error and changes nothing; afterwards each key holds what its last change put, or nothing if that was a delete |
| Store.ReadAfterWrite | store/store.go:83-97 | after any history a key reads as the value v if and only if the last change made to it in all batches was a put of v, and as missing if it was a delete or there is none |
| Store.PutsAreBatch | store/store.go:93-97 | a batch of puts does what the ordered list of puts does |
| Store.SnapTimesExact | store/store.go:133-134 | handles number the snapshots taken, in the order taken |
| Store.ActiveIsLastUse | rdb/options_read.go:39-45 | a snapshot is in use if and only if the last SetSnapshot call named it and it had not been released then |
| Store.Store.NewSnapshot | store/store.go:133-134 | the new snapshot is frozen at the current history |
| Store.Store.SetSnapshot | rdb/options_read.go:39-45 | reads go to the given snapshot; nil and a released snapshot unset it |
| Store.Store.ReleaseSnapshot | rdb/snapshot.go:20-23 | the snapshot can no longer be read |
| Store.Store.Get | store/store.go:83-90 | after any history, decided by the last change made to the key before the snapshot in use was taken, or in the whole history when none is set; undefined exactly through a snapshot released while in use; a lookup RocksDB fails is returned as its error |
| Store.Store.NewIterator | store/store.go:99-105 | the iterator walks the current map in order, whatever snapshot is set, each key with what its last change put |

## Left out

- The internals of RocksDB, Badger, LevelDB, Bolt and LMDB: they are maps with atomic batches; their own limits (transaction too big, map full, disk errors in populate) end the program and are not modelled.
- Float rounding: nw is an exact real and a worker's total an exact multiple of B.
- Random numbers, clocks, tickers, profiling, HTTP, the rate counter, humanize and all printing: random draws are parameters or free choices, the rest only displays.
- Buffers.Txn.Commit: the transaction is a list of references and one map of pending writes; conflict detection between transactions is not modelled.
- PopulateProof.StoredKeys: the store starts empty, as the program removes the directory first.
- CMemory.CHeap.MallocCopy: malloc of a positive size always succeeds.
- FilterBridge.CreateCallback: the block of a filter is never freed, because the delete callback does nothing (rdb/rdbc.cc:395); no claim is made that filters do not leak.
- Slices.Client.Look: iterator memory is valid only until the iterator moves; that lifetime is not modelled.
- Cursor.Iterate: Prev, SeekToLast, SeekForPrev and the key-only Badger loop are not modelled.
- Checkpoints, caches, column options, stats strings and the other option setters: one-line calls into RocksDB.
- Whether the bloom filter set after the table factory is built takes effect (store/store.go:38-48): it depends on RocksDB.
- randread and extra: file reading and display around one subtraction.
