# LogMonitor: a verified model

LogMonitor is a log pipeline: producers push log entries into a lock-free ring buffer, one consumer
pops them and hands them to a thread pool, workers match them against rules and count alerts, and a
time-series store keeps them for windowed queries and threshold alerts. Beside the pipeline stand a
multi-tenant layer (projects, API keys, one store per project), tokens with revocation, a per-key
rate limit and a minimal HTTP front end.

The project models this logic and proves what each part promises, over every input and every run.

## How it is laid out

Code that several threads share is modelled twice. A *machine* (`RingMachine`, `PoolMachine`,
`PipelineMachine`, `TenantMachine`) is a state and a step for every atomic access or critical section
of the source; a run is an arbitrary sequence of steps of any threads, and the theorems are about all
runs. A *class* (`RingBuffer`, `ThreadPool`, `LogPipeline`, `TenantManager`) has the source's fields
and methods, with its loops and branches; its methods update the fields in place and are proved
against the machine or a specification function, and what other threads do in between is an argument
of the method. Sequential classes (`TSDB`, `AuthManager`, `AlertRulesEngine`, `ProjectStore`,
`TokenBucket`) are proved against functions on values, and the whole-run theorems are about those.

| files | part of the source |
|---|---|
| `RingMachine`, `RingProperties`, `RingWord`, `RingBuffer` | the ring buffer: unbounded counters, what it promises, 64-bit words, the class |
| `TsdbSpec`, `TsdbCodec`, `Tsdb` | the time-series store, its binary image, the class |
| `PoolMachine`, `ThreadPool` | the thread pool's protocol and the class |
| `PipelineMachine`, `LogPipeline` | the counters from ring buffer to alerts, and the class |
| `Base64Url`, `AuthManager` | the token codec, tokens and revocation |
| `AlertRules`, `AlertEngine`, `AlertQueries` | the threshold alerts: runs, the classes, and the alerts in terms of stored entries |
| `ProjectSpec`, `ProjectStore` | projects: the plain map, and the class with three indices |
| `TenantMachine`, `TenantManager` | routing to one store per project |
| `RateLimit`, `RateLimiter` | the token bucket: runs, and the classes |
| `Text`, `HttpParser`, `RequestFraming` | searching in strings, the parser, the framing loop |
| `Prelude` | options and byte strings |

Clock readings, random ids, file contents and the behaviour of other threads are
arguments. HMAC and the JSON writer and reader are parameters; the reader is assumed to undo the
writer.

## Where the code and its documentation differ

- `README.md` promises 100 requests per minute and key (line 67; also the comment in
  `src/HttpServer.hpp:71` and its error text). The bucket starts full and refills 100 a minute, so a
  minute can hold 200: `RateLimit.WindowsHoldIff` gives the exact limit of every window.
- The static assertion of the ring buffer admits Capacity 1. Then "full at `pos`" and "free for
  `pos + 1`" are the same sequence number and a push constructs over a live object:
  `RingProperties.CapacityOneOverwrites`; 2 is the exact bound, `RingProperties.DisciplineIffCapacity`.
- The header comment of `src/RingBuffer.hpp` (lines 14-15) says that producers swap `slot.sequence`;
  the code swaps `head_`. The model follows the code.
- `HttpParser::parse` refuses a request without headers, which section 2.1 of RFC 9112 allows:
  `Http.ParseRenderedIffHeader`.
- `verify_token` reads the clock twice. A token whose expiry falls between the two readings is
  accepted although it was revoked with its own expiry: `Auth.LifecycleIff` gives the exact condition.
- The alert engine's comment says cooldowns are preserved on reload for ids that remain. With an id
  twice in a file each copy fires; `AlertRules.SpacedIffSafe` says for which files spacing holds.
- `src/main.cpp` calls its shutdown graceful, but joins the pipeline before the watchers. An entry
  pushed after the last pop of `drain` (`PipelineMachine.LatePushIsLost`), or claimed but not yet
  published at that pop (`PipelineMachine.UnpublishedPushIsLost`), is never processed.
  `PipelineMachine.AllCountedIff` says exactly when shutdown processes everything.

## Model
| member | source | states |
|---|---|---|
| RingMachine.RunInv | src/RingBuffer.hpp:66-120 | In every state of every interleaving (Capacity at least 2) the slots of the window of Capacity positions from the logical tail are free and raw, claimed by exactly one producer, or published with the claimed value; every thread's locals fit the shared memory |
| RingMachine.DiffSign | src/RingBuffer.hpp:71-91 | What the sign of `seq - pos` tells a producer with any stale `pos`: free and claimable, full, or overtaken |
| RingMachine.CheckStep | src/RingBuffer.hpp:102-120 | What the consumer's comparison with `tail_ + 1` tells it in any reachable state, and that the check keeps the invariant |
| RingProperties.FifoDelivery | src/RingBuffer.hpp:66-120 | For every run: the popped values are a prefix of the claimed values in the order of the successful head CAS, head stays within Capacity of the logical tail, and each producer's values come out in the order its calls accepted them |
| RingProperties.RefinesBoundedFifo | src/RingBuffer.hpp:66-120 | Every run is a run of a bounded queue of Capacity values: a successful CAS enqueues, the recycling store dequeues, no other step acts, and the queue never overflows or underflows |
| RingProperties.StepRefines | src/RingBuffer.hpp:66-120 | Step by step: the abstract queue and the dequeued values change exactly as the step's queue operation says |
| RingProperties.PopFindsNothing | src/RingBuffer.hpp:102-120 | `try_pop` finds nothing exactly when the queue is empty or its front is claimed but not yet published |
| RingProperties.PopOnce | src/RingBuffer.hpp:102-116 | With no call in flight, one `try_pop` returns the front of the queue and removes it |
| RingProperties.DrainReturnsEverything | src/RingBuffer.hpp:102-120 | With no call in flight, popping as often as the queue is long returns every value ever claimed and empties the queue |
| RingProperties.StorageLifecycle | src/RingBuffer.hpp:77-83 | In every reachable state at most one thread is between claim and publish, or between ready-check and recycle, on a slot; `construct` meets raw storage and `move_and_destroy` a live object |
| RingProperties.CapacityOneOverwrites | src/RingBuffer.hpp:42-43 | With Capacity 1, which the static assertion admits, a run of two pushes is about to construct over a live object |
| RingProperties.DisciplineIffCapacity | src/RingBuffer.hpp:42-43 | The storage discipline holds in every run if and only if Capacity is at least 2 |
| RingProperties.RejectsExactlyWhenFull | src/RingBuffer.hpp:71-87 | A call gives up at its sequence load exactly when its position is head and all Capacity positions are claimed and not recycled |
| RingProperties.RetryAdvances | src/RingBuffer.hpp:77-92 | Every retry strictly increases `pos`, except after a spurious failure of the weak CAS |
| RingProperties.RetriesPaidByOthers | src/RingBuffer.hpp:69-93 | The retries of a call number at most the positions other producers claimed since it loaded head |
| RingWord.MaskIsMod | src/RingBuffer.hpp:134 | `pos & kMask` is `pos` modulo a power-of-two Capacity |
| RingWord.IndexOfWord | src/RingBuffer.hpp:70 | Truncating a counter to 64 bits does not change the slot index |
| RingWord.DiffOfWords | src/RingBuffer.hpp:73 | The wrapping signed difference of two 64-bit words is the difference of the counters when those are less than 2^63 apart |
| RingWord.NextCommutes | src/RingBuffer.hpp:66-120 | One step over words is the truncation of the step over unbounded counters, branch for branch |
| RingWord.WordRunRefines | src/RingBuffer.hpp:66-120 | The run over wrapping words equals the run over unbounded counters in every state, for Capacity 2 to 2^62 and no producer lagging head by 2^62 or more |
| Ring.RingBuffer.constructor | src/RingBuffer.hpp:48-53 | Every slot's sequence starts at its index, head and tail at 0: the initial state of the machine over words |
| Ring.RingBuffer.CompareExchangeHead | src/RingBuffer.hpp:77-78 | The weak CAS of head in place: on failure it reports the head it found; one step of the machine |
| Ring.RingBuffer.ConstructAt | src/RingBuffer.hpp:80 | `construct` in place, on raw storage only; one step of the machine |
| Ring.RingBuffer.StoreSequence | src/RingBuffer.hpp:81 | The publishing store in place; one step of the machine |
| Ring.RingBuffer.Attempt | src/RingBuffer.hpp:69-93 | One iteration of the retry loop with others interleaved: it adds to the history exactly the load of the sequence, then the swap or the reload of head, then construct and publish, each behind what others did before it; it answers true, false, or goes round having counted a retry, unless its swap failed spuriously |
| Ring.RingBuffer.PushLoop | src/RingBuffer.hpp:69-93 | The loop: one such trace for each round up to the one that answers; a call still in it after n rounds has n retries and spurious failures at least |
| Ring.RingBuffer.TryPush | src/RingBuffer.hpp:66-94 | `try_push` under any schedule of other threads: the call, the load of head and one trace for each round make up the history; true adds the value to what this producer had accepted, false adds nothing; alone, the first round answers, true exactly if fewer than Capacity positions are outstanding |
| Ring.RingBuffer.MoveAndDestroy | src/RingBuffer.hpp:148-153 | `move_and_destroy` on a live object: returns it and leaves raw storage |
| Ring.RingBuffer.RecycleSlot | src/RingBuffer.hpp:113 | The recycling store `tail_ + Capacity` in place; one step of the machine |
| Ring.RingBuffer.TryPop | src/RingBuffer.hpp:102-120 | `try_pop` under any schedule of producers: a value is returned exactly when the front was published at the sequence load, it is appended to the popped values and tail advances by one |
| Ring.AloneIsOneRound | src/RingBuffer.hpp:69-93 | A round in which no other thread runs and the swap does not fail spuriously always answers: true exactly if fewer than Capacity positions are claimed and not recycled, false otherwise |
| Ring.RingBuffer.DeliversInOrder | src/RingBuffer.hpp:66-120 | What the object has popped, in whatever interleaving, is the first of the claimed values in the order of the head CAS, and a prefix of what each producer's calls accepted; head and tail are their numbers modulo 2^64 |
| TsdbSpec.InsertKeepsSorted | src/TSDB.hpp:91-98 | Insertion at the end or at `lower_bound` keeps the vector sorted |
| TsdbSpec.InsertKeepsContents | src/TSDB.hpp:91-98 | Insertion adds exactly the new entry, as a multiset |
| TsdbSpec.NewestGoesLast | src/TSDB.hpp:91-93 | An entry that no stored one is newer than goes to the end, behind those of the same timestamp |
| TsdbSpec.OlderGoesBefore | src/TSDB.hpp:94-97 | Any other entry goes behind all that are older than it and before all that are not |
| TsdbSpec.InOrderIsAppended | src/TSDB.hpp:91-93 | Insertions of an app that come with nondecreasing timestamps are stored in the order they came, whatever the other apps are given |
| TsdbSpec.InsertThenKeep | src/TSDB.hpp:91-98 | Threshold filtering commutes with sorted insertion, order included: insert then filter is filter then insert, or nothing for a too old entry |
| TsdbSpec.KeepTwice | src/TSDB.hpp:264-269 | Filtering at an earlier and then a later threshold is filtering at the later one |
| TsdbSpec.EvictionInvisible | src/TSDB.hpp:261-275 | From any store whose vector is sorted, loaded or empty: for every run of in-order, out-of-order and late inserts and evictions at a clock that never ran ahead of the query, a query over at most 86400 s returns what a store that never evicts returns, in the same order |
| TsdbSpec.EvictionInvisibleIffWindow | src/TSDB.hpp:105-120 | Evictions are invisible to every such query, from every such store, if and only if its window is at most 86400 s |
| TsdbSpec.RunRepresents | src/TSDB.hpp:84-101 | After any run, from any sorted store, each vector is sorted and a permutation of the entries it started with or that were inserted and that no later eviction removed |
| TsdbSpec.RunNamed | src/TSDB.hpp:84-93 | After any run the entries of an app's vector carry its name, if they did at the start |
| TsdbSpec.NoEmptyVectors | src/TSDB.hpp:270-274 | After any run no empty vector is stored, if none was at the start |
| TsdbSpec.LastSeenIsNewest | src/TSDB.hpp:170-174 | What `getLastSeen` answers after any run: the newest of the last-seen time at the start and every timestamp inserted for the app since, evicted or not |
| TsdbSpec.NewestIsMaximum | src/TSDB.hpp:100 | That newest time is a maximum: nothing inserted exceeds it, and it is the start's or one that was inserted |
| TsdbSpec.WindowIsSuffix | src/TSDB.hpp:112-119 | An all-level window query of a sorted vector is a suffix of it |
| TsdbSpec.SelectCounts | src/TSDB.hpp:114-118 | A query returns every wanted entry as often as it is stored and no other entry |
| TsdbSpec.QueryCountsInsertions | src/TSDB.hpp:122-137 | From any sorted store, a query over at most 24 hours counts the entries it started with and the insertions since that lie in the window, whatever was evicted |
| TsdbSpec.QueryReturns | src/TSDB.hpp:105-120 | A query over w seconds returns an entry, as often as it is stored, exactly if it is at most w * 1000000000 ns old and has the asked level or none is asked |
| TsdbSpec.QueryKeepsOrder | src/TSDB.hpp:105-120 | It returns exactly those positions of the vector, in the vector's order |
| TsdbSpec.EvictionKeeps | src/TSDB.hpp:261-275 | An eviction keeps an entry, as often as it is stored, exactly if it is at most 86400000000000 ns old; an app without entries is gone and its last-seen time is not |
| TsdbSpec.EvictionKeepsOrder | src/TSDB.hpp:264-269 | The entries an eviction keeps stay in their order |
| Tsdb.TSDB.LowerBound | src/TSDB.hpp:95-96 | The binary search returns a position, in a sorted vector the number of leading entries older than the timestamp |
| Tsdb.TSDB.Insert | src/TSDB.hpp:84-101 | `insert` in place: into a sorted vector it is the sorted insertion; into any vector the entry is somewhere in it, once, and all else but the last-seen time stays |
| Tsdb.TSDB.GetLogs | src/TSDB.hpp:105-120 | `getLogs` returns the entries of the window and level in order |
| Tsdb.TSDB.GetCount | src/TSDB.hpp:122-137 | `getCount` is the length of what `getLogs` returns at the same clock |
| Tsdb.TSDB.GetCountsByLevel | src/TSDB.hpp:140-158 | The four known levels always have a count, every level's count is the number of entries of the filtered query, and the counts sum to the all-level query |
| Tsdb.TSDB.EvictOldEntries | src/TSDB.hpp:261-275 | Both loops of `evict_old_entries`: old entries go, apps left empty go, all else stays; sortedness is kept |
| Tsdb.TSDB.WriteBinary | src/TSDB.hpp:317-349 | `write_binary` emits the encoded image for any traversal order of the map |
| Tsdb.TSDB.ReadBinary | src/TSDB.hpp:351-393 | `read_binary` leaves the decoded store, or nothing changed for a wrong magic number |
| Tsdb.TSDB.LoadFromDisk | src/TSDB.hpp:298-315 | `load_from_disk`: the decoded image after eviction, or an empty store after a failed read |
| TsdbCodec.EntryRoundTrip | src/TSDB.hpp:374-390 | A written entry is read back, leaving the rest of the stream untouched; a level other than the four known ones comes back as INFO |
| TsdbCodec.EntryLayout | src/TSDB.hpp:336-345 | The bytes of an entry: the timestamp's 64-bit pattern with the low byte first, the level's number 0 to 3, the length of the message in four bytes, the message |
| TsdbCodec.AppLayout | src/TSDB.hpp:327-346 | The bytes of an application: the length of its name, the name, the number of entries, the entries |
| TsdbCodec.ImageLayout | src/TSDB.hpp:320-326 | The bytes of an image: the magic number with the low byte first, the number of applications, the applications |
| TsdbCodec.OtherFilesLoadNothing | src/TSDB.hpp:298-315 | A file that is shorter than the magic number or starts with other bytes is loaded as an empty store |
| TsdbCodec.LoadedIsRecent | src/TSDB.hpp:298-306 | A file that a store wrote is loaded as its entries of the last 86400 s, when all levels are known ones |
| TsdbCodec.RoundTrip | src/TSDB.hpp:317-393 | Reading what was written, in any traversal order, gives every app its entries in order with each level normalised, and as last-seen time the newest of 0 and what was read |
| TsdbCodec.RoundTripExactIffKnown | src/TSDB.hpp:395-409 | The round trip is the identity on the data if and only if every stored level is one of the four known ones |
| TsdbCodec.SecondRoundTrip | src/TSDB.hpp:317-409 | A second round trip, in any other order, changes nothing |
| TsdbCodec.RestartInvisible | src/TSDB.hpp:298-306 | Writing out and loading at a clock no later than the query's changes no query over at most 24 hours, when all levels are known ones |
| TsdbCodec.WrittenIsLoadedSorted | src/TSDB.hpp:298-315 | An image that a sorted store wrote is loaded with every vector sorted |
| TsdbCodec.RunsAndRestartInvisible | src/TSDB.hpp:298-393 | Any run, a restart and any run after it answer queries over at most 24 hours as one store that never restarted and never evicts, when all levels are known ones |
| TsdbCodec.LastSeenAfterRestart | src/TSDB.hpp:389 | After a restart and any run the last-seen time is the newest of 0, everything loaded for the app and everything inserted since |
| TsdbCodec.NewestOfIsMaximum | src/TSDB.hpp:389 | The newest of what was loaded is a maximum: reached and not exceeded |
| PoolMachine.RunInv | src/ThreadPool.hpp:88-140 | Over every interleaving with spurious wakeups: tasks are accounted for and wakeups are kept |
| PoolMachine.NoLostWakeup | src/ThreadPool.hpp:88-95 | In every reachable state a non-empty queue meets an awake worker or a pending notify |
| PoolMachine.AcceptedTasksRun | src/ThreadPool.hpp:122-140 | Tasks are started once each, in queue order; no worker exits while a task remains; when all have exited exactly the accepted tasks have run to their end |
| PoolMachine.StepsUseUp | src/ThreadPool.hpp:122-140 | After stop every step that changes anything uses up a bounded measure |
| PoolMachine.NotStuck | src/ThreadPool.hpp:126-133 | After stop, while some worker has not exited, some step has an effect |
| PoolMachine.ShutdownCompletes | src/ThreadPool.hpp:98-110 | From any stopped reachable state a bounded schedule lets all workers exit with every accepted task run, so the joins return |
| PoolMachine.ShutdownIsBounded | src/ThreadPool.hpp:98-110 | No schedule keeps a stopped pool busy for more effective steps than that |
| Threads.ThreadPool.constructor | src/ThreadPool.hpp:33-45 | Zero asks for all hardware threads but two; there is always at least one worker; the initial state of the machine |
| Threads.ThreadPool.Enqueue | src/ThreadPool.hpp:88-95 | `enqueue`'s critical section: the task is appended, or dropped after stop |
| Threads.ThreadPool.Submit | src/ThreadPool.hpp:72-80 | `submit`'s critical section: throws exactly after stop, otherwise appends the task |
| Threads.ThreadPool.Shutdown | src/ThreadPool.hpp:98-104 | `shutdown`'s critical section: sets stop; only the first call goes on to notify |
| Threads.ThreadPool.TakeTask | src/ThreadPool.hpp:124-137 | `worker_loop`'s critical section: waits, returns exactly after stop with an empty queue, or takes the front task |
| Threads.ThreadPool.WorkerLoop | src/ThreadPool.hpp:122-140 | `worker_loop` under any schedule of the other threads: every turn is the others' steps and the worker's own next one, and nothing else; it returns only after stop with an empty queue, having run what it took; alone after stop it returns within two turns for each queued task and one more |
| PipelineMachine.RunInv | src/LogPipeline.hpp:61-91 | In every interleaving of producers, consumer, workers, drain and main: each popped entry is counted and handed on once, and each counter plus what is still owed to it is the sum of the started and drained entries' shares |
| PipelineMachine.ChargeSettles | src/LogPipeline.hpp:142-149 | One atomic increment of processing an entry settles exactly the counter of its stage and no other |
| PipelineMachine.Conservation | src/LogPipeline.hpp:61-91 | At quiescence `total_lines` is the number of popped entries; `total_matched` is the number some rule matches, the sum of the severity counters and the sum of the trigger counts; each rule's count is the number of entries it is the first to match, and each severity's the number whose first match has it |
| PipelineMachine.FirstMatchIsFirst | src/PatternEngine.hpp:109-121 | The rule an entry is charged to occurs in its line and no earlier rule does; none is charged exactly if none occurs |
| PipelineMachine.PushedIsPoppedOrInRing | src/LogPipeline.hpp:63-68 | At any moment the pushed entries are the popped ones followed by those in the ring, in order |
| PipelineMachine.MissingIsInRing | src/LogPipeline.hpp:164-176 | At quiescence every counter misses exactly the shares of the entries still in the ring, of all that were ever pushed |
| PipelineMachine.LeftInRingStaysThere | src/main.cpp:360-367 | Once the consumer has returned, what is in the ring stays, every later push joins it, and none of it is ever popped or counted |
| PipelineMachine.AllCountedIff | src/main.cpp:353-367 | At quiescence every pushed entry has been counted if and only if the ring was empty when the consumer returned and nothing was pushed after that; then every counter accounts for every push |
| PipelineMachine.DrainReturns | src/LogPipeline.hpp:164-167 | The pop at which `drain` returns found the ring empty, or its front unpublished, and leaves it as it was |
| PipelineMachine.LatePushIsLost | src/main.cpp:360-367 | For any entry a complete shutdown that loses it: pushed after the last pop of `drain` |
| PipelineMachine.UnpublishedPushIsLost | src/LogPipeline.hpp:164-167 | For any entry a complete shutdown that loses it: pushed before, but not yet published when `drain` looks |
| PipelineMachine.CountersNeverAhead | src/LogPipeline.hpp:164-176 | At any moment no counter exceeds what the entries popped so far account for |
| PipelineMachine.SeveritiesPartition | src/AlertManager.hpp:140-147 | The severity shares of a sequence of entries add up to the matched ones |
| PipelineMachine.TriggersPartition | src/PatternEngine.hpp:109-121 | The trigger shares over all rules add up to the matched ones: each matched entry is charged to one rule, the first |
| Pipeline.LogPipeline.Match | src/PatternEngine.hpp:109-121 | `match` returns the first rule whose pattern occurs in the line, or none if none does |
| Pipeline.LogPipeline.Alert | src/AlertManager.hpp:57-60 | The match and the alert of an entry: every counter grows by exactly the entry's share |
| Pipeline.LogPipeline.Dispatch | src/LogPipeline.hpp:61-87 | One turn of the loop: the entry is counted, recorded for its source and queued for the pool |
| Pipeline.LogPipeline.RecordLine | src/LogPipeline.hpp:34-44 | The line is put behind its source's, the oldest goes beyond twenty, no other source changes; so for every source the last twenty of its lines are kept, in order |
| Pipeline.LogPipeline.ProcessFront | src/LogPipeline.hpp:142-149 | A worker charges the front task to every counter by its share |
| Pipeline.LogPipeline.Drain | src/LogPipeline.hpp:164-176 | `drain` counts and charges every entry left in the ring here and hands none to the pool |
| Base64Url.EncodeBytes | src/AuthManager.hpp:199-215 | The encoder loop computes the encoding, group by group, with the partial groups at the end |
| Base64Url.AlphabetIs | src/AuthManager.hpp:201-202 | The encoder's 64 characters are those of the url-safe alphabet, in order |
| Base64Url.DecoderAccepts | src/AuthManager.hpp:222-243 | The decoder takes + and / for - and _ and skips any character of neither alphabet, wherever it stands |
| Base64Url.DecodeBytes | src/AuthManager.hpp:222-245 | The decoder loop, its 32-bit accumulator overflowing and other characters skipped, computes the decoding |
| Base64Url.HighBitsIrrelevant | src/AuthManager.hpp:233-243 | Two accumulators that agree on their pending bits decode every input alike: what overflowed never shows |
| Base64Url.DecodeQuad | src/AuthManager.hpp:233-243 | Four characters decode to the three bytes of section 4 of RFC 4648 and leave the decoder as at the start |
| Base64Url.RoundTrip | src/AuthManager.hpp:199-245 | Decoding undoes encoding for every byte sequence, of any length |
| Base64Url.EncodeIsCanonical | src/AuthManager.hpp:199-215 | The encoder emits only the url-safe alphabet, the shortest sufficient length and zero trailing bits |
| Base64Url.EncodeDecodeIffCanonical | src/AuthManager.hpp:222-245 | Encoding undoes decoding if and only if the text is canonical: url-safe alphabet, length not 1 modulo 4, zero trailing bits (section 3.5 of RFC 4648) |
| Base64Url.EncodePreservesNumber | src/AuthManager.hpp:205-213 | The text read as digits to the base 64 is the number the bytes are to the base 256, shifted by the filling bits |
| Text.SplitAtTwo | src/AuthManager.hpp:109-117 | Cutting at the first two dots recovers the three parts of a compact serialization (section 7.1 of RFC 7515) |
| Auth.CheckedIff | src/AuthManager.hpp:109-143 | A token passes up to its claims exactly if it is the correctly signed form of a dot-free header and payload and the payload parses to them |
| Auth.CheckedMeans | src/AuthManager.hpp:109-143 | A token gives claims exactly if it is two dot-free parts, joined by a dot, followed by a dot and the encoded digest of that, whose second part decodes and parses to them |
| Auth.WithoutIdNeverRevoked | src/AuthManager.hpp:145-155 | A token without an id is accepted exactly until it expires, whatever was revoked |
| Auth.CreatedIsChecked | src/AuthManager.hpp:82-106 | A created token passes and gives back its claims |
| Auth.RememberedIff | src/AuthManager.hpp:159-179 | After any run of revocations and checks, an id is in the map with an expiry exactly if its last revocation passed it and it is not positive or no later pruning clock was past it |
| Auth.AcceptedIff | src/AuthManager.hpp:108-155 | A created token is accepted after any run exactly when the first clock reading is before its expiry and no last revocation has survived the prunings so far and this one |
| Auth.TokenLifecycle | src/AuthManager.hpp:108-179 | If each revocation of its id passed 0 or at least its expiry and no reading is past the second one of the verification, a created token is accepted exactly when it has not expired and was never revoked, unless its expiry falls between the two readings; what other threads do between the readings is included |
| Auth.LifecycleIff | src/AuthManager.hpp:145-152 | That promise holds of every such run if and only if the expiry does not fall strictly between the expiry check's reading and the pruning's |
| Auth.RevokedStaysRefused | src/AuthManager.hpp:159-179 | After a revocation with 0 or at least the token's expiry, whatever came before and whatever disciplined run follows, the token is refused |
| Auth.RevokedForEverIff | src/AuthManager.hpp:159-179 | A revocation is for ever if and only if it passes 0 or at least the token's expiry |
| Auth.EarlyExpiryIsForgotten | src/AuthManager.hpp:159-178 | A revocation that passed a positive expiry below the token's is forgotten at every clock between the two, even with one reading for both checks |
| Auth.AuthManager.CreateToken | src/AuthManager.hpp:82-106 | `create_token` returns the encoded HS256 header, the encoded claims, which expire 86400 s after the clock reading, and the encoded digest of the two, joined by dots |
| Auth.AuthManager.VerifyToken | src/AuthManager.hpp:108-155 | `verify_token` accepts as specified, hands out the claims once the payload is read, and prunes exactly when it consults the map |
| Auth.AuthManager.CheckSignature | src/AuthManager.hpp:109-143 | The clock-free part of `verify_token`: split, signature, payload |
| Auth.AuthManager.RevokeToken | src/AuthManager.hpp:159-163 | `revoke_token` records the id with its expiry; the empty id is ignored |
| Auth.AuthManager.IsRevoked | src/AuthManager.hpp:165-179 | `is_revoked` prunes and then looks the id up; the empty id never is revoked |
| Auth.AuthManager.Prune | src/AuthManager.hpp:172-177 | The erasing loop, in any order, keeps exactly the entries that are not positive or not yet past |
| AlertRules.NeverFiringBetween | src/AlertRulesEngine.hpp:253-292 | After any run of evaluations and reloads every rule is INACTIVE or COOLDOWN, never FIRING |
| AlertRules.RunTied | src/AlertRulesEngine.hpp:201-292 | Over every run with a clock that never goes back: a rule's fields are the number, the time and the cooldown end of its id's firings, whatever was reloaded |
| AlertRules.RunFromFiles | src/AlertRulesEngine.hpp:298-350 | After any run the rules of an id are those of the last loaded file, unique exactly if the file has the id at most once, and its firings come from files that had it |
| AlertRules.Reloaded | src/AlertRulesEngine.hpp:336-345 | After a reload a rule has the state of a previous rule of its id, or is new because there was none |
| AlertRules.FiresIff | src/AlertRulesEngine.hpp:220-251 | An evaluation fires exactly when the count exceeds the threshold and the cooldown of every earlier firing of the id is over, if no loaded file has the id twice or again after leaving it out |
| AlertRules.FireCountCounts | src/AlertRulesEngine.hpp:253-258 | `fire_count` and `last_fired_ns` are the number and the time of the id's firings across all such reloads |
| AlertRules.FiringsSpaced | src/AlertRulesEngine.hpp:220-258 | Any two firings of an id are apart by at least the cooldown in force at the earlier one, times 1000000000 ns, in every run that loads safe files |
| AlertRules.SpacedIffSafe | src/AlertRulesEngine.hpp:298-345 | Every run that loads given files is spaced for an id if and only if each file that gives the id a positive cooldown has it once, and none has it again after a later one left it out |
| AlertRules.DoubledIdUnspaced | src/AlertRulesEngine.hpp:321-345 | For any list of files with one that has the id twice, once with a positive cooldown, a run that is not spaced |
| AlertRules.DroppedIdUnspaced | src/AlertRulesEngine.hpp:336-345 | For any list of files that has the id with a positive cooldown, then leaves it out, then has it again, a run that is not spaced |
| AlertRules.MergeOf | src/AlertRulesEngine.hpp:311-345 | What a merged file holds for an id: a rule for each use, unique exactly if it is used at most once, each listed in the file and restored from the last previous rule of the id |
| AlertRules.MergeKeepsOrder | src/AlertRulesEngine.hpp:321-345 | A reload makes one rule for each entry with an id and an app, in the order of the file, and none for any other |
| AlertEngine.AlertRulesEngine.constructor | src/AlertRulesEngine.hpp:126-137 | A new engine has loaded its file and fired nothing |
| AlertEngine.AlertRulesEngine.EvaluateRule | src/AlertRulesEngine.hpp:220-251 | `evaluate_rule` in place: a rule whose cooldown is running is left alone; any other asks its store and, exactly if the count exceeds its threshold, fires, counts the firing and cools down for its cooldown in ns from the clock reading, and otherwise is INACTIVE with nothing else changed |
| AlertEngine.AlertRulesEngine.Query | src/AlertRulesEngine.hpp:232-242 | The choice of the store and the query: the number of entries in the rule's window in the single store; with tenants, in the named project's store, or the default project's if none is named, created or loaded if missing; none without any; no store's contents change |
| AlertEngine.AlertRulesEngine.AnswerIs | src/AlertRulesEngine.hpp:232-242 | Whose entries a rule counts, case by case: the single store, the named project's store, the default project's, or none |
| AlertEngine.AlertRulesEngine.EvaluateAt | src/AlertRulesEngine.hpp:214-216 | One rule's turn: the engine's run grows by the evaluation with the count its store gave |
| AlertQueries.FiresOnEntries | src/AlertRulesEngine.hpp:220-251 | After any run of the engine and of its store, a rule with a window of at most 24 hours fires exactly when more entries than its threshold, loaded or inserted for its app and level, evicted or not, lie in its window and no earlier cooldown of its id is running |
| AlertQueries.FiresOnChosenStore | src/AlertRulesEngine.hpp:220-251 | The same of the engine with the store it chooses: a rule of a project fires exactly on the entries of that project, one without on those of the default project or of the single store |
| AlertEngine.AlertRulesEngine.FireAlert | src/AlertRulesEngine.hpp:253-292 | `fire_alert` in place: the rule cools down for its cooldown in ns, the alert has the rule's id, app, level, threshold, window and address, the count and the time, and a history of the last ten ends with it |
| AlertEngine.AlertRulesEngine.Remember | src/AlertRulesEngine.hpp:276-283 | Trimming keeps the last ten alerts |
| AlertEngine.AlertRulesEngine.CheckTick | src/AlertRulesEngine.hpp:201-218 | One turn of `check_loop`: every tenth second a pending reload, then every rule once in order, each with the count its query gave |
| AlertEngine.AlertRulesEngine.LoadRules | src/AlertRulesEngine.hpp:298-363 | `load_rules`: an unreadable file changes nothing, any other replaces the rule objects by the merge |
| AlertEngine.AlertRulesEngine.PreviousStates | src/AlertRulesEngine.hpp:311-318 | The map of previous states holds the last rule object of every id |
| ProjectSpec.CreateAgrees | src/ProjectStore.hpp:68-72 | Creating with a fresh id and key keeps vector and indices in agreement and appends one live project |
| ProjectSpec.DeleteAgrees | src/ProjectStore.hpp:122-131 | Deleting keeps the agreement: tombstone, three index updates, and exactly that project gone |
| ProjectSpec.RotateAgrees | src/ProjectStore.hpp:153-158 | Rotating keeps the agreement: only that project's key changes |
| ProjectSpec.PositionsPick | src/ProjectStore.hpp:95-103 | Following an owner's positions lists the owner's live projects in creation order |
| ProjectSpec.AgreedIsWellFormed | src/ProjectStore.hpp:68-72 | In agreement, live ids and live keys are distinct and not empty |
| ProjectSpec.StepOnMap | src/ProjectStore.hpp:51-162 | Create, delete and rotate, with their refusals, are the updates of a plain map from id to project |
| ProjectSpec.RunRefinesMap | src/ProjectStore.hpp:51-162 | Any run with fresh ids and keys, from any loaded store, is the run of a plain map, and ids and keys stay distinct |
| ProjectSpec.RetiredKeyStaysRetired | src/ProjectStore.hpp:153-158 | A key no longer in use resolves to nothing for the rest of any run that does not issue it again |
| ProjectSpec.OldKeyRetired | src/ProjectStore.hpp:122-158 | Deleting a project or rotating its key takes the key it had out of use |
| ProjectSpec.OwnedInOrder | src/ProjectStore.hpp:95-103 | An owner's projects are exactly the live ones of that owner, in creation order |
| ProjectSpec.LiveInOrder | src/ProjectStore.hpp:164-169 | The live projects are exactly the positions of the vector with an id, in order |
| ProjectSpec.KeptInOrder | src/ProjectStore.hpp:188-195 | What is kept of a file is exactly its entries with an id and a key, in order |
| ProjectSpec.OwnsIff | src/ProjectStore.hpp:109-120 | A caller may change a project exactly if a live project has that id and that owner |
| ProjectSpec.StepOnOrder | src/ProjectStore.hpp:109-162 | A deletion or rotation by anyone else changes nothing; the owner's deletion leaves the other projects in their order, and the owner's rotation replaces the key of that project and no other field |
| ProjectSpec.SavedIsKept | src/ProjectStore.hpp:172-220 | Saving the live projects and loading them again changes nothing, order included |
| Projects.ProjectStore.constructor | src/ProjectStore.hpp:39-48 | A store opened on a file shows its usable entries; with distinct ids and keys its indices agree |
| Projects.ProjectStore.Load | src/ProjectStore.hpp:182-200 | The loop of `load` skips entries without id or key and fills the vector and the indices |
| Projects.ProjectStore.Save | src/ProjectStore.hpp:203-220 | `save_locked` writes exactly the live projects, in order |
| Projects.ProjectStore.CreateProject | src/ProjectStore.hpp:51-76 | `create_project`: the two refusals with their messages, or the project, with a key that starts with `lm_proj_`, appended and returned; a restart would find it |
| Projects.ProjectStore.FindById | src/ProjectStore.hpp:78-84 | `find_by_id` is a lookup in the plain map |
| Projects.ProjectStore.FindByApiKey | src/ProjectStore.hpp:87-93 | A key resolves if and only if it is the current key of a live project, and to that project |
| Projects.ProjectStore.ListByOwner | src/ProjectStore.hpp:95-103 | `list_by_owner` returns the owner's live projects in creation order |
| Projects.ProjectStore.DeleteProject | src/ProjectStore.hpp:109-135 | `delete_project`: unknown, not yours, or gone; a restart would not find it |
| Projects.ProjectStore.RotateApiKey | src/ProjectStore.hpp:141-162 | `rotate_api_key`: the new key, which starts with `lm_proj_`, or nothing if unknown or not yours |
| Projects.ProjectStore.Size | src/ProjectStore.hpp:164-169 | `size` is the number of live projects |
| Projects.Restart | src/ProjectStore.hpp:172-220 | At any moment, a store opened on the saved file shows the same projects |
| TenantMachine.RunInv | src/TenantManager.hpp:130-150 | Over every interleaving of callers, key changes and evictions: the map and the stores name each other, a caller's store is its project's, and events match requests |
| TenantMachine.OneStorePerProject | src/TenantManager.hpp:139-149 | No two stores ever belong to one project |
| TenantMachine.SameStoreForEveryCaller | src/TenantManager.hpp:130-150 | Any two callers for a project hold the same store, at whatever times they hold one |
| TenantMachine.InsertedOnce | src/TenantManager.hpp:55-78 | A finished request has exactly one insertion, in its project's store; an unfinished one has none; no other store has any |
| TenantMachine.StoreHoldsItsOwn | src/TenantManager.hpp:70-78 | A store's contents are its own project's entries and evictions in order, and nothing else |
| TenantMachine.QueriesSeeOwnEntriesOnly | src/TenantManager.hpp:70-78 | After any run a query of a project's store over at most 24 hours answers as a store that started from what was loaded, was given exactly that project's insertions and never evicts, if the app's vector was loaded sorted |
| TenantMachine.RoutedToOwner | src/TenantManager.hpp:55-65 | With ids and keys fresh when issued: an entry accepted under a key goes to the one project owning the key at lookup, whatever happens to the key afterwards, and once |
| TenantMachine.UnknownKeyIsRefused | src/TenantManager.hpp:61 | A key of no live project is refused and nothing changes |
| TenantMachine.NeverStuck | src/TenantManager.hpp:130-150 | A caller is advanced by its own next step in every reachable state: nobody waits for another caller |
| Tenants.TenantManager.constructor | src/TenantManager.hpp:27-45 | The default project's store is loaded if the project exists; no other store is |
| Tenants.TenantManager.Create | src/TenantManager.hpp:139-149 | The exclusive phase: look again; only if still missing a new store, with what its file decodes to after eviction, or empty without a file |
| Tenants.TenantManager.GetOrCreate | src/TenantManager.hpp:130-150 | Whatever others create between the phases: the store returned is the map's, none is replaced or changed, new ones are just loaded from their files |
| Tenants.TenantManager.IngestToProject | src/TenantManager.hpp:70-78 | The entry is given once to the project's store, in order if the vector is sorted, and every other store is as before; the empty id is ignored |
| Tenants.TenantManager.RouteIngest | src/TenantManager.hpp:55-65 | Refused exactly if no live project has the key; otherwise given once to the store of the live project that has it, all others unchanged |
| Tenants.TenantManager.GetTsdb | src/TenantManager.hpp:86-89 | The store of the map, created if missing; none for the empty id |
| Tenants.FileIsLoaded | src/TenantManager.hpp:144-148 | A store created from a file that a store wrote holds its entries of the last 86400 s in order, and answers every query over at most that as the store that wrote it did, when all levels are known ones |
| Tenants.NoFileIsLoaded | src/TenantManager.hpp:144-148 | A store created without a file is empty |
| Tenants.WrittenFilesLoadSorted | src/TenantManager.hpp:144-148 | A store created from an image that a sorted store wrote starts sorted |
| RateLimit.TokensInRange | src/HttpServer.hpp:67-85 | Tokens stay in 0 to 100 over every run of a clock that never goes back |
| RateLimit.TokensAreLeastAllowance | src/HttpServer.hpp:73-84 | The tokens at a call are the least, over all earlier calls, of 100 plus the refill since then less the calls accepted since then |
| RateLimit.AcceptedIff | src/HttpServer.hpp:73-84 | A call is accepted if and only if no window ending with it would then hold more than 100 plus the window's refill |
| RateLimit.WindowBound | src/HttpServer.hpp:73-84 | The calls accepted in any window number at most 100 plus the window's refill |
| RateLimit.WindowBoundSeconds | src/HttpServer.hpp:70-71 | In a window of T seconds at most 100 + T * 100 / 60 calls are accepted |
| RateLimit.BoundIsMet | src/HttpServer.hpp:70-71 | For every n a run accepts 100 + n calls within n * 0.6 s, the bound: 200 within a minute |
| RateLimit.WindowsHoldIff | src/HttpServer.hpp:67-85 | In every run every window of w ns holds at most 100 + n accepted calls if and only if w < (n + 1) * 600000000 |
| RateLimit.RejectionIsInvisible | src/HttpServer.hpp:76-83 | A rejected call leaves a bucket no later reading can tell from the one before it: saturating refill composes |
| RateLimit.RejectedCallsLeaveNoTrace | src/HttpServer.hpp:73-84 | Leaving a rejected call out of any run changes the outcome of no other call |
| RateLimit.CallTouchesItsKey | src/HttpServer.hpp:235 | A call moves its own key's bucket and no other's |
| RateLimiting.TokenBucket.Consume | src/HttpServer.hpp:73-84 | `consume` in place: refill unless never asked, stamp, then take a token if there is a whole one |
| RateLimiting.RateLimiter.Allow | src/HttpServer.hpp:472-479 | The answer for a key is the one its own calls determine, whatever other keys did |
| Text.LowerMeans | src/HttpParser.hpp:145-153 | Lower-casing keeps the length and every character up to the case of an ASCII letter, leaves no capital letter and changes nothing else |
| Text.LowerIff | src/HttpParser.hpp:28-34 | Two names are lower-cased alike exactly if they agree position by position up to the case of an ASCII letter |
| Http.ParseRequest | src/HttpParser.hpp:96-169 | `parse` computes the specified request, with its four refusals and the bare line-feed fallback |
| Http.ReadHeaders | src/HttpParser.hpp:129-159 | The header loop computes the specified map from the shrinking remainder |
| Http.BlankAfterLines | src/HttpParser.hpp:99-105 | The first blank line of a request is found right after its header lines |
| Http.ParseHeadersReadsLines | src/HttpParser.hpp:129-159 | The header loop reads CRLF-joined lines one by one |
| Http.AddFieldLine | src/HttpParser.hpp:145-153 | A rendered field sets its lower-cased name to its value |
| Http.HeaderLineMeans | src/HttpParser.hpp:142-155 | A line is cut at its first colon, the spaces after it are dropped, and a line without one sets nothing |
| Http.ParseRendered | src/HttpParser.hpp:96-169 | Parsing a CRLF-rendered clean request with at least one header returns its method, path, version, body and lower-cased header map, for any body bytes |
| Http.ParseRenderedIffHeader | src/HttpParser.hpp:110-111 | A clean request is returned if and only if it has a header; without one it is refused |
| Http.ParseWithFeedsIff | src/HttpParser.hpp:99-123 | A request with bare line feeds and a header is parsed like one with CRLF if and only if its body has no blank CRLF line |
| Http.LookUpAfterParse | src/HttpParser.hpp:28-34 | With names that differ in more than the case of ASCII letters, a lookup under any spelling that differs from a field's name only in case finds its value, and no other lookup finds anything |
| Framing.Collect | src/NetworkIngester.hpp:230-258 | The loop takes chunks up to the first after which its test does not read on, the end, or 100, and returns them concatenated |
| Framing.Examine | src/NetworkIngester.hpp:238-257 | The test stops on a framed request exactly when what its headers ask for is there, and throws exactly when the name of the length header is the last thing received |
| Framing.CheckOnPrefix | src/NetworkIngester.hpp:238-257 | On any beginning of a framed request the loop stops as soon as what the headers ask for is there, and not before |
| Framing.TakesEverything | src/NetworkIngester.hpp:233-258 | For every split into at most 100 non-empty chunks the loop collects the whole of a whole request, and does not throw |
| Framing.ChunkIndependentIff | src/NetworkIngester.hpp:233-258 | Any request at all is collected whole, without an exception, for every split if and only if it has no blank line, or nothing after it, or its first length header is in the headers and what they give is not exceeded |
| Framing.WholeReadsOn | src/NetworkIngester.hpp:238-257 | After every proper beginning of a whole request the loop reads on |
| Framing.StopsEarly | src/NetworkIngester.hpp:238-257 | Every other request has a beginning after which the loop stops or throws: no length in the headers, a length named first in the body, or less asked for than sent |
| Framing.FramedIsWhole | src/NetworkIngester.hpp:247-253 | A request whose length stands on its own line is whole exactly if its body is no longer than that |
| Framing.StoullStays | src/NetworkIngester.hpp:248-251 | A number read before a line end stays the same however much more has arrived |
| Framing.NoLengthNeedsNoBody | src/NetworkIngester.hpp:254-256 | Without a length header that is so if and only if there is no body |
| Framing.StoullMeans | src/NetworkIngester.hpp:249-251 | White space, an optional sign, a decimal number and anything that is no digit is read as the number, negated modulo 2^64 behind a minus sign, and as 0 if it does not fit in 64 bits |
| Framing.NoNumberIsZero | src/NetworkIngester.hpp:249-251 | Text without a digit behind the white space and the sign is read as 0 |
| Framing.StoullOfDecimal | src/NetworkIngester.hpp:249-251 | A length written in decimal is read back |
| Framing.ReceivedAsSent | src/NetworkIngester.hpp:228-260 | A rendered request whose first length header, in either spelling the loop knows, is the length of its body, in whatever chunks it arrives, up to 100, is collected and parsed back to its parts |

## Left out

- Weak memory: the atomic accesses interleave sequentially consistently. `size_approx` and
  `empty_approx` are racy by design and not modelled.
- The ring buffer's 64-bit machine covers capacities from 2 to 2^62, not 2^63, and runs in which no
  producer's remembered position lags head by 2^62 or more.
- The producers' own retry loops (`src/FileWatcher.hpp`, `src/NetworkIngester.hpp`): a value is
  followed from an accepted `try_push` on.
- LogPipeline: the class is the sequential code; its interleavings are in `PipelineMachine`. Latency
  counters, the entry callback (which `drain` does not call) and printing are not modelled.
- PipelineMachine: the ring is the bounded queue's abstraction, a sequence whose front may be not
  yet published; the refinement of the real ring to it is `RingProperties.RefinesBoundedFifo`.
- Ring.RingBuffer.TryPush: proved for as many iterations of its loop as the schedule has rounds; how
  many it can need is `RingProperties.RetriesPaidByOthers`.
- Threads.ThreadPool.WorkerLoop: as many turns as the schedule has rounds; that it ends is
  `PoolMachine.ShutdownCompletes` and `PoolMachine.ShutdownIsBounded`. Tasks are values; that each ends
  is assumed. Futures are not modelled.
- Tsdb.TSDB.ReadBinary: on truncated images a short read leaves zeros, where the source may leave an
  uninitialised timestamp; the theorems are about images the store wrote.
- Tsdb.TSDB.Insert: into a vector that an image brought in out of order, of which `std::lower_bound`
  promises nothing, the entry is only promised to be somewhere.
- TenantMachine.InsertedOnce: the machine inserts by the sorted insertion whatever was loaded; which
  position an out-of-order vector gets is left out there too.
- Arithmetic that cannot be reached in practice is unbounded: `last_n_seconds * 1e9` beyond 64 bits,
  counts beyond `int`, the expiry sum.
- The signed subtraction in the ring buffer and the shift in the base64 decoder are modelled as
  two's-complement arithmetic that wraps; `|` of disjoint bits is addition.
- The token bucket is over the reals: floating-point rounding is not modelled.
- AlertEngine.AlertRulesEngine.FireAlert: the text of the message, delivery and printing are not
  modelled.
- AlertQueries.FiresOnEntries: the value of the store at the query is a run of insertions and evictions;
  that the tenants' stores are such runs under interleaving is `TenantMachine.StoreHoldsItsOwn`.
- Projects.ProjectStore.constructor: a file with repeated ids or keys is loaded as the source does,
  but nothing is promised about its indices. A file that is no array counts as no file.
- Projects.ProjectStore.CreateProject: the random id and key are taken as given and must not be in
  use by a live project; so is the key of `Projects.ProjectStore.RotateApiKey`.
- Tenants.TenantManager.RouteIngest: other threads act between the two lock phases; that they act
  everywhere else too is `TenantMachine`. `start_all`, `stop_all` and the background threads of a store
  are not modelled.
- Framing.Collect: sockets are a sequence of chunks; dispatch to handlers and responses are not
  modelled.
- Password hashing, HMAC, random bytes and regular expressions are not interpreted.
- Dashboards, web pages, file watching, e-mail and webhook delivery, the code indexer, the statistics
  aggregator and the user store (the project store's pattern without deletion) would add only easy
  members or none.
