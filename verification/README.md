# Verified model of the feldera adapters and the buffer cache

This project models six pieces of the feldera runtime that carry state, loops,
concurrency or arithmetic, and proves what they promise. `dafny verify
dfyconfig.toml` checks all of it; it needs nothing but Dafny 4.11.

| files | models |
|---|---|
| `JobQueue`, `ThreadPool` | the ordered job queue and the thread-pool collector of `crates/adapters/src/util.rs`, as transition systems |
| `TokenBucket`, `TokenBucketThreads`, `ThreadedLimits` | the lock-free rate limiter of the same file: one thread as a class, any number of threads as a machine whose steps are the single atomic operations |
| `CursorViews`, `SerCursors`, `Partitions`, `DeletionsFirst`, `ParallelParts`, `OperationType` | the cursor wrappers of `crates/adapterlib/src/catalog.rs`, the streams they make for the output threads, and `indexed_operation_type` |
| `QueueLedger`, `InputQueue`, `QueueLock` | the input queue of `crates/adapterlib/src/transport.rs` |
| `StreamSplitter`, `FramingLaws`, `Splitters`, `ParseLoops`, `ByteFraming`, `CsvFraming`, `JsonFraming`, `JsonText` | framing in `crates/adapterlib/src/format.rs`, with the CSV, JSON, line and sponge splitters |
| `NestedBuffers`, `VectorQueue`, `QueueDrain` | vectors of buffers in the same file, and the input queue over them |
| `LruSpec`, `LruCache` | the LRU cache of `crates/buffer-cache/src/lru.rs` |
| `Options`, `Arithmetic`, `Sequences` | shared definitions and small facts |

Conventions: integers are unbounded, and 32-bit arithmetic is written out where
it matters: the token bucket's token count, its truncated refill and its
saturating addition. The suppression counter, which has 64 bits, is a `nat`.
Clocks, the network, files and the order in which threads run are
parameters: a theorem about "every run" quantifies over the schedule. Objects
that the code updates in place are classes, and their methods are proved
against functions on values about which the lemmas speak. Some proofs hide
function bodies they do not need, to stay quick.

The wrappers of a cursor are trait objects in the code. Here they are one class
`SerCursor` whose constant `layer` says which wrapper it is and whose constant
`inner` is the cursor underneath, so that wrappers nest in any order; each
operation dispatches on the layer. Every method is specified by a `View`, the
place of the cursor among groups of values.

In a call of the input queue's flusher, the parameter `pushes` says what the
producers push before each time the flusher takes the lock, so every finite
interleaving is covered. That a push and the report of its size are one step
there is justified in `QueueLock`, where they are two.

## Where code and documentation disagree

The model follows the code.

- The token bucket's constructor can produce a refill interval of 0, although a
  note at `crates/adapters/src/util.rs:555` says the interval is positive:
  `RefillIntervalPositive` says exactly when. The rest of the token-bucket model
  requires a positive interval.
- The comment at `crates/adapters/src/util.rs:639-641` promises at most
  `max_tokens` calls in a window. A bucket refills only when it is empty, and
  then up to a full load at once, so a key that was left alone long enough is
  granted `2 * max - 1` calls at one instant (`BurstAtOneInstant`). For calls made
  one at a time the promise holds exactly for sizes 0 and 1 (`DocumentedLimit`),
  and `LimiterBound` gives the bound that always holds. Under threads it holds
  exactly for size 0 (`ThreadedDocumentedLimit`): a thread that refilled the bucket
  can stop before it takes its token, and `TokenBucketThreads.TwiceAtOneInstant` gets
  `2 * max` grants at one instant. `ThreadedStretchBound` is the bound for threads.
- `take_some` of a vector of buffers does not meet the contract documented at
  `crates/adapterlib/src/format.rs:114-133`. `RestExactly` says exactly when the
  records are kept and `FlatLoss` which are lost otherwise; `BytesExactly` says
  exactly when the number of bytes is kept and `FlatBytesLoss` how many are lost.
  Neither half implies the other (`DocumentedContractFails`,
  `BytesLostWithoutRecords`). Preprocessed parsers put such vectors into the
  input queue, so a call of `queue` can lose records: `ConservesExactly` and
  `MissingIsRestOfLeaf` say when and which. A buffer with bytes but no records
  is put back by every call and blocks the queue for good (`StuckForever`);
  `DrainsExactly` and `VectorsDrainExactly` say when repeated calls drain it.
- `reset` is documented at `crates/adapterlib/src/format.rs:633` to be like a new
  splitter. The CSV splitter's `clear` does not bring the header back, so it is
  only under the condition of `ResetFramesAsNew`. The JSON splitter's `clear`
  gives its initial state, and the line and sponge splitters have no state.
- A splitter's boundary need not be positive: the JSON splitter ends a bare word
  in front of the next byte, which may be the first byte of the next piece of
  data. The laws in `FramingLaws` allow it.
- `from_bounds` is documented to give no builder for an empty part. It gives none
  exactly when the batch is empty. A part of a batch with keys is empty exactly if
  the bound it ends at is the key it begins with (`EmptyPartExactly`): the bound
  before it, or for part 0 the first key of the batch, as happens when a batch
  with one key is split for two threads (`OneKeyForTwoThreads`). Such a part gets a
  builder whose cursor has no keys. `DocumentedNoneExactly` is the exact condition.
- The streaming and the message-oriented parsing loop do not frame messages alike
  if the splitter keeps state: `CsvFraming.LoopsAgreeExactly` and
  `JsonFraming.LoopsAgreeExactly` say exactly when they do.

## Model

| member | source | states |
|---|---|---|
| `JobQueue.StepInv` | crates/adapters/src/util.rs:286-351 | every step of producer, workers and consumer keeps the invariant that relates both channels, the workers, the one-shot slots and the outputs |
| `JobQueue.ConsumedInPushOrder` | crates/adapters/src/util.rs:288-346 | in every interleaving the k-th output consumed was computed from the input of the k-th push |
| `JobQueue.ConsumedAreResults` | crates/adapters/src/util.rs:293-346 | for every work function, in every run in which the workers compute it, the k-th value consumed is the function of the input of the k-th push, and in the end the values are those of the jobs of the program, in order |
| `JobQueue.FlushIsABarrier` | crates/adapters/src/util.rs:316-351 | when `flush` returns, every job pushed before it is consumed, both channels are empty and all workers idle |
| `JobQueue.BoundedBacklog` | crates/adapters/src/util.rs:278-286 | never more than 2W+3 jobs are pushed and not yet consumed, for W workers |
| `JobQueue.BacklogIsReached` | crates/adapters/src/util.rs:278-286 | for every number of workers there is a run in which 2W+3 jobs are pushed and not yet consumed |
| `JobQueue.WorkersNeverStop` | crates/adapters/src/util.rs:293-306 | the receiver of a running job's result is still there, so no worker leaves its loop |
| `JobQueue.DeadlockFree` | crates/adapters/src/util.rs:270-351 | some step is enabled in every reachable state that has unfinished work |
| `JobQueue.StepWork` | crates/adapters/src/util.rs:288-351 | every step does exactly one unit of the remaining work |
| `JobQueue.EveryRunEnds` | crates/adapters/src/util.rs:270-351 | every run is at most six steps a push and four a flush long, exactly the runs of that length are finished, and those have consumed every output in push order |
| `ThreadPool.SwapRemove` | crates/adapters/src/util.rs:418-436 | removing a name by swapping in the last one removes just that name |
| `ThreadPool.StepInv` | crates/adapters/src/util.rs:388-448 | every step of the submitter, the threads and the collector keeps the invariant |
| `ThreadPool.ResultIsRight` | crates/adapters/src/util.rs:388-448 | in every interleaving the collector never panics, returns Ok exactly if every task succeeds and only after all ran, and an error it returns is that of a task that ran |
| `ThreadPool.NamesAreOutstanding` | crates/adapters/src/util.rs:396-446 | while the collector works, `names` is the multiset of submitted tasks whose result it has not received |
| `ThreadPool.Progress` | crates/adapters/src/util.rs:400-446 | until the call returns some step is possible, so after a failure an error does reach the collector |
| `ThreadPool.AlwaysReturns` | crates/adapters/src/util.rs:388-448 | every run has at most 6n+1 steps for n tasks and can only stop with a return |
| `ThreadPool.ErrorCancelsTheRest` | crates/adapters/src/util.rs:373-378 | once an error is returned, a task that is not running yet never runs, however the run goes on |
| `ThreadPool.ErrorIsFirstSent` | crates/adapters/src/util.rs:402-428 | an error returned is that of the first failure in the order of the sends |
| `ThreadPool.AtMostThreads` | crates/adapters/src/util.rs:369-369 | in every run never more tasks are on threads than there are threads |
| `TokenBucket.RefillIntervalPositive` | crates/adapters/src/util.rs:478-489 | the interval is positive exactly if the bucket has size 0 or the window is at least 1 ms, and it is the window over the size rounded up |
| `TokenBucket.TokenBucket.TryConsumeToken` | crates/adapters/src/util.rs:509-534 | takes a token and reports the suppressions so far, or changes nothing when there is no token |
| `TokenBucket.TokenBucket.TryRefillTokens` | crates/adapters/src/util.rs:544-578 | refines the refill function: whole intervals elapsed become tokens, up to the size |
| `TokenBucket.TokenBucket.CheckNow` | crates/adapters/src/util.rs:590-612 | refines the sequential check about which the bounds below are proved |
| `TokenBucket.StretchBound` | crates/adapters/src/util.rs:544-612 | from any state of a bucket, any calls with times in [s, t] are granted at most 2*max + floor((t-s)/interval) times |
| `TokenBucket.CheckExactly` | crates/adapters/src/util.rs:544-612 | one call is granted exactly if a token is there or the whole intervals since the last refill are worth one; a refill happens only when no token is there, gives those tokens, and forgets the rest of the time |
| `TokenBucket.GrantsExactly` | crates/adapters/src/util.rs:544-612 | n calls at one instant are granted exactly min(n, held + min(intervals mod 2^32, max)) times, from any state; and what the bucket holds afterwards |
| `TokenBucket.GrantsAtInstant` | crates/adapters/src/util.rs:544-612 | at one instant a bucket grants what it holds and then what it has earned, if that is a full load |
| `TokenBucket.LimiterBound` | crates/adapters/src/util.rs:661-676 | a key's calls with times in [s, t], its creating call included, are granted at most 2*max - 1 + floor((t-s)/interval) times, whatever came before, if the clock does not go back |
| `TokenBucket.BurstAtOneInstant` | crates/adapters/src/util.rs:661-676 | the bound is met: a first call and, a full load later, more calls at one instant, of which 2*max - 1 are granted |
| `TokenBucket.SizeOneKeepsTheLimit` | crates/adapters/src/util.rs:639-676 | a key with one token is granted at most one call in any stretch shorter than the interval, for times in any order |
| `TokenBucket.KeysAreIndependent` | crates/adapters/src/util.rs:661-676 | in every sequence of calls a key gets the results of a bucket of its own |
| `TokenBucket.TokenBucketRateLimiter.CheckKey` | crates/adapters/src/util.rs:661-676 | refines the limiter on values: a missing key gets a full bucket at the time of the call, which is checked at once |
| `TokenBucket.TokenBucketRateLimiter.constructor` | crates/adapters/src/util.rs:647-654 | starts without buckets, and can be called exactly if the interval it gives its buckets is positive |
| `TokenBucket.DocumentedLimit` | crates/adapters/src/util.rs:639-641 | with the interval that the constructor computes, "at most max grants per window" holds of every run of calls made one at a time exactly if max is at most 1 |
| `TokenBucket.SuppressionReports` | crates/adapters/src/util.rs:517-531 | in a sequential run every grant reports how many calls were suppressed since the previous grant and the times of the first and the last of them |
| `TokenBucket.CheckRemembers` | crates/adapters/src/util.rs:604-612 | one call keeps the bucket's memory of the suppressed calls exact |
| `TokenBucket.FreshRemembersNothing` | crates/adapters/src/util.rs:491-500 | a new bucket starts such a run with nothing suppressed |
| `TokenBucketThreads.StepInv` | crates/adapters/src/util.rs:509-612 | one atomic operation of any thread keeps the token and suppression balances and does not move the refill time back |
| `TokenBucketThreads.Safety` | crates/adapters/src/util.rs:509-612 | in every interleaving of any number of threads: available tokens never exceed the size; grants, tokens in flight (also between winning the refill race and adding the tokens) and available tokens are at most the size plus the intervals up to the last refill; reported, swapped-out and stored suppressions add up to those made |
| `TokenBucketThreads.AdditionLosesNothing` | crates/adapters/src/util.rs:566-576 | a refill adds all its tokens to what is there, or fills the bucket to its size |
| `TokenBucketThreads.DecidedByTheTake` | crates/adapters/src/util.rs:509-612 | whatever the others do, a call is granted exactly by taking a token that is there, and refused only when there is none after its attempt to refill |
| `TokenBucketThreads.RefillTimeMonotone` | crates/adapters/src/util.rs:544-578 | the refill time never decreases, whatever clocks the threads read |
| `TokenBucketThreads.QuiescentAccounting` | crates/adapters/src/util.rs:517-611 | when no call is in progress, reported plus stored suppressions are exactly the refused calls |
| `TokenBucketThreads.AloneIsSequential` | crates/adapters/src/util.rs:590-612 | a call without interference is the sequential check |
| `TokenBucketThreads.TwiceAtOneInstant` | crates/adapters/src/util.rs:544-612 | for every size but 0, two threads can be granted 2*max calls at one clock reading, when one of them stops between its refill and its second take |
| `ThreadedLimits.SizeZeroGrantsNothing` | crates/adapters/src/util.rs:509-612 | with size 0 no schedule of any number of threads grants a call |
| `ThreadedLimits.ThreadedDocumentedLimit` | crates/adapters/src/util.rs:639-641 | with the interval that the constructor computes and a clock that does not go back, "at most max grants per window" holds of every schedule of every number of threads exactly if max is 0 |
| `ThreadedLimits.ThreadedStretchBound` | crates/adapters/src/util.rs:544-612 | after any schedule, what the threads do while their clocks show s to t is granted at most (2 + b)*max + floor((t-s)/interval) times, where b threads were inside a call before |
| `CursorViews.FlattenRows` | crates/adapterlib/src/catalog.rs:609-766 | going through a flattened cursor gives the values of the indexed Z-set, in order, as keys |
| `CursorViews.DeletionsThenInsertions` | crates/adapterlib/src/catalog.rs:912-948 | with polarity, every row of negative weight comes once, in the order underneath, then every row of positive weight, and none of weight 0 |
| `CursorViews.FlatDeletionsThenInsertions` | crates/adapterlib/src/catalog.rs:609-948 | the same of polarity over flattening, for the values of an indexed Z-set |
| `CursorLayers.SeekDivides` | crates/dbsp/src/trace/cursor.rs:58-70 | a forward search in a sorted batch separates the smaller keys from the others |
| `CursorLayers.RestrictedPlace` | crates/adapterlib/src/catalog.rs:456-475 | the restricted cursor's key is valid exactly while the cursor underneath is within the range, and it is the same key |
| `CursorLayers.RestrictedSeek` | crates/adapterlib/src/catalog.rs:594-606 | searching for a key underneath is searching for it in the range, even when it leads past the end of the range |
| `CursorLayers.FlattenedPlace` | crates/adapterlib/src/catalog.rs:629-650 | the flattened cursor is valid exactly when the one underneath is at a value, which is its key |
| `CursorLayers.PolarizedPlace` | crates/adapterlib/src/catalog.rs:950-970 | key and value of the wrapped cursor are those of the pass it is in |
| `CursorLayers.StartsUnlessFirstIsEmpty` | crates/adapterlib/src/catalog.rs:620-632 | a flattened cursor's first place is right exactly unless the first group is empty and there are values elsewhere |
| `CursorLayers.FlattenedPolarityMisses` | crates/adapterlib/src/catalog.rs:620-632 | flattening a cursor with polarity can miss every value, so the wrappers do not commute |
| `SerCursors.SerCursor.Over` | crates/dbsp/src/trace/cursor.rs:56-120 | a cursor over a batch starts at its first key and value |
| `SerCursors.SerCursor.Part` | crates/adapterlib/src/catalog.rs:435-447 | the range cursor starts at the first key of its range |
| `SerCursors.SerCursor.Flat` | crates/adapterlib/src/catalog.rs:620-627 | the flattened cursor is at the value the cursor underneath is at, which from the start is the first |
| `SerCursors.SerCursor.WithPolarity` | crates/adapterlib/src/catalog.rs:926-938 | the cursor with polarity is at the next deletion of the key the cursor underneath is at, in the first pass |
| `SerCursors.SerCursor.KeyValid` | crates/adapterlib/src/catalog.rs:469-471 | says whether there is a key at the place, for every stack of wrappers |
| `SerCursors.SerCursor.ValValid` | crates/adapterlib/src/catalog.rs:633-636 | says whether there is a value at the place |
| `SerCursors.SerCursor.Key` | crates/adapterlib/src/catalog.rs:638-640 | gives the key at the place |
| `SerCursors.SerCursor.Val` | crates/adapterlib/src/catalog.rs:646-648 | gives the value at the place |
| `SerCursors.SerCursor.Weight` | crates/adapterlib/src/catalog.rs:1051-1053 | gives the weight at the place |
| `SerCursors.SerCursor.StepKey` | crates/adapterlib/src/catalog.rs:577-579 | moves to the first value of the next key of the view, for every stack of wrappers |
| `SerCursors.SerCursor.SkipEmpty` | crates/adapterlib/src/catalog.rs:737-744 | the flattened cursor's loop ends at the next value of the cursor underneath or at its end |
| `SerCursors.SerCursor.PolarityStepKey` | crates/adapterlib/src/catalog.rs:1055-1065 | after the last key the first key comes again, in the second pass |
| `SerCursors.SerCursor.StepVal` | crates/adapterlib/src/catalog.rs:1067-1070 | moves to the next value of the key, for every stack of wrappers |
| `SerCursors.SerCursor.AdvanceVal` | crates/adapterlib/src/catalog.rs:940-947 | passes exactly the values of the other sign and of weight 0; terminates through the mutual recursion |
| `SerCursors.SerCursor.PolarityStepVal` | crates/adapterlib/src/catalog.rs:1067-1070 | steps once and passes unwanted values |
| `SerCursors.SerCursor.RewindKeys` | crates/adapterlib/src/catalog.rs:585-588 | returns to the start: of the range for a part, of the first pass with polarity |
| `SerCursors.SerCursor.RewindVals` | crates/adapterlib/src/catalog.rs:1080-1083 | returns to the first value of the key |
| `SerCursors.SerCursor.SeekKey` | crates/adapterlib/src/catalog.rs:604-606 | goes forward to the first key that is at least the given one, of the batch or, past its end if there is none, of a part |
| `SerCursors.SerCursor.Traverse` | crates/dbsp/src/trace/cursor.rs:94-107 | the usual double loop over any stack of wrappers terminates and emits exactly the rows of its view |
| `Partitions.FromBounds` | crates/adapterlib/src/catalog.rs:385-433 | the builder for part n stands for the keys from bound n-1 up to bound n, and beyond the last part for the batch; there is none exactly if the batch is empty |
| `Partitions.Build` | crates/adapterlib/src/catalog.rs:435-447 | the cursor built is at the start of its range |
| `Partitions.PartsAreTheBatch` | crates/adapterlib/src/catalog.rs:373-383 | the parts for sorted bounds drawn from the keys, one after another, are the batch: disjoint and complete |
| `Partitions.EmptyPartExactly` | crates/adapterlib/src/catalog.rs:373-433 | every part of a batch with keys is empty exactly if it is not the last and its end is the previous bound or, for part 0, the first key |
| `Partitions.DocumentedNoneExactly` | crates/adapterlib/src/catalog.rs:383-384 | "none exactly for an empty part" holds of what `from_bounds` returns exactly unless the batch has keys and the part begins where it ends |
| `Partitions.OneKeyForTwoThreads` | crates/dbsp/src/trace.rs:599-603 | a batch with one key and that key as the only bound: part 0 is empty, part 1 is the batch |
| `Partitions.TraverseParts` | crates/adapterlib/src/catalog.rs:373-607 | the part cursors together emit what one cursor over the batch emits |
| `Partitions.OutputPart` | crates/adapters/src/integrated/delta_table/output.rs:746-754 | polarity over flattening over a part emits its deletions once each in order, then its insertions |
| `DeletionsFirst.DeletionsFirstIsSafe` | crates/adapterlib/src/catalog.rs:912-920 | if the key is unique before and after a delta, applying the stream one update at a time keeps it unique throughout, deletes only what is there, and ends at the table after |
| `DeletionsFirst.BatchOrderIsUnsafe` | crates/adapterlib/src/catalog.rs:914-920 | in the order of the batch a replacement can violate uniqueness on the way |
| `ParallelParts.InterleavingIsSafe` | crates/adapterlib/src/catalog.rs:912-920 | if each thread's own updates are safe alone, every interleaving of them is safe, where each key has one thread |
| `ParallelParts.PartsInAnyOrderAreSafe` | crates/adapters/src/integrated/delta_table/output.rs:906-940 | threads that each write the deletions and then the insertions of their own keys keep the key unique in every interleaving, and end at the table after the delta |
| `ParallelParts.PartRowsAreOwn` | crates/adapterlib/src/catalog.rs:373-433 | the rows of a part of a batch indexed by the key are exactly the rows whose keys fall between its bounds |
| `ParallelParts.PartsWrittenInParallel` | crates/adapters/src/integrated/delta_table/output.rs:906-940 | so writing the parts of such a batch in parallel is safe in every interleaving, and complete |
| `OperationType.IndexedOperationType` | crates/adapters/src/util.rs:89-166 | fails exactly if, among the values from the current one on, some weight is beyond 1 or two share a sign; otherwise tells from the signs present |
| `OperationType.ClassificationIsExact` | crates/adapters/src/util.rs:88-166 | for a key with at most one record before and after it never fails and is Insert, Delete, Upsert or nothing exactly as the record appears, disappears, changes or stays |
| `QueueLedger.ReplayAlternates` | crates/adapterlib/src/transport.rs:493-517 | entries handled whole, one by one, start and commit alternately |
| `QueueLedger.ReplayTimely` | crates/adapterlib/src/transport.rs:287-292 | and each start comes before its entry's records and each commit after them |
| `QueueLedger.ReplayExactly` | crates/adapterlib/src/transport.rs:431-453 | the log is exactly the starts and commits that the entries call for: a start where one is asked for and, by the entries before, none is in progress; a commit where one is asked for and one is |
| `QueueLedger.DueIsTold` | crates/adapterlib/src/transport.rs:493-517 | so each start and each commit that is due is told, with the records flushed by then |
| `QueueLedger.PushGood` | crates/adapterlib/src/transport.rs:352-370 | a push keeps the account good |
| `QueueLedger.StartGood` | crates/adapterlib/src/transport.rs:431-433 | so does starting an entry |
| `QueueLedger.FlushGood` | crates/adapterlib/src/transport.rs:561-566 | so does flushing any part of an entry |
| `QueueLedger.FinishGood` | crates/adapterlib/src/transport.rs:579-589 | so does finishing an entry, with its commit |
| `QueueLedger.Discipline` | crates/adapterlib/src/transport.rs:409-591 | a good account: the consumer was told exactly what the entries finished and the one begun call for; starts and commits alternate from a start and come at the right records, even for entries split over many calls; the records flushed are a prefix of those pushed; no more is flushed than was reported |
| `QueueLedger.CommitDecided` | crates/adapterlib/src/transport.rs:506-517 | the entry in front commits exactly if it asks for it and, by the entries, a transaction is in progress |
| `QueueCalls.BufferIsMarked` | crates/adapterlib/src/transport.rs:562-566 | every entry with a buffer has its watermark, between those of the entries before and after it |
| `QueueLock.StepBalanced` | crates/adapterlib/src/transport.rs:359-361 | every step, of a producer under the lock or of the flusher that pops, flushes and puts back, keeps the balance of sizes queued, in hand, reported and flushed |
| `QueueLock.NeverAhead` | crates/adapterlib/src/transport.rs:359-361 | in every interleaving of the single steps, the size flushed never exceeds the size reported |
| `InputQueue.InputQueue.PushEntry` | crates/adapterlib/src/transport.rs:352-370 | the entry is last in the queue, its size is reported, a step is requested exactly if it has no records, and the account stays good |
| `InputQueue.InputQueue.StartTransaction` | crates/adapterlib/src/transport.rs:493-504 | tells the consumer unless a transaction is in progress |
| `InputQueue.InputQueue.CommitTransaction` | crates/adapterlib/src/transport.rs:506-517 | tells the consumer if a transaction is in progress |
| `InputQueue.InputQueue.BeginEntry` | crates/adapterlib/src/transport.rs:552-559 | is the start step of the account, which `Discipline` ties to the starts that the entries call for |
| `InputQueue.InputQueue.FlushBuffer` | crates/adapterlib/src/transport.rs:562-566 | is the flush step of the account |
| `InputQueue.InputQueue.FinishEntry` | crates/adapterlib/src/transport.rs:579-589 | is the finish step of the account |
| `InputQueue.InputQueue.PutBack` | crates/adapterlib/src/transport.rs:567-576 | what is left goes to the front, whatever was pushed in between |
| `InputQueue.InputQueue.Queue` | crates/adapterlib/src/transport.rs:535-591 | for buffers that keep the `take_some` contract: conserves records and sizes, returns the size flushed, at most the batch size for exact buffers, and one watermark for each buffer served, the one put back included; flushes nothing after a commit; stops only when full, after an entry that asks for a commit, with an empty queue, or at an entry that has bytes but no records left |
| `InputQueue.InputQueue.FlushWithAuxUntil` | crates/adapterlib/src/transport.rs:409-483 | the same for whole entries; gives the hasher the records flushed, in their order; returns the auxiliary data of exactly the entries finished, of which at most the last satisfies the stop condition and none with a buffer was begun after the batch was full; each of the two loops finishes no entry after one that commits, and ends only when stopped, with such an entry, or full or drained, the second with no bufferless entry in front |
| `Framing.StreamSplitter.NextChunk` | crates/adapterlib/src/format.rs:545-567 | refines the framing step; chunks returned and bytes pending are the bytes supplied, and the splitter has seen each byte up to `fed` once, in order |
| `Framing.StreamSplitter.AppendData` | crates/adapterlib/src/format.rs:570-581 | adds the data to what is pending and changes nothing else |
| `Framing.StreamSplitter.Read` | crates/adapterlib/src/format.rs:586-616 | adds what the file delivers, at most the limit and less only if the buffer is full; an error adds nothing |
| `Framing.StreamSplitter.Position` | crates/adapterlib/src/format.rs:620-622 | counts the bytes returned since the last seek, from its offset |
| `Framing.StreamSplitter.Seek` | crates/adapterlib/src/format.rs:626-636 | forgets what is pending, clears the splitter with its own `clear`, and continues at the offset |
| `FramingLaws.CutIndependence` | crates/adapterlib/src/format.rs:530-567 | for every sequence of appends and polls, the chunks so far and the frames of what is left are the frames of all data seen as one piece |
| `FramingLaws.SameBytesSameChunks` | crates/adapterlib/src/format.rs:530-567 | the same bytes cut in two ways give the same chunks, once polled dry |
| `ByteSplitters.ScanIsLawful` | crates/adapterlib/src/format.rs:496-514 | every byte-wise splitter treats data in parts as it treats it at once |
| `ByteSplitters.CsvInput` | crates/adapters/src/format/csv.rs:194-219 | is the byte-wise scan for a new-line outside quotes |
| `ByteSplitters.CsvLawful` | crates/adapters/src/format/csv.rs:194-219 | the CSV splitter keeps the splitter contract and does not depend on cuts |
| `CsvFraming.RecordEndsExactly` | crates/adapters/src/format/csv.rs:194-219 | the splitter finds a boundary at n exactly if the byte before is the first new-line outside quotes, or the second if the header is still to come |
| `ByteSplitters.ParseString` | crates/adapters/src/format/json/input.rs:528-541 | the fast loop over a string leaves off where the byte-wise scan would be |
| `ByteSplitters.JsonInput` | crates/adapters/src/format/json/input.rs:490-520 | is the byte-wise scan of JSON values by nesting |
| `ByteSplitters.JsonLawful` | crates/adapters/src/format/json/input.rs:490-541 | the JSON splitter keeps the splitter contract and does not depend on cuts |
| `JsonText.FirstValueEnds` | crates/adapters/src/format/json/input.rs:490-541 | after white space the splitter finds exactly the end of the value: of an array or object the first place where, outside strings, as many brackets are closed as opened; of a number or name the first byte that is not part of it; of a string that byte after its closing quote, which is the next one that is not escaped |
| `LineSplitting.RunConserves` | crates/adapterlib/src/format.rs:545-581 | for any splitter, chunks returned and bytes pending are the bytes supplied |
| `LineSplitting.LinesDoNotDependOnCuts` | crates/adapters/src/format.rs:85-91 | with the line splitter every chunk ends a line, and the lines obtained are those of the input, however it is cut and polled |
| `LineSplitting.SpongeKeepsEverything` | crates/adapters/src/format.rs:72-77 | with the sponge splitter no chunk is returned before the end of input and everything supplied is pending |
| `ParseLoops.StreamingParse` | crates/adapterlib/src/format.rs:390-410 | takes exactly the frames of what was pending and the data, then the rest, and leaves nothing pending |
| `ParseLoops.MessageParse` | crates/adapterlib/src/format.rs:448-473 | takes exactly the frames of the message, then the rest |
| `ParseLoops.LinesAndSpongeFrameAlike` | crates/adapters/src/format.rs:71-93 | with the line and the sponge splitter both loops frame every sequence of messages alike |
| `ByteFraming.FramesArePieces` | crates/adapterlib/src/format.rs:545-567 | for every byte-wise splitter the chunks of complete data are the pieces between its boundaries, found byte by byte |
| `ByteFraming.SamePlaces` | crates/adapterlib/src/format.rs:545-567 | data cut up in two ways gives the same pieces exactly if it is cut in front of the same bytes |
| `ByteFraming.MessagesExactly` | crates/adapterlib/src/format.rs:390-473 | for every byte-wise splitter both loops frame messages alike exactly if each message is cut at the same places by a splitter that has seen the messages before and by a new one |
| `CsvFraming.CutsAgree` | crates/adapters/src/format/csv.rs:194-219 | two CSV splitters cut data at the same places exactly if every byte but the last ends a record for both or for neither |
| `CsvFraming.LoopsAgreeExactly` | crates/adapterlib/src/format.rs:390-473 | with the CSV splitter both loops frame messages alike exactly if a condition holds of each message and what came before it, which counts quotes and new-lines; with and without headers |
| `CsvFraming.AlikeWithoutHeaders` | crates/adapterlib/src/format.rs:390-473 | without headers the condition is that a message after an odd number of quotes has no new-line before its last byte |
| `CsvFraming.ResetFramesAsNew` | crates/adapters/src/format/csv.rs:221-223 | after `clear`, data is cut as by a new splitter exactly if there are no headers, the header was not passed over yet, or the data has no unquoted new-line before its last byte |
| `CsvFraming.OpenQuoteCarriesOver` | crates/adapterlib/src/format.rs:390-473 | the loops do differ: an open quote carries over to the next message |
| `JsonFraming.SameCutsExactly` | crates/adapters/src/format/json/input.rs:490-520 | in two states the JSON splitter cuts data at the same places exactly if it finds the same first end of a value before the end of the data |
| `JsonFraming.LoopsAgreeExactly` | crates/adapterlib/src/format.rs:390-473 | with the JSON splitter both loops frame messages alike exactly if in each message the first value ends at the same place for a splitter that has seen the messages before and for a new one |
| `JsonFraming.AfterWord` | crates/adapters/src/format/json/input.rs:490-520 | after a bare word or a string at top level that is so exactly if the next message is empty or begins with a byte of a word |
| `JsonFraming.NumbersDiffer` | crates/adapterlib/src/format.rs:390-473 | two numbers in two messages: the streaming loop takes an empty chunk that the other does not |
| `NestedBuffers.TakeSome` | crates/adapterlib/src/format.rs:245-271 | for any nesting gives the buffer and the rest about which the following is proved |
| `NestedBuffers.Fraction` | crates/adapters/src/static_compile/deinput.rs:604-613 | the bytes that go with some of the records are at most all of them, and if there are any, all of them exactly with all the records |
| `NestedBuffers.FractionRoundsDown` | crates/adapters/src/static_compile/deinput.rs:604-613 | the share is the quotient rounded down |
| `NestedBuffers.LeafSplit` | crates/adapters/src/static_compile/deinput.rs:490-503 | a leaf gives its first records with their share of the bytes, and keeps the other records and bytes |
| `NestedBuffers.TakenRecords` | crates/adapterlib/src/format.rs:114-133 | the first min(n, total) records in order are taken, and a buffer is returned exactly if there are any |
| `NestedBuffers.TakeFirst` | crates/adapterlib/src/format.rs:245-271 | the loop over a vector does the same for its elements |
| `NestedBuffers.RestExactly` | crates/adapterlib/src/format.rs:114-124 | the records left are the rest exactly if, at every level, n is a buffer boundary or at least the total, or a buffer without records was passed first; otherwise records are missing |
| `NestedBuffers.FlatLoss` | crates/adapterlib/src/format.rs:254-265 | in a vector of leaves the loss is exactly the rest of the leaf that n falls into |
| `NestedBuffers.TakeAllLossless` | crates/adapterlib/src/format.rs:135-137 | taking everything loses nothing |
| `NestedBuffers.DocumentedContractFails` | crates/adapterlib/src/format.rs:114-133 | taking one of two records of a nested buffer loses the other, and bytes exactly if there are any |
| `NestedBuffers.BytesExactly` | crates/adapterlib/src/format.rs:125-132 | bytes taken and bytes left add up to the bytes there were exactly if no discarded buffer keeps bytes, at every level; otherwise the loss is missing |
| `NestedBuffers.LeavesNoBytesExactly` | crates/adapterlib/src/format.rs:245-271 | a buffer keeps no bytes after a take exactly under a condition on its records, its bytes and n |
| `NestedBuffers.FlatBytesLoss` | crates/adapterlib/src/format.rs:245-271 | in a vector of leaves exactly the bytes of discarded leaves without records are lost, and the rest of the leaf that n falls into if that is discarded |
| `NestedBuffers.BytesLostWithoutRecords` | crates/adapterlib/src/format.rs:114-133 | bytes can be lost where no record is |
| `VectorQueue.Queue` | crates/adapterlib/src/transport.rs:535-591 | one call of `queue` over entries with or without vectors and commits flushes and leaves that about which the following is proved |
| `VectorQueue.CommitEndsCall` | crates/adapterlib/src/transport.rs:579-589 | the entries behind one that asks for a commit stay as they are |
| `VectorQueue.CommitEndsFlush` | crates/adapterlib/src/transport.rs:579-589 | and none of their records is flushed |
| `VectorQueue.ConservesExactly` | crates/adapterlib/src/format.rs:408-471 | it conserves the records exactly if the entry that the batch limit falls into is split losslessly; otherwise records are missing from the queue, and never from what is flushed |
| `VectorQueue.MissingIsRestOfLeaf` | crates/adapterlib/src/format.rs:408-471 | for the vectors that the preprocessed parsers make, exactly the rest of the leaf that the limit falls into is missing |
| `QueueDrain.StuckForever` | crates/adapterlib/src/transport.rs:561-576 | once an entry with bytes but no records is in front, every call flushes nothing and leaves the queue as it is, but for the start that the entry asked for |
| `QueueDrain.DrainsExactly` | crates/adapterlib/src/transport.rs:535-591 | repeated calls drain the queue exactly if such an entry never comes to the front, and then within as many calls as there are entries and records |
| `QueueDrain.CleanQueueDrains` | crates/adapterlib/src/transport.rs:535-591 | for any nesting and any limit, a queue in which every leaf with bytes has records is drained |
| `QueueDrain.StubbornNeverDrains` | crates/adapterlib/src/transport.rs:535-591 | an entry whose last buffer has bytes but no records never leaves the queue |
| `QueueDrain.LeavesDrainExactly` | crates/adapterlib/src/transport.rs:535-591 | a queue of entries that are no vectors is drained exactly if no entry has bytes but no records |
| `QueueDrain.VectorsDrainExactly` | crates/adapterlib/src/transport.rs:535-591 | a queue of vectors of leaves is drained for every limit exactly if in no vector a leaf with bytes but no records comes at or after the place that is the number of leaves with records; otherwise no limit that takes all records at once drains it |
| `RecencyList.EvictToIsShortestPrefix` | crates/buffer-cache/src/lru.rs:254-263 | eviction drops the shortest prefix that brings the cost within the bound |
| `RecencyList.InsertExactly` | crates/buffer-cache/src/lru.rs:266-283 | for a key that is there or not, an insertion keeps exactly the entries from the least place on from which they fit beside the new one, all if they do, without that of the same key, in their order, and puts the new one last |
| `RecencyList.CostBound` | crates/buffer-cache/src/lru.rs:241-328 | in every run keys are distinct and the cost is at most the capacity or the cost of the value inserted last |
| `LruInclusion.Inclusion` | crates/buffer-cache/src/lru.rs:241-283 | on the same read-through trace a smaller cache holds a suffix of what a larger one holds, for entries of any cost |
| `LruInclusion.UnitResidents` | crates/buffer-cache/src/lru.rs:241-283 | with unit costs the residents are exactly the max(m, 1) most recently accessed distinct keys |
| `LruCache.InvariantsHold` | crates/buffer-cache/src/lru.rs:221-232 | a representation satisfies what `check_invariants` asserts: equal sizes, mutually inverse maps |
| `LruCache.CacheInner.constructor` | crates/buffer-cache/src/lru.rs:209-218 | a new cache is empty |
| `LruCache.CacheInner.Get` | crates/buffer-cache/src/lru.rs:241-251 | returns the value and makes it the most recent, or changes nothing |
| `LruCache.CacheInner.EvictTo` | crates/buffer-cache/src/lru.rs:254-263 | refines eviction on the list; the maps never run dry while the cost is too high |
| `LruCache.CacheInner.Insert` | crates/buffer-cache/src/lru.rs:266-283 | refines insertion on the list; the cost is at most the capacity or the value's own cost |
| `LruCache.CacheInner.Remove` | crates/buffer-cache/src/lru.rs:286-292 | removes exactly the key and returns its value |
| `LruCache.CacheInner.RemoveIf` | crates/buffer-cache/src/lru.rs:295-308 | removes exactly the matching keys |
| `LruCache.CacheInner.RemoveRange` | crates/buffer-cache/src/lru.rs:311-328 | removes exactly the keys of the range and counts them |

## Left out

- `JobQueue`: worker panics, dropped futures and `drop`, which aborts the tasks, are not modelled; there is one producer.
- `ThreadPool`: which thread runs a task is not modelled, only how many are busy; tasks terminate and do not panic.
- `TokenBucket`: the concurrent map of the rate limiter is a map used by one caller at a time; atomics are sequentially consistent.
- `SerCursors.SerCursor.Flat`: requires that the cursor is at a value or at its end and that the first group is not empty, which cursors over batches and parts satisfy; `StartsUnlessFirstIsEmpty` says what happens otherwise.
- `SerCursors.SerCursor.WithPolarity`: requires a cursor that is not past its last key, unless it has none; every caller passes one at its start.
- `SerCursors.SerCursor.StepKey`: requires a valid key, as the assertion in the flattened cursor does; likewise `StepVal`, `Val` and `Weight` require a valid value.
- `SerCursors.SerCursor.SeekKey`: for batches and parts; the flattened cursor panics, the one with polarity passes the call on without looking for a wanted value, and exact seeks of absent keys are not modelled.
- `Partitions.FromBounds`: requires bounds drawn from the batch's keys, as the sampling of keys gives them.
- `InputQueue.InputQueue.PushEntry`: does not model parse errors, which do not touch the queue.
- `InputQueue.InputQueue.FlushWithAuxUntil`: the auxiliary data `A` stands for the pair of time stamp and auxiliary data; what the hasher computes of the records is not modelled.
- `NestedBuffers.TakeSome`: leaves take with full granularity.
- `VectorQueue.Queue`: what the consumer is told of transactions is not modelled, because `InputQueue` covers it; nothing is pushed during a call.
- `QueueDrain.VectorsDrainExactly`: for one given limit the condition is that of `DrainsExactly`, which is about the calls and not about the entries.
- Serialization of keys and values, parse errors and preprocessors: they do not influence the order or the bytes modelled.
- `crates/adapters/src/server.rs`, the controller and the connectors: their transition relations are not part of this model.
- `crates/buffer-cache/src/s3_fifo.rs` and the sharding of caches: a thin wrapper and a division of the capacity.
- Wrap-around of the cache's 64-bit serial numbers.
