# Verification of the poll bot

This project models the parts of the poll bot whose correctness is not visible from reading one function, and
proves properties of them with Dafny. `dafny verify dfyconfig.toml` checks all of it.

Four parts of the system are covered.

**The lock-free ring** (`Ring*.dfy`, `AtomicQueue.dfy`). `RingProtocol` is the step relation of
`datas/atomicqueue`: one writer goroutine, any number of pushers, poppers and sleeping consumers, and `Stop`,
with a program counter per goroutine and one action per atomic operation. `RingInvariant` proves an inductive
invariant over all interleavings; `RingTheorems` reads the guarantees off it, and `RingSteps` says in terms of
the unbounded counters what each goroutine does next and when it cannot go on. The code compares counters modulo
2^64, so the guarantees are stated for *timely* runs, in which no goroutine is overtaken by 2^64 appends between
loading head and the comparison that uses it; `RingOverflow` shows that the assumption is needed. `AtomicQueue`
is the same ring as a class with an array and wrapping 64-bit counters.

**The poll pipeline** (`FileHeap.dfy`, `DedupeProtocol.dfy`, `DedupeCalls.dfy`, `PollManager.dfy`,
`BatchProtocol.dfy`, `ResultsWorker.dfy`, `FinalizedStore.dfy`, `StoreViews.dfy`). The expiry heap with its file mirror and the array
algorithms of `container/heap`; the ownership protocol of the dedupe set; the queue clean-up; the rendezvous
between worker and `Insert`; the accounting of a batch; the two tables of finalized polls and their view.

**Export, paging and merge** (`Text.dfy`, `Decimals.dfy`, `CsvFormat.dfy`, `CsvExport.dfy`, `Ratings.dfy`,
`PageMerge.dfy`, `SheetCells.dfy`, `MergeCopies.dfy`, `PageSplit.dfy`, `PageInvariance.dfy`, `VoteTotals.dfy`,
`ExportLimits.dfy`, `Fetch.dfy`, `ManualPolls.dfy`, `ManualEndToEnd.dfy`). The CSV printer, the spreadsheet
script's parser and merge, the paging between them, and hand-entered polls followed from the request to the
spreadsheet. `PageSplit.Reference` is the independent definition everything is compared with: the table a record
list determines, without pages or dictionaries. `PageSplit.PagedTable` is the table a list of pages determines.
`Ratings` and `SheetCells` say what an answer's title and a cell's text mean by the form they have.

**The login limiter** (`LoginLimiter.dfy`, `LoginRuns.dfy`, `LoginBans.dfy`). The limiter as a class, and three
properties of its runs: eviction cannot be observed, failures are bounded, sharply, in every window, and the
failures of an address alone determine when it is banned.

Where the code does less than its comments say, the exact condition is proved. A poll skipped on a recoverable
error is not always retried (`managers/polls/finalized.go:276-279` says it is). The dedupe set starts empty
although the heap file may not be, so duplicates are excluded exactly for a queue that started empty. A queue
that holds a poll without expiry or guild cannot be opened again. Distinct id texts do not keep hand-entered
polls apart, because ids are stored as numbers; canonical ones below 2^63 do. From 2^63 on an accepted id is
stored as a floating-point number: it can share its key with others, and its poll is never exported. A voter
named like a property every JavaScript object inherits makes page boundaries visible.

The conditions on exported lists are explicit. Stripped titles are pairwise distinct, because votes are kept by
title; `ExportLimits.RowIsOwnIff` says exactly when a row is right without that. Names have no comma and no line
break and stay distinct when trimmed. Exported titles and dates are of one line; `ExportLimits.TableIffOneLine`
shows that a list is refused otherwise. A voter named `__proto__` has no column, in the model as in the script.
Dates print through an unspecified function, the server's time zone; where a lemma speaks of days, it prints those
of some calendar.

The clock, what Discord answers and - except where "Left out" says otherwise - whether a statement or a query
succeeds are parameters.

## Model

| member | source | states |
|---|---|---|
| `RingTheorems.Linearizable` | backend/core/root/datas/atomicqueue/worker.go:103-111 | In every reachable state of every interleaving, the values popped in CAS order followed by the slots from head to tail, read through the mask, are exactly the values the writer appended; the ring never holds more than its size |
| `RingTheorems.NoNilDereference` | backend/core/root/datas/atomicqueue/worker.go:137-144 | A popper that passed the empty test can always read its slot: the pointer it dereferences is never nil |
| `RingTheorems.EmptyIsTrue` | backend/core/root/datas/atomicqueue/worker.go:138-143 | "Empty" is answered only when the ring is empty at the tail load, and is answered whenever it is empty and the loaded head is still current |
| `RingTheorems.CasTakesOldest` | backend/core/root/datas/atomicqueue/worker.go:144-148 | A timely CAS on the wrapped counter succeeds if and only if head has not moved since it was loaded, and then the value read earlier is the oldest one not yet popped |
| `RingTheorems.MatchingCasIsFreshIffTimely` | backend/core/root/datas/atomicqueue/worker.go:144-148 | The timeliness assumption is exact: a CAS that matches the wrapped counter, in any reachable state, finds head where it was loaded if and only if it is timely |
| `RingTheorems.MatchingTailIsFreshIffTimely` | backend/core/root/datas/atomicqueue/worker.go:138-143 | The same for the empty test: one that matches finds tail equal to the loaded head if and only if it is timely |
| `RingTheorems.Conservation` | backend/core/root/datas/atomicqueue/worker.go:97-112 | Accepted pushes = popped + in the ring + in the writer's hand + in the channel + dropped; what was appended is a subsequence of what was accepted, and what is still in hand and channel is the accepted tail, in order |
| `RingTheorems.ExactFifoWhenBlocking` | backend/core/root/datas/atomicqueue/worker.go:88-105 | Under F_BLOCKFULL nothing is dropped and the accepted sequence is popped, ring, hand, channel in exactly that order, also after a stop |
| `RingTheorems.ParkedWriterIsWoken` | backend/core/root/datas/atomicqueue/worker.go:88-96 | If the writer is parked, the ring is full, or the token is there, or some popper is between its successful CAS and its send |
| `RingTheorems.SleepingConsumerIsWoken` | backend/core/root/datas/atomicqueue/subscribers.go:16-38 | A consumer asleep on an open channel is on the current generation, and the queue is active and empty, or the writer is between tail store and release, or Stop is between clearing `active` and releasing |
| `RingTheorems.ReleaseIsNotBlocked` | backend/core/root/datas/atomicqueue/subscribers.go:16-38 | At most one consumer holds the mutex, its holder always has a step and is never asleep; with the mutex free a pending release is enabled |
| `RingTheorems.WriterExitIsClean` | backend/core/root/datas/atomicqueue/worker.go:85-121 | The writer leaves its loop only after Stop closed `done`; what was accepted and not handled is then exactly the channel |
| `RingSteps.DropsOnlyWhenFull` | backend/core/root/datas/atomicqueue/worker.go:103-107 | In every reachable state the writer drops a received value if and only if tail is exactly size ahead of head, and then the policy is F_DROPFULL; otherwise it goes on to store it and nothing else changes |
| `RingSteps.ParksOnlyWhenFull` | backend/core/root/datas/atomicqueue/worker.go:88-96 | Under F_BLOCKFULL it parks if and only if the ring is full |
| `RingSteps.TakesOldest` | backend/core/root/datas/atomicqueue/worker.go:89-102 | It takes the oldest value of the channel, consumes the token it is woken by, and leaves only after `done` was closed |
| `RingSteps.StoresThenReleases` | backend/core/root/datas/atomicqueue/worker.go:108-111 | It writes the slot, then moves tail and only then releases the consumers, and looks for room before the next value only under F_BLOCKFULL |
| `RingSteps.WriterStuckIff` | backend/core/root/datas/atomicqueue/worker.go:87-112 | The writer cannot go on exactly when it has left, is parked without a token, has no value, or waits for the mutex, in the middle two cases before Stop |
| `RingSteps.PusherSteps` | backend/core/root/datas/atomicqueue/worker.go:123-135 | A push ends with its value last in the channel, or, once `done` is closed, without it; it is blocked exactly while the channel is full before Stop |
| `RingSteps.NoPushAfterStop` | backend/core/root/datas/atomicqueue/worker.go:123-128 | A push that begins after Stop closed `done` is refused, and only then |
| `RingSteps.StopSteps` | backend/core/root/datas/atomicqueue/worker.go:115-121 | Stop clears `active`, closes `done`, releases the consumers, and waits for nothing but the mutex |
| `RingSteps.PopperSteps` | backend/core/root/datas/atomicqueue/worker.go:137-158 | Each step of a timely pop: the current head is loaded; it leaves empty-handed exactly when tail is at that head; the CAS takes the oldest value exactly when head has not moved, and a lost CAS starts over and changes nothing |
| `RingSteps.PopperLeavesWithValueOrEmpty` | backend/core/root/datas/atomicqueue/worker.go:160-174 | A pop returns only with a value it popped, or from a ring that is empty |
| `RingSteps.PopperNeverStuck` | backend/core/root/datas/atomicqueue/worker.go:137-158 | A pop can always take its next step |
| `RingSteps.CallsBegin` | backend/core/root/datas/atomicqueue/worker.go:160-174 | Pops and waits may begin at any time, after a stop too |
| `RingSteps.ConsumerSteps` | backend/core/root/datas/atomicqueue/subscribers.go:16-29 | Each step of a timely wait: an inactive queue sends the consumer away; an active one lets it join the sleepers exactly when tail is at the head it loaded; it sleeps on an open channel and wakes only when that one is closed |
| `RingSteps.SleepsOnEmpty` | backend/core/root/datas/atomicqueue/subscribers.go:16-29 | A consumer of an active queue that loaded the current head of an empty ring goes to sleep |
| `RingSteps.ConsumerStuckIff` | backend/core/root/datas/atomicqueue/subscribers.go:16-29 | A consumer cannot go on exactly when another holds the mutex, or when it sleeps on an open channel |
| `RingSteps.SomeConsumerSleeps` | backend/core/root/datas/atomicqueue/subscribers.go:16-29 | Consumers do sleep: a reachable state of the fresh queue has one asleep |
| `RingInvariant.RunKeeps` | backend/core/root/datas/atomicqueue/worker.go:85-158 | The invariant of ring, poppers, history, wake-ups and mutex holds in every state of every timely run with any number of goroutines |
| `RingInvariant.StepKeeps` | backend/core/root/datas/atomicqueue/worker.go:85-158 | Each single action of the writer, Stop, a pusher, a popper or a waiting consumer keeps that invariant |
| `RingOverflow.LateCasTakesAStaleValue` | backend/core/root/datas/atomicqueue/worker.go:137-148 | Why runs are required to be timely: a reachable state in which a CAS overtaken by exactly 2^64 pops succeeds and returns a value popped before, although the ring's oldest value is another |
| `RingIndex.MaskIsRemainder` | backend/core/root/datas/atomicqueue/worker.go:68-70 | Masking with size-1 is the remainder by the size, for every power of two |
| `RingIndex.MaskOfWrapped` | backend/core/root/datas/atomicqueue/worker.go:68-70 | Wrapping a counter at 2^64 does not change its slot |
| `RingIndex.SlotsDistinct` | backend/core/root/datas/atomicqueue/worker.go:108-110 | Counters closer than the ring size never share a slot |
| `RingIndex.PowerOfTwoTest` | backend/core/root/datas/atomicqueue/queue.go:28-31 | `size & (size-1) == 0` holds exactly for powers of two |
| `RingIndex.New` | backend/core/root/datas/atomicqueue/queue.go:20-47 | For any flag word, a queue is created exactly for non-negative sizes, a size that is zero or a power of two, and exactly one full-ring policy; its ring is then a power of two and its channel has room |
| `AtomicQueue.Ring.Admit` | backend/core/root/datas/atomicqueue/worker.go:103-111 | The writer's turn: the value joins the end of the contents, or, the ring being full, nothing changes but the 32-bit drop count |
| `AtomicQueue.Ring.TryPop` | backend/core/root/datas/atomicqueue/worker.go:137-158 | Alone, an attempt removes exactly the first value, and offers the token under F_BLOCKFULL; empty is reported exactly for an empty ring, across counter wrap-around |
| `AtomicQueue.Ring.Pop` | backend/core/root/datas/atomicqueue/worker.go:160-174 | Pop returns the first value, or None exactly when the ring is empty |
| `AtomicQueue.Ring.Full` | backend/core/root/datas/atomicqueue/worker.go:62-64 | On the writer's side, unsigned 64-bit `tail - head >= size` is true exactly when the contents fill the array |
| `AtomicQueue.Ring.Mask` | backend/core/root/datas/atomicqueue/worker.go:68-70 | The masked index is the remainder by the array's length, and a valid slot |
| `AtomicQueue.ViewAppend` | backend/core/root/datas/atomicqueue/worker.go:108-110 | Writing the masked tail slot appends to the contents and disturbs none of them |
| `LoginRuns.EvictionIsUnobservable` | backend/core/root/api/login/ratelimit.go:40-91 | For every sequence of checks, failures and clears in clock order, the limiter that sweeps and one that never evicts give the same ban answers |
| `LoginRuns.SweepUnobservable` | backend/core/root/api/login/ratelimit.go:40-64 | The same from any two tables no later call can tell apart, whatever the time of the last sweep |
| `LoginRuns.SlidingWindowBound` | backend/core/root/api/login/ratelimit.go:53-85 | With no successful login from an address and at most k of its requests in flight, at most k+2 failures are recorded in any half-open window of LOGIN_BAN_DURATION |
| `LoginRuns.BoundIsReached` | backend/core/root/api/login/ratelimit.go:145-165 | The bound is exact: for every k of at least 1 some admissible run records k+2 failures in one window |
| `LoginRuns.Handle` | backend/core/root/api/login/ratelimit.go:145-166 | One request takes exactly the steps of the run: a ban is answered without running the handler, a counted 401 or 422 charges, a status below 400 clears, any other changes nothing |
| `LoginBans.CheckAnswers` | backend/core/root/api/login/ratelimit.go:53-85 | For every sequence of calls in clock order, a check answers what the failures of its address since its last success determine: five minutes from the last one that was the third, sixth, ... of its streak, while that is to come, and no ban otherwise |
| `LoginBans.ThirdFailureBans` | backend/core/root/api/login/ratelimit.go:76-84 | A third failure at t bans until t + 5 minutes, at exactly the moments before, as long as no later third failure comes in |
| `LoginBans.OnlyThirdFailuresBan` | backend/core/root/api/login/ratelimit.go:59-63 | A banned address had a third failure less than five minutes ago |
| `LoginBans.ThreeInAWindow` | backend/core/root/api/login/ratelimit.go:76-84 | Three failures within five minutes make the third a banning one, and the first two are not |
| `LoginBans.StatusMeans` | backend/core/root/api/login/ratelimit.go:123-164 | 401 and 422 charge the address, a status below 400 clears it, any other does nothing |
| `LoginBans.SweepLeaves` | backend/core/root/api/login/ratelimit.go:45-49 | A sweep leaves exactly the entries whose ban is not over or whose last failure is less than five minutes old |
| `LoginLimiter.Limiter.SweepAttempts` | backend/core/root/api/login/ratelimit.go:40-51 | The in-place deletion loop leaves exactly the entries that are not stale, and runs at most once per window |
| `LoginLimiter.Limiter.LoginBannedUntil` | backend/core/root/api/login/ratelimit.go:53-64 | Answers the end of the ban exactly while it lasts, after a due sweep |
| `LoginLimiter.Limiter.RecordLoginFailure` | backend/core/root/api/login/ratelimit.go:66-85 | Charges only this address and leaves the time of the sweep; what the charge amounts to over whole runs is said by `LoginBans.CheckAnswers` |
| `FileHeaps.FileHeap.TryTake` | backend/core/root/datas/fileheap/fileheap.go:161-176 | A declined take is justified: every queued poll with a known expiry is still to come and the returned top is the earliest of them. A take removes the least poll; it is due, or no queued poll has an expiry |
| `FileHeaps.FileHeap.HeapPop` | backend/core/root/datas/fileheap/fileheap.go:22-35 | The swap, sift-down and truncation remove exactly the top, which is not after any entry, and leave a heap |
| `FileHeaps.FileHeap.Up` | backend/core/root/datas/fileheap/fileheap.go:139-141 | Sift-up turns a heap broken only at one entry into a heap of the same values |
| `FileHeaps.FileHeap.Down` | backend/core/root/datas/fileheap/fileheap.go:227-233 | Sift-down restores the heap below an index, keeps the values and touches nothing from n on |
| `FileHeaps.FileHeap.Heapify` | backend/core/root/datas/fileheap/fileheap.go:227-233 | Sifting down from the last parent to the top turns any array into a heap of the same values |
| `FileHeaps.FileHeap.PushLocked` | backend/core/root/datas/fileheap/fileheap.go:139-151 | One value more in the heap; heap and file stay equal if and only if the value was not queued already |
| `FileHeaps.FileHeap.PopLocked` | backend/core/root/datas/fileheap/fileheap.go:188-202 | Pops the least poll from heap and file; an empty heap is an error that changes nothing; a failing file leaves its row |
| `FileHeaps.FileHeap.MergeLocked` | backend/core/root/datas/fileheap/fileheap.go:227-253 | Adds exactly the given values and re-heapifies; heap and file stay equal if and only if the values are pairwise distinct and none was queued |
| `FileHeaps.FileHeap.ClearLocked` | backend/core/root/datas/fileheap/fileheap.go:210-216 | Empties heap and file together, or neither |
| `FileHeaps.New` | backend/core/root/datas/fileheap/fileheap.go:61-85 | Opening a file succeeds exactly when every row has an expiry and a non-empty guild, and gives a heap of exactly its rows, in whatever order they come |
| `FileHeaps.Reopen` | backend/core/root/managers/polls/polls.go:116-118 | A queue in use, in step with its file, can be opened again if and only if every queued poll has an expiry and a non-empty guild; then the same multiset is queued |
| `FileHeaps.NoExpiryBlocksReopening` | backend/core/root/managers/polls/polls.go:116-118 | A poll without expiry, which pushing accepts, is enough to refuse the whole file at the next start |
| `FileHeaps.DrainIsOrdered` | backend/core/root/managers/polls/polls.go:106-114 | Popping a queue empty yields a permutation of it in nondecreasing expiry, polls without expiry last |
| `FileHeaps.TopIsLeast` | backend/core/root/managers/polls/polls.go:106-114 | The top of a heap is not after any entry, under the source's `less` |
| `DedupeProtocol.EveryIdHasOneOwner` | backend/core/root/managers/polls/data.go:14-49 | From an empty queue, in every interleaving of pushes, takes and cleans, an id is held at most once among heap, pushers between insert and merge, takers between pop and remove, and the cleaner; an id is in the set exactly when it is held or a failure left it there |
| `DedupeProtocol.StepKeeps` | backend/core/root/managers/polls/data.go:14-138 | Each atomic set or heap operation moves an id from one owner to at most one other |
| `DedupeProtocol.SafeIffStartedEmpty` | backend/core/root/managers/polls/polls.go:141-168 | The set starts empty even when the heap file does not: the heap is safe from duplicate ids in every run if and only if it was empty when opened |
| `DedupeProtocol.RepushAfterReopen` | backend/core/root/managers/polls/polls.go:158 | Pushing an id a reopened heap holds seats a second copy |
| `DedupeCalls.PushAlone` | backend/core/root/managers/polls/data.go:14-49 | From any state with the lock free, a push that nothing interrupts comes to its end with exactly its ids that were neither in the set nor finalized in set and heap, once each, and nothing else changed |
| `DedupeCalls.TakeAlone` | backend/core/root/managers/polls/results_worker.go:104-119 | A take alone removes one copy from the heap and the id from the set |
| `DedupeCalls.CleanAlone` | backend/core/root/managers/polls/data.go:110-138 | A clean alone removes the stale copies from the heap and their ids from the set |
| `PollManager.Manager.Push` | backend/core/root/managers/polls/data.go:14-49 | Exactly the polls whose id was neither in the set nor seen to be finalized, one copy each, join heap, file and set; a lookup that fails sees nothing; the dropped count is returned; a closed or failing queue keeps the ids in the set |
| `PollManager.PruneKeeps` | backend/core/root/managers/polls/data.go:18-36 | What a push lets through when its lookups work: distinct ids, none in the set, none finalized, and no other id left out |
| `PollManager.ReadingKeeps` | backend/core/root/managers/polls/data.go:63-73 | Whatever lookups fail: distinct ids, none in the set, each let through by a lookup that did not find it final, and an id is left out only if it is in the set or was found final |
| `PollManager.Manager.CleanQueue` | backend/core/root/managers/polls/data.go:110-138 | Keeps exactly the polls whose message is there, in heap and file, frees exactly the others' ids and returns how many it removed; nothing changes when none is stale; the two failures leave what the code leaves |
| `PollManager.SurvivingIs` | backend/core/root/managers/polls/data.go:114-122 | Every copy of a poll whose message is there survives a clean, and no copy of another |
| `PollManager.Manager.GetTopOrdered` | backend/core/root/managers/polls/data.go:78-107 | The first three entries of the array, sorted by expiry; none only for an empty queue |
| `PollManager.TopsAre` | backend/core/root/managers/polls/data.go:78-107 | What is shown: three polls, or all there are; sooner expiries first, polls without one before those to come; when all have one, the first is due before every other poll of the queue |
| `PollManager.Manager.ViewQueue` | backend/core/root/commands/status/queue.go:21-54 | The retry loop ends whatever Discord answers in each turn, because each further turn strictly shrinks the queue. It removes only polls whose message was gone, frees exactly their ids and keeps heap and file in step, unless the file failed. It shows tops that were all fetched - in the first turn, with nothing changed, if those could be; it reports a failed fetch only for a top whose fetch failed, a failed clean only when the file failed, a clean that dropped nothing only when no queued message was gone; and when cleaning works it shows polls or empties the queue |
| `ResultsWorker.Worker.TryAddToBatch` | backend/core/root/managers/polls/results_worker.go:99-122 | Moves the top to the end of the batch without losing or copying a poll, and takes exactly its row out of the file, so heap and file stay in step; a poll to wait for carries the earliest deadline in the queue, still to come |
| `ResultsWorker.Worker.RunBatch` | backend/core/root/managers/polls/results_worker.go:208-234 | A whole batch leaves set, results, queue and file exactly as the books of `Settle` say, with the rows, retries, cutoff and final status of the exchange: the file gains exactly the rows of the polls queued again, or none when it fails; heap and file stay in step if and only if none of those was queued already |
| `ResultsWorker.Worker.Gather` | backend/core/root/managers/polls/finalized.go:195-343 | Insert's pass computes the rows, their number and the cutoff one past the last written or gone poll, and pushes each unfinalized poll back as it goes, in memory and file |
| `ResultsWorker.BatchAccounting` | backend/core/root/managers/polls/results_worker.go:222-233 | For any batch, one holding an id twice included, id by id: finalized exactly if it was or a row of its number was written; queued again exactly if it was neither queued nor finalized and some copy is not finalized yet, or some copy lies at or after the cutoff and no row of its number was written |
| `ResultsWorker.RowsWritten` | backend/core/root/managers/polls/finalized.go:318-351 | Under each number the last row of the batch is stored, as it was rendered; other rows stay |
| `ResultsWorker.WrittenIsShown` | backend/core/root/managers/polls/finalized.go:103-178 | A poll a batch has written is in the view with the channel, options, answers, title and flag of its row, unless a hand-entered poll has its id |
| `ResultsWorker.QueuedPolls` | backend/core/root/managers/polls/results_worker.go:222-233 | What is queued is a poll of the batch or its retry, and no id is queued twice |
| `ResultsWorker.WrittenBatchAccounting` | backend/core/root/managers/polls/results_worker.go:222-233 | Read for a poll that is in the batch once: its own row is written exactly when it has one, it goes back exactly when it is not finalized or at or after the cutoff, and no written or gone poll goes back |
| `ResultsWorker.FailedBatchAccounting` | backend/core/root/managers/polls/results_worker.go:219-221 | A failed write finalizes nothing and every poll of the batch that was not finalized before ends up in the set, queued again unless it was already |
| `ResultsWorker.OthersUntouched` | backend/core/root/managers/polls/results_worker.go:214-237 | Settling a batch neither queues nor frees an id outside it |
| `ResultsWorker.SkippedPollIsRetriedIff` | backend/core/root/managers/polls/finalized.go:275-279 | A poll that is in the batch once and is skipped on a recoverable error is retried if and only if no later poll was written or found gone; the comment at these lines promises a retry always |
| `ResultsWorker.SkippedPollCanBeLost` | backend/core/root/managers/polls/results_worker.go:222-236 | The two-poll batch that loses its first poll: an error, then a row |
| `ResultsWorker.Retried` | backend/core/root/managers/polls/finalized.go:219-231 | A retry keeps the poll's identity and is never sooner than RETRY_DELAY from now, nor sooner than the expiry Discord reports |
| `BatchProtocol.HandshakeTerminates` | backend/core/root/managers/polls/results_worker.go:151-189 | For every batch length and outcome sequence the exchange has at most 7n+4 steps and stops only with one final status, which tells whether the rows were written, and with exactly the right rows, requeues and cutoff |
| `BatchProtocol.SomeStepIsEnabled` | backend/core/root/managers/polls/results_worker.go:151-189 | No deadlock: until both sides have returned exactly one kind of action is possible |
| `BatchProtocol.NothingIsMisread` | backend/core/root/managers/polls/finalized.go:77-101 | No code is taken for an index or the reverse, index 0 included; drop is answered exactly to a gone message; Insert never receives a stop |
| `BatchProtocol.StepKeeps` | backend/core/root/managers/polls/finalized.go:334-360 | Every step keeps worker and Insert at matching ends of `done` and the error channel, and brings the end nearer |
| `FinalizedStore.Store.GetFinalized` | backend/core/root/managers/polls/finalized.go:106-178 | Decoding row by row gives the selected page of the view, or, when the query or a row fails, an error with exactly the rows before it |
| `FinalizedStore.SelectedIsOrdered` | backend/core/root/managers/polls/finalized.go:103-135 | Every matching row of the view once, and nothing else; ids that read back as snowflakes come first, in strictly increasing order by the script's own comparison |
| `FinalizedStore.SelectedByIds` | backend/core/root/managers/polls/finalized.go:103-125 | A query for some ids shows exactly the matching rows whose key is that of one of them, in the same order |
| `FinalizedStore.RoundedIsNearest` | backend/core/root/managers/polls/finalized.go:367-421 | An id that does not fit 64 signed bits is held as the nearest multiple of 2^11, of two equally near ones the even |
| `FinalizedStore.PagedShows` | backend/core/root/managers/polls/finalized.go:126-133 | LIMIT and OFFSET on the rows are LIMIT and OFFSET on the ids, for any sign of either |
| `FinalizedStore.Store.InsertManual` | backend/core/root/managers/polls/finalized.go:367-421 | The whole batch is written or nothing is: nil records are skipped, a record whose id is not a number refuses it, a failing database leaves the table |
| `FinalizedStore.ManualRefusedIff` | backend/core/root/managers/polls/finalized.go:379-386 | A batch for the manual table is refused exactly when some record has an id that is no number |
| `FinalizedStore.NilRecordsAreSkipped` | backend/core/root/managers/polls/finalized.go:379-382 | A nil record anywhere in a batch changes nothing |
| `StoreViews.DropShows` | backend/core/root/managers/polls/finalized.go:422-440 | After a drop every query shows what it showed before without the dropped ids: no shadowed row comes to light |
| `StoreViews.DropNeedsBothTables` | backend/core/root/managers/polls/finalized.go:423 | Deleting only the manual row would show the results row it shadowed |
| `StoreViews.SetActiveShows` | backend/core/root/managers/polls/finalized.go:443-466 | The full answer becomes the old one with the flag of the named polls set, the active answer its active part, in unchanged order, whichever table a poll is in |
| `StoreViews.SetTitleShows` | backend/core/root/managers/polls/finalized.go:471-505 | Every query shows the same polls in the same order, the named ones under their new titles and those cleared under their own, whichever table they are in |
| `StoreViews.OverridesDeterminedIff` | backend/core/root/managers/polls/finalized.go:471-505 | A batch of overrides, keyed by text and visited in Go's map order, has one outcome if and only if texts of one stored key carry equal titles |
| `StoreViews.OmittingFilters` | backend/core/root/managers/polls/finalized.go:111-125 | Omitting inactive rows in the query is filtering the full answer |
| `FinalizedStore.TitleOverrideRoundTrip` | backend/core/root/managers/polls/finalized.go:471-505 | An override shows in either table and no other row changes; clearing it brings the row's own title back |
| `FinalizedStore.DeactivateReactivate` | backend/core/root/managers/polls/finalized.go:443-466 | Deactivating hides exactly the named polls from the active view; reactivating restores both tables |
| `Decimals.CompareIsNumeric` | apps-script/Code.gs:284-291 | On canonical decimal strings `compareSnowflake_` is the numeric order, and equality is equality of values |
| `Decimals.PrintParsed` | backend/core/root/info/unix/time.go:34-38 | Parsing a canonical snowflake and printing it gives it back |
| `CsvFormat.ParsePrintedTable` | apps-script/Code.gs:260-278 | Parsing a printed table gives back its rows with every field trimmed, for any fields without commas and line breaks |
| `CsvFormat.RoundTrip` | apps-script/Code.gs:260-278 | With trimmed fields parsing is the exact inverse of printing |
| `CsvFormat.ParseCsv` | apps-script/Code.gs:260-278 | The parser's two loops compute that parse for every text, blank lines, carriage returns and missing terminators included |
| `CsvFormat.UnterminatedKeepsCells` | apps-script/Code.gs:264-275 | A line without the terminator keeps all its cells |
| `CsvFormat.BlankLinesDisappear` | apps-script/Code.gs:263-267 | A line of nothing but space contributes no row, wherever it stands |
| `CsvExport.ToCSV` | backend/core/root/csv/csv.go:37-156 | The text is an export of the records: header and rows by second of creation, in some order within a second, a column per voter met in snowflake order |
| `CsvExport.Collect` | backend/core/root/csv/csv.go:55-112 | The first pass over polls, answers and voters yields the pairs, the votes per title, and the columns with their names |
| `CsvExport.ReadBallot` | backend/core/root/csv/csv.go:78-112 | The loops over answers and voters count a poll and add the voters it meets, stopping at the first answer that is no rating |
| `Ratings.StarsAreTheirNumber` | backend/core/root/csv/csv.go:77-105 | One to five stars, bare or followed by any comment of one line in brackets, count as that number |
| `Ratings.MoreStarsAreUnmapped` | backend/core/root/csv/csv.go:77-91 | More than five stars are a rating whose votes are not counted |
| `Ratings.AbstentionIsNoVote` | backend/core/root/csv/csv.go:77-106 | "N/A", bare or commented, is an abstention |
| `Ratings.OtherTitlesAreNotRatings` | backend/core/root/csv/csv.go:77-84 | A title makes its poll no rating if and only if it has none of these forms |
| `Ratings.CommentsDoNotCount` | backend/core/root/commands/rate/rate.go:45-49 | A poll counts the same with and without the comments `/rate` writes behind its answers |
| `Ratings.RatingIs` | backend/core/root/csv/csv.go:76-84 | A poll is a rating exactly when the titles of all its answers are |
| `Ratings.VotersAre` | backend/core/root/csv/csv.go:86-101 | A voter has a column exactly when it is listed by an answer that is counted, in some poll whose id is a snowflake, rating or not |
| `Ratings.VoteIs` | backend/core/root/csv/csv.go:104-105 | A vote is the choice of the last counted answer that lists the voter |
| `Ratings.TotalIs` | backend/core/root/csv/csv.go:81-107 | The total is the number of votes for a number in a rating, and zero in any other poll |
| `Ratings.FilteredKeepsRest` | backend/core/root/csv/csv.go:57-60 | Titles lose their commas and nothing else |
| `Ratings.SnowflakeKeepsItsSecond` | backend/core/root/info/unix/time.go:34-44 | A snowflake made for a moment reads back as the second of that moment, whatever its lower 22 bits |
| `Ratings.ExportIsByTime` | backend/core/root/csv/csv.go:116-118 | Exported polls stand by the second they were made |
| `Ratings.ColumnIsAlias` | backend/core/root/csv/csv.go:94-99 | A column is headed by the voter's alias, if there is one and it is not "?", and by the id otherwise |
| `CsvExport.SortByTime` | backend/core/root/csv/csv.go:116-118 | The poll order is a permutation sorted by the second of creation |
| `CsvExport.WriteRows` | backend/core/root/csv/csv.go:128-150 | The second pass prints exactly the rows of the polls whose title is still mapped |
| `PageSplit.PageParses` | backend/core/root/csv/csv.go:119-150 | Parsing a page gives its header - the five fixed columns and the page's voters - and one row per exported poll, each field trimmed |
| `PageSplit.ParseExport` | backend/core/root/csv/csv.go:119-150 | When no field has surrounding space these are the original fields, in equally long rows |
| `PageSplit.MappedIsOwn` | backend/core/root/csv/csv.go:55-64 | With distinct stripped titles each title maps to its own poll's votes, and only if that poll is a rating |
| `ExportLimits.RowIsOwnIff` | backend/core/root/csv/csv.go:57-64 | Without that: a rating poll's row shows its own votes if and only if they are what the last poll of its stripped title leaves - its votes, none at all for one that is no rating, no votes for one whose id is no snowflake |
| `VoteTotals.TotalOfRow` | backend/core/root/csv/csv.go:96-106 | A row is as long as the header, its Total is never less than its number of numbered cells, and equals it if and only if no numbered vote of the poll was cast over by the same voter |
| `VoteTotals.OneAnswerSuffices` | backend/core/root/csv/csv.go:85-107 | In particular they are equal when every voter is in at most one answer |
| `PageInvariance.MergeOfPages` | apps-script/Code.gs:321-401 | For any split of a record list into pages, exporting each page, parsing and merging gives the table of the pages: a line per rating poll by increasing id, a column per voter of any page |
| `PageInvariance.PagingIsInvisibleIff` | apps-script/Code.gs:311-401 | Merging the pages equals merging one export of the whole list if and only if every page with an exported poll lists every voter of the list whose name is an inherited property; the whole export always gives the reference table |
| `PageInvariance.PagedIsReferenceIff` | apps-script/Code.gs:393-396 | The table of the pages is the reference table of the list under exactly the same condition |
| `PageInvariance.OutputIsPagedTable` | apps-script/Code.gs:367-400 | Dictionaries that represent the pages come out as their table: ids in strictly increasing numeric order, voters alphabetical, each cell the poll's own |
| `PageMerge.MergePages` | apps-script/Code.gs:321-401 | The merge loops compute the merge for every input, refusing a short header or a row of the wrong length with its page |
| `PageMerge.RefusedIff` | apps-script/Code.gs:329-349 | A merge is refused if and only if some page has fewer than five header fields or a row of another length than its header; the error is that of the first such page |
| `PageMerge.LastColumnWins` | apps-script/Code.gs:353-356 | When two columns of a page have one name, a row keeps the cell of the last |
| `SheetCells.DateReads` | apps-script/Code.gs:293-301 | Two runs of one or two digits and one of four, separated by slashes and surrounded by any space, are the date of that month, day and year |
| `SheetCells.OtherTextIsNoDate` | apps-script/Code.gs:296-299 | A text stays text if and only if it has not that form |
| `SheetCells.NumberReadsIff` | apps-script/Code.gs:303-309 | A cell is a number exactly when its trimmed text is an optional sign, digits, and an optional point with digits; otherwise it is its own text |
| `SheetCells.DayReads` | backend/core/root/csv/csv.go:135 | The day the exporter prints is the day the sheet receives, for every year of four digits |
| `SheetCells.LineBeginsWithDay` | apps-script/Code.gs:383-392 | The line of a hand-entered poll begins with the day of the second its id was made for |
| `SheetCells.KeptColumns` | apps-script/Code.gs:370-392 | Each kept column is made from the cell under the same name: a date, the topic as text, the total as a number |
| `MergeCopies.LastCopyWins` | apps-script/Code.gs:357-363 | For any pages that merge, repeated rows included: exactly one row per distinct id read (an inherited property as id apart), showing the last copy read |
| `ExportLimits.InheritedNameShowsPaging` | apps-script/Code.gs:393-396 | Two polls, the second with a voter aliased `constructor`: every export on two pages merges to another table than an export on one page |
| `ExportLimits.TableIffOneLine` | apps-script/Code.gs:340-348 | The pages merge to a table if and only if no exported title has several lines; otherwise the merge is refused |
| `ExportLimits.LineBreakRefuses` | apps-script/Code.gs:342-348 | A page with an exported title of several lines is refused as malformed, never misread |
| `Fetch.GetPageContent` | backend/core/root/api/polls/polls.go:27-63 | A negative page is refused, zero is one, a failing query is a server error; otherwise the rows of that page are exported, the next page is announced exactly when a row lies beyond, and an empty page is 204 |
| `Fetch.PagesCoverOnce` | backend/core/root/api/polls/polls.go:27-63 | The pages of an answer hold each of its rows once and in order; none is empty, all but the last are full |
| `Fetch.RunFetch` | apps-script/Code.gs:431-457 | For an unchanging store the fetch aborts exactly when a page it asks for fails; otherwise it gives up exactly when there are more than MAX_PAGES * 50 rows, and else merges exactly the pages of the active view, multiples of 50 and the empty store included; with distinct stripped titles and plain distinct names the result is refused exactly for an exported title of several lines, and is otherwise the table of those pages, equal to the view's reference table exactly under the inherited-name condition |
| `Fetch.FetchedTable` | apps-script/Code.gs:431-457 | The same for the merge of the pages of any answer |
| `Fetch.QueryIsProper` | backend/core/root/managers/polls/finalized.go:123-135 | For any tables, the query itself guarantees increasing canonical ids among those that read back as snowflakes; only exported titles and dates of one line and distinct stripped titles remain as conditions |
| `ManualPolls.AddPolls` | backend/core/root/api/polls/polls.go:144-214 | A batch is refused with its first error, and only then, and nothing is written; an accepted one is written whole, the last poll of each stored key deciding, unless the database fails |
| `ManualPolls.AcceptedIff` | backend/core/root/api/polls/polls.go:154-191 | A batch is accepted exactly when every id parses, no id text repeats, every choice is 0 to 5 and no voter votes twice in a poll |
| `ManualPolls.FirstBadPoll` | backend/core/root/api/polls/polls.go:156-186 | A refused batch gets the error of its first bad poll: a malformed id, else a repeated one, else that of its votes |
| `ManualPolls.FirstBadVote` | backend/core/root/api/polls/polls.go:179-187 | The votes of a poll get the error of the first bad one: a choice out of range, else a repeated voter |
| `ManualPolls.AcceptedRows` | backend/core/root/managers/polls/finalized.go:379-421 | An accepted batch can always be written; under each key - the number of the id, rounded to a double from 2^63 on - it leaves the last poll of that key, and every other row as it was |
| `ManualPolls.BuildAnswers` | backend/core/root/api/polls/polls.go:168-191 | Each option gets an answer, and the voters of each choice are in it in order of submission |
| `ManualPolls.EveryPollStoredIff` | backend/core/root/api/polls/polls.go:160-164 | Every poll of an accepted batch is stored with its own row if and only if polls of one stored key have equal rows |
| `ManualEndToEnd.CanonicalIsLast` | backend/core/root/api/polls/polls.go:160-164 | In an accepted batch of canonical ids, one below 2^63 shares its key with no other |
| `ManualPolls.LeadingZeroLosesAPoll` | backend/core/root/api/polls/polls.go:160-164 | "7" and "007" are accepted together and the first poll is lost |
| `ManualPolls.BigIdsLoseAPoll` | backend/core/root/api/polls/polls.go:154-164 | 2^63 and 2^63 + 1 are accepted together, become one floating-point key, and the first poll is lost |
| `ManualPolls.ManualBallot` | backend/core/root/api/polls/polls.go:135-191 | The exporter reads such a poll as a rating whose voters are the submitted ones, each with the text of the submitted choice, and whose total is the number of non-zero choices |
| `ManualEndToEnd.AcceptedIsShown` | backend/core/root/managers/polls/finalized.go:363-421 | Once written, the last poll of a key is in the active view under its own title, whatever Discord poll had that id; a canonical id is shown as submitted, and as a snowflake at all, if and only if it is below 2^63 |
| `ManualEndToEnd.ManualPollInTable` | backend/core/root/api/polls/polls.go:138-214 | In the table of any pages that show a hand-entered poll under its id, the row of that id has its date, title and number of non-zero choices, the number of the choice under each voter who made one and N/A elsewhere (or the property a column is named like), and each of its voters has a column |
| `ManualEndToEnd.AcceptedIsFetched` | backend/core/root/api/polls/polls.go:138-214 | End to end: after an accepted batch with canonical ids, the table a fetch merges has that line for every poll whose id is below 2^63, and a column for each of its voters, given distinct stripped titles of one line and plain distinct names |
| `ManualEndToEnd.AcceptedIsFetchedIff` | backend/core/root/api/polls/polls.go:138-214 | Exactly: a poll of such a batch has its line if and only if its id is below 2^63, although ids up to 2^64 - 1 are accepted |
| `ManualEndToEnd.BatchIsFetchedIff` | backend/core/root/api/polls/polls.go:138-214 | Every poll of the batch has its line if and only if every id is below 2^63 |
| `ManualEndToEnd.BigIdIsNotFetched` | backend/core/root/csv/csv.go:66-69 | 9223372036854775808 is accepted, its poll is in the active view, and no fetch has a line for it |
| `ManualEndToEnd.ExportedIdsAreInts` | backend/core/root/csv/csv.go:66-69 | For any tables, only ids below 2^63 are exported |

## Left out

- The ring's guarantees beyond timely runs: there they fail, as `RingOverflow.LateCasTakesAStaleValue` shows; `RingTheorems.MatchingCasIsFreshIffTimely` shows that the bound is exact for every matching CAS.
- Termination of the CAS retry loop of `Pop` under interference: it is lock-free, not wait-free, so a single popper may retry forever; `AtomicQueue.Ring.Pop` covers the loop without interference.
- `Length`, `Full` and `Dropped` as seen by goroutines other than the writer: they load tail before head, so the difference can underflow.
- A second caller of `Stop` waiting in `sync.Once`, and the writer's own deferred `Stop`, which finds it done.
- Data races on the dedupe map and on ring slots: each map operation and each slot access is one atomic step.
- The `queueSubCh` wake-up between workers and `Push`: a release with no waiter is not remembered, so there is no such guarantee to prove; `TryAddToBatch` states what the worker waits for.
- Stopping a results worker in the middle of a batch (`results_worker.go:83-96, 240-282`), and the stop and shutdown codes the worker never sends.
- `FileHeap` is generic in the source and modelled for polls; JSON with SHA-256 is an injective key, so rows are the values themselves.
- The interleaving of a batch's pushes with other goroutines: `ResultsWorker` runs one worker at a time, `DedupeProtocol` covers the interleavings of ids.
- FinalizedStore.Store.InsertManual: refuses a record whose id is not a number, where SQLite would keep the id as text; the batches `AddPolls` submits never contain one, and an empty id is refused by both.
- ResultsWorker.Worker.RunBatch: the lookups of the pushes within a batch are taken to work; one that fails can queue a finalized poll again, as `PollManager.ReadingKeeps` says of any push.
- SQL text, SQLite and its types: tables are maps from the numbers a BIGINT column holds. An id of 2^63 or more is rounded to the nearest double; SQLite's own conversion may differ in the last place. The text such a key reads back as is only known to be no snowflake and different for different keys: its digits are not modelled. Ids that are not decimal numbers below 2^64 name no row.
- Discord calls, HTTP, gzip, JSON decoding of requests, authorization, spreadsheet writes: only their outcomes appear.
- The rounding of `Number(text)` in the script: a number cell keeps its text. `Date` cells keep month, day and year.
- `__proto__` as a dictionary key beyond being ignored on storing a string; string order is by code point, which differs from JavaScript's for characters outside the basic plane.
- The middleware's other statuses and the seconds of `Retry-After`; addresses are taken as given.
- The component callback manager, audit log, ranks, aliases table, file dictionary, version check and the vote summary: they would add easy members only.
