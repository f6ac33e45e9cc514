# Verified models of the m3 core algorithms

A Dafny 4.11 project that models the stateful protocols and the array, graph and text
algorithms of the m3 workspace, and proves what they promise. `dafny verify dfyconfig.toml`
checks the whole of it. Every module stands beside one component:

| file | component |
|---|---|
| `Addressing.dfy`, `ReaderSets.dfy` | who sees mail for whom, and the newline-joined key of a reader set |
| `Hub.dfy`, `HubHistory.dfy`, `HubRuns.dfy`, `HubTimeouts.dfy`, `HubCalls.dfy` | the doorbell hub: its object, its books, its interleaved runs, what its callers can rely on |
| `Resilience.dfy`, `FastPath.dfy` | the circuit breaker, and the dispatcher's lock-free wrapper around it |
| `BucketQueue.dfy`, `BatchTask.dfy`, `Scheduler.dfy`, `SchedulerRuns.dfy` | the coalescing dispatcher: its queue, its batch task, the whole of it, and its runs answer by answer |
| `Displacement.dfy` | the displacement guard and the in-place application of a permutation |
| `Graph.dfy` | breadth-first search and shortest paths over the graph index |
| `Quantise.dfy`, `TopK.dfy`, `VectorIndex.dfy` | the int8 vector index: rounding error, bounded heaps, the index object |
| `Windows.dfy`, `Packer.dfy` | the window planner and the decode packer of the embedder |
| `Carets.dfy` | the `^...^` strings of `--set` and TOML basic strings |
| `Spans.dfy` | greedy decoding of entity spans |
| `Options.dfy`, `Arithmetic.dfy` | shared: optional values; word bounds, extrema, products |

Where the source updates state, so does the model: classes with fields for the hub, the
breaker, the bucket queue, the graph and the vector index, arrays for the displacement guard,
loops with invariants for the rest. Each such method is tied to a specification function or a
declarative predicate, and the theorems are about those. Time, the network, the backend, the
tokenizer and the thread pool are parameters: adversaries that may answer anything.

## What the code does where its own text says otherwise

- **A ring that reaches nobody is not silent.** `Hub::ring` trims the log on every call but
  notifies only when it rang somebody (`crates/m3-dispatchd/src/hub.rs:120-141`). A call whose
  recipients are all empty can therefore mark a loss between a waiter's two checks and leave
  it parked. `HubRuns.RingKeepsChecksIff` says exactly which calls are safe,
  `HubRuns.SilentRingLosesWakeup` gives the run. The HTTP route refuses such calls
  (`crates/m3-dispatchd/src/api.rs:102-106`); `Hub::ring` itself does not.
- **A reader id with a newline changes the reader set.** The key joins ids with newlines and
  the trim splits it again. `ReaderSets.NewlineBreaksTheKey` is a family of examples;
  `ReaderSets.KeyVisibilityIff` is the exact condition for the trim and the waiter to agree,
  `ReaderSets.SharedIff` the exact condition for two different reader sets to share a key. The
  hub's theorems assume the former of each waiter (`HubHistory.KeyFaithful`), which newline-free
  ids always meet (`ReaderSets.KeyKeepsVisibility`).
- **`drain_one` is not round-robin.** Its comment says so
  (`crates/m3-dispatcher/src/lib.rs:436-438`); it serves the first bucket that has work.
  `BucketQueue.SameBucketTwice` is an input on which one bucket is served twice while another
  waits; `BucketQueue.DrainMovesOnIff` says exactly when the next drain moves on.
- **A long text need not decode alone.** The packer's comment says it does; the test applies
  only to the first text of a chunk, and a long text behind a short one joins its chunk
  (`Packer.LongTextMayShare`). `Packer.LongTextAloneIff` says exactly when it is alone, for any
  batch. The encoder's bound holds all the same.
- **The window planner does not always advance.** Its comment says every iteration does,
  whatever the counter returns. At budget 0 an iteration advances exactly when the counter
  charges the empty slice (`Windows.Iterate`). A counter that fails ends the loop too, and a
  text whose first count is 0 never enters it; `Windows.PlanWindows` covers all of this, and
  `Windows.ZeroBudgetEndsIff` says exactly when the loop ends. Where the model keeps running, a
  debug build panics instead, on the `debug_assert` of `crates/m3-embed-llamacpp/src/windows.rs:59`.
  `token_windows` refuses that budget.
- **`decode_spans` tests more than it needs.** Its test for duplicates cannot fire
  (`Spans.DuplicatesOverlap`). Its overflow check also refuses some shapes of the right size:
  those whose first two sides overflow while the third is zero (`Spans.AcceptsIff`,
  `Spans.RightSizeRefused`).

## Model

| member | source | states |
|---|---|---|
| Addressing.QualifiedIff | crates/m3-dispatchd/src/addressing.rs:17-20 | an id is qualified exactly when a separator stands before its last character |
| Addressing.SeesExactly | crates/m3-dispatchd/src/addressing.rs:22-33 | a non-empty reader sees itself, and a bare one also everything qualified under it, and nothing else |
| Addressing.SeesReflexive | crates/m3-dispatchd/src/addressing.rs:22-33 | an id sees itself exactly when it is not empty |
| Addressing.SeesAntisymmetric | crates/m3-dispatchd/src/addressing.rs:22-33 | two ids that see each other are one |
| Addressing.SeesTransitive | crates/m3-dispatchd/src/addressing.rs:22-33 | visibility chains: on non-empty ids a partial order |
| Addressing.ReadersOfOneRecipientAreComparable | crates/m3-dispatchd/src/addressing.rs:22-33 | two readers of one recipient see one another in one direction, so ids form a forest |
| Addressing.CoverageIff | crates/m3-dispatchd/src/addressing.rs:22-33 | a reader set sees all that another sees exactly when it sees that other's ids |
| ReaderSets.SplitInvertsJoin | crates/m3-dispatchd/src/hub.rs:133-133 | splitting a key gives back the newline-free ids it joined |
| ReaderSets.EmptyKeyIff | crates/m3-dispatchd/src/hub.rs:145-161 | a wait has the empty key, and times out at once, exactly when all its readers are empty |
| ReaderSets.KeyIdentifiesReaderSet | crates/m3-dispatchd/src/hub.rs:145-154 | newline-free reader lists share a key exactly when they hold the same non-empty ids |
| ReaderSets.KeyKeepsVisibility | crates/m3-dispatchd/src/hub.rs:126-154 | for newline-free ids the trim, reading the key, and the waiter, reading its list, see the same recipients |
| ReaderSets.KeyVisibilityIff | crates/m3-dispatchd/src/hub.rs:126-154 | for any ids at all, the exact condition under which they do |
| ReaderSets.NewlineBreaksTheKey | crates/m3-dispatchd/src/hub.rs:145-154 | an id `a<newline>b` is counted as seeing `a`, which it does not, and shares the key of the pair |
| ReaderSets.SharedIff | crates/m3-dispatchd/src/hub.rs:145-154 | a non-empty key stands for two lists with different non-empty ids exactly when a newline in it cuts it into two non-empty ids in order |
| Hub.Hub.constructor | crates/m3-dispatchd/src/hub.rs:81-89 | a new hub is empty and keeps at most 100000 rings |
| Hub.Hub.Ring | crates/m3-dispatchd/src/hub.rs:97-143 | one lock section logs one ring for each non-empty recipient, in order, numbered on, with the origin and the one instant of the call, and trims the shortest prefix that leaves the log short and its oldest ring young; the count decides whether to notify |
| Hub.Hub.Push | crates/m3-dispatchd/src/hub.rs:102-119 | each non-empty recipient of the call gets a ring of its own with the next number, the origin and the one timestamp; empty ones get none |
| Hub.RungMeaning | crates/m3-dispatchd/src/hub.rs:97-143 | what a ring call leaves, from the recipients alone: its rings at the end of the log, the least prefix gone, cursors and wakes untouched |
| Hub.Hub.DropOldest | crates/m3-dispatchd/src/hub.rs:126-137 | trimming the oldest ring marks one loss for exactly the reader sets that see it and had not collected it |
| Hub.TrimIsLeast | crates/m3-dispatchd/src/hub.rs:120-137 | the trim removes the shortest prefix that leaves the log short and its oldest ring young enough |
| Hub.Hub.Enter | crates/m3-dispatchd/src/hub.rs:157-174 | the first lock section: an empty key times out, a new key registers at the newest ring and resyncs, a marked one resyncs |
| Hub.Hub.ResyncIfLost | crates/m3-dispatchd/src/hub.rs:186-201 | a marked loss is cleared, with the cursor moved to the newest ring; otherwise nothing changes |
| Hub.Hub.FirstMatch | crates/m3-dispatchd/src/hub.rs:203-210 | when the oldest uncollected visible ring was rung, if there is one |
| Hub.Hub.Take | crates/m3-dispatchd/src/hub.rs:237-268 | resync, or time out with nothing to collect, or collect all of it, moving the cursor to the last; the Mail lists recipients and origins in order |
| Hub.Hub.Collect | crates/m3-dispatchd/src/hub.rs:243-257 | the scan counts the matching rings and gathers their recipients, their origins and the last number |
| Hub.MailNames | crates/m3-dispatchd/src/hub.rs:246-267 | a Mail lists exactly the recipients and the origins of the rings it counts, sorted, each once |
| HubHistory.RingKeepsInv | crates/m3-dispatchd/src/hub.rs:97-143 | a ring keeps the books: the log is a suffix of all rings, deliveries tile the rings between registration and cursor, `lost` counts the visible trimmed rings above the cursor |
| HubHistory.EnterKeepsInv | crates/m3-dispatchd/src/hub.rs:157-174 | so does the first section of a wait |
| HubHistory.ResyncKeepsInv | crates/m3-dispatchd/src/hub.rs:186-201 | so does a resync |
| HubHistory.TakeKeepsInv | crates/m3-dispatchd/src/hub.rs:237-268 | so does a collection |
| HubHistory.UncollectedIsSeen | crates/m3-dispatchd/src/hub.rs:203-268 | with no loss marked, what a waiter would collect is exactly every ring it sees above its cursor |
| HubRuns.RunKeepsInv | crates/m3-dispatchd/src/hub.rs:97-268 | in every interleaving of rings, notifications, waits and takes the books balance and no cursor moves back |
| HubRuns.EveryRingHasOnePlace | crates/m3-dispatchd/src/hub.rs:97-268 | nothing missed, nothing delivered twice: each ring a reader set sees after registering is in exactly one of mail, resync, log, lost, and `lost` is the number of the last kind |
| HubRuns.BooksBalance | crates/m3-dispatchd/src/hub.rs:272-295 | rings seen since registration = counted in mail + covered by a resync + pending as `status` reports + lost |
| HubRuns.NextKeepsWakeInv | crates/m3-dispatchd/src/hub.rs:212-235 | each check a waiter has passed stays passed until it is notified, because the notification is enabled first |
| HubRuns.NoWakeupIsLost | crates/m3-dispatchd/src/hub.rs:139-235 | in every run whose ring calls name somebody, a waiter parked without a notification has nothing to hear of unless a ring call is about to notify |
| HubRuns.RingKeepsChecksIff | crates/m3-dispatchd/src/hub.rs:97-143 | a ring call is safe for all waiters in all states exactly when some recipient is non-empty |
| HubRuns.SilentRingLosesWakeup | crates/m3-dispatchd/src/hub.rs:120-141 | a run in which a call that names nobody leaves a waiter parked on a loss |
| HubTimeouts.NewsIsSeen | crates/m3-dispatchd/src/hub.rs:186-210 | there is something to tell a reader set exactly when it sees a ring above its cursor |
| HubTimeouts.TimeoutIffNoNews | crates/m3-dispatchd/src/hub.rs:237-260 | a collection answers Timeout exactly when there is nothing to collect and no loss to tell of |
| HubTimeouts.TimeoutMeansCollected | crates/m3-dispatchd/src/hub.rs:212-260 | a waiter that found a ring and slept through its window is answered Timeout only if another wait with its key was answered meanwhile, by Mail or by Resync |
| HubCalls.RecipientsAreLogged | crates/m3-dispatchd/src/hub.rs:97-119 | in every run each non-empty recipient of each ring call has its own ring, with its number, recipient, origin and instant, and keeps it |
| HubCalls.RingsComeFromCalls | crates/m3-dispatchd/src/hub.rs:97-119 | and every ring is that of one recipient of one ring call |
| HubCalls.EveryNamedRecipientHasOnePlace | crates/m3-dispatchd/src/hub.rs:97-268 | when a ring call names a recipient that a registered reader list sees, that ring is in every later state in exactly one of mail, resync, log and lost for those readers |
| HubCalls.EveryEntryWasTold | crates/m3-dispatchd/src/hub.rs:157-268 | every answer in the books of a reader set was told, by one event of the run, to a wait with that key, when exactly the answers before it stood in the books |
| HubCalls.EveryAnswerIsBooked | crates/m3-dispatchd/src/hub.rs:157-268 | every Mail and every Resync that a wait was told was entered in the books of its reader set by the event that told it |
| HubCalls.EveryTimeoutHasItsReason | crates/m3-dispatchd/src/hub.rs:145-260 | every Timeout of a run was given to a wait without readers, or past its deadline with nothing found, or after its sleep with no news left |
| HubCalls.WokenWaiterIsServed | crates/m3-dispatchd/src/hub.rs:212-268 | a notified waiter with news, left alone, is answered Mail or Resync within five steps of its own |
| HubCalls.WaitsEnd | crates/m3-dispatchd/src/hub.rs:212-235 | whatever else goes on, a wait past its deadline is answered after at most four turns of its own |
| Resilience.CircuitBreaker.constructor | crates/m3-resilience/src/lib.rs:87-95 | a threshold of zero is raised to one; the breaker starts Closed |
| Resilience.CircuitBreaker.Left | crates/m3-resilience/src/lib.rs:177-186 | what is left of the cooldown, and in which phase |
| Resilience.CircuitBreaker.Check | crates/m3-resilience/src/lib.rs:161-175 | the question changes nothing and has the specification's answer |
| Resilience.CircuitBreaker.Admit | crates/m3-resilience/src/lib.rs:142-154 | an admission while not Closed restarts the cooldown as a probe |
| Resilience.CircuitBreaker.RecordSuccess | crates/m3-resilience/src/lib.rs:189-194 | success closes and clears |
| Resilience.CircuitBreaker.RecordFailure | crates/m3-resilience/src/lib.rs:196-218 | failures saturate; at the threshold the breaker opens at that time |
| Resilience.ApplyKeepsValid | crates/m3-resilience/src/lib.rs:142-218 | every operation keeps: Closed exactly when the failures are below the threshold |
| Resilience.QuestionsAgree | crates/m3-resilience/src/lib.rs:113-233 | check, admit, state and status give one answer about any moment |
| Resilience.ProbesAreSpaced | crates/m3-resilience/src/lib.rs:126-218 | in a run ordered by time, two admissions while not Closed with no success between are a cooldown apart |
| Resilience.CheckAdmitsIff | crates/m3-resilience/src/lib.rs:165-186 | a check admits exactly when Closed, or without cooldown, or a cooldown after the last transition |
| Resilience.RetryAfterIsExact | crates/m3-resilience/src/lib.rs:165-187 | a refusal names the exact wait: no admission before it has passed, and one as soon as it has |
| Resilience.ProbeIsAlone | crates/m3-resilience/src/lib.rs:142-175 | after an admission as a probe every call within a cooldown is told that a probe is outstanding and for how long |
| Resilience.FailureReopens | crates/m3-resilience/src/lib.rs:196-218 | a failure while not Closed, a probe's among them, reopens the breaker for a whole cooldown from then on |
| Resilience.LastTransitionIsPast | crates/m3-resilience/src/lib.rs:142-218 | so one cooldown after the last operation a check always admits: a lost probe blocks nothing forever |
| Resilience.ClosedIffShortStreak | crates/m3-resilience/src/lib.rs:189-218 | over every run: Closed exactly when fewer failures than the threshold came since the last success |
| Resilience.StatusTellsTheStreak | crates/m3-resilience/src/lib.rs:189-233 | over every run a status counts the failures since the last success and quotes the last message among them |
| FastPath.FlagIsPhase | crates/m3-dispatcher/src/lib.rs:206-212 | whenever the lock is free the published flag encodes the recorded phase |
| FastPath.FastPathIsClosed | crates/m3-dispatcher/src/lib.rs:298-342 | a Closed flag means the breaker is Closed, or a transition away from it holds the lock and has not published |
| FastPath.GateIsFastIff | crates/m3-dispatcher/src/lib.rs:310-316 | a gate is answered without the lock, and by leave, exactly when the flag says Closed |
| FastPath.Linearizable | crates/m3-dispatcher/src/lib.rs:298-373 | every concurrent run has an order in which the sequential breaker gives each call its answer, each fast admission finds Closed, and each returned call occurs once, as the operation it was begun as; the order only grows at its end, each call enters it between its begin and its return, and a status reports the breaker as some point of its own span leaves it |
| FastPath.CallsAreAsBegun | crates/m3-dispatcher/src/lib.rs:298-373 | each call was begun by an event of the run and takes effect as that: `check` admits, `peek` only checks, outcomes are recorded as reported, with their message; only the gates may take effect without the lock, and exactly a status call is answered by a report |
| FastPath.OpensAtThreshold | crates/m3-dispatcher/src/lib.rs:279-342 | with the lock free the flag is Closed exactly while fewer failures than the configured threshold, held between one and the 32-bit maximum, took effect since the last success |
| FastPath.RealTimeOrder | crates/m3-dispatcher/src/lib.rs:298-373 | a call that had returned before another began takes effect before it |
| FastPath.ConcurrentProbesAreSpaced | crates/m3-dispatcher/src/lib.rs:298-373 | two probes with no success taking effect between them are a cooldown apart |
| FastPath.ProbesAreSpacedInRealTime | crates/m3-dispatcher/src/lib.rs:298-373 | so are two probes if every success returned before the first of them began or began after the second had returned |
| BucketQueue.LengthBucketQueue.constructor | crates/m3-dispatcher/src/lib.rs:401-414 | the ceilings are sorted, and no ceilings mean one without bound |
| BucketQueue.LengthBucketQueue.Push | crates/m3-dispatcher/src/lib.rs:420-436 | the job joins its bucket and the running total stays the sum of what is pending |
| BucketQueue.LengthBucketQueue.DrainOne | crates/m3-dispatcher/src/lib.rs:442-463 | one batch leaves, with its tokens, and nothing else moves |
| BucketQueue.LengthBucketQueue.ScanBucket | crates/m3-dispatcher/src/lib.rs:447-456 | the scan takes as many jobs as the cap allows, and at least one |
| BucketQueue.LengthBucketQueue.Flush | crates/m3-dispatcher/src/lib.rs:809-818 | repeated draining ends with an empty queue and a zero total |
| BucketQueue.DrainIsUnique | crates/m3-dispatcher/src/lib.rs:447-456 | only one prefix of a bucket is the longest within the cap, or one oversized job |
| BucketQueue.DrainedMeaning | crates/m3-dispatcher/src/lib.rs:442-463 | a drain is that prefix of the first non-empty bucket, nothing exactly when nothing is pending, and conserves jobs and tokens |
| BucketQueue.DrainMovesOnIff | crates/m3-dispatcher/src/lib.rs:436-463 | the next drain serves another bucket exactly when the one served fits under the cap or is a single job |
| BucketQueue.SameBucketTwice | crates/m3-dispatcher/src/lib.rs:436-463 | so one bucket is served twice running while another waits |
| BucketQueue.DrainKeepsBuckets | crates/m3-dispatcher/src/lib.rs:420-463 | a batch is not empty, is within the cap or one job, and comes from one bucket |
| BucketQueue.PushedByBucket | crates/m3-dispatcher/src/lib.rs:420-436 | each bucket holds the jobs of its length in arrival order |
| BucketQueue.FlushedIsPending | crates/m3-dispatcher/src/lib.rs:809-818 | the batches of a flush, one after another, are the pending jobs bucket by bucket |
| BucketQueue.PushThenFlush | crates/m3-dispatcher/src/lib.rs:400-463 | pushing then flushing permutes the jobs and keeps the order within each bucket |
| BatchTask.Run | crates/m3-dispatcher/src/lib.rs:859-915 | the retry loop makes, for any backend, the calls, replies and breaker records of its specification, and meets the step-by-step account below |
| BatchTask.ServeStepByStep | crates/m3-dispatcher/src/lib.rs:859-915 | at most one call per job; the first sends every text; a call is followed by another exactly when its answer is an over-long text at a position of several, and then by one for the others in their order, that job hearing of its one text; the last answers everyone left at their position and alone reports to the breaker |
| BatchTask.ServeAnswersEachOnce | crates/m3-dispatcher/src/lib.rs:859-915 | every job is answered exactly once |
| BatchTask.CallsSendOwnTexts | crates/m3-dispatcher/src/lib.rs:867-903 | every text sent is the original text of the job standing there: none that was moved out |
| BatchTask.RowsGoToTheirTexts | crates/m3-dispatcher/src/lib.rs:883-890 | a row reaches only the caller whose own text stood at that row's position of a length-checked answer |
| BatchTask.BreakerHearsAtMostOnce | crates/m3-dispatcher/src/lib.rs:883-912 | one breaker record at most: success for rows, none for a client error, the failure itself for any other |
| Scheduler.NextKeepsInv | crates/m3-dispatcher/src/lib.rs:558-598 | every step of submitters, scheduler, tasks and direct batches keeps places, counts and stream slots |
| Scheduler.EveryJobHasOnePlace | crates/m3-dispatcher/src/lib.rs:774-917 | in every run an accepted job is in exactly one of channel, hand, bucket, batch, task, answered; `queued` counts exactly what is on its way |
| Scheduler.StepsComeCloser | crates/m3-dispatcher/src/lib.rs:774-917 | every step, whatever clock, breaker and backend say, brings the jobs closer to their answers |
| Scheduler.StuckMeansAnswered | crates/m3-dispatcher/src/lib.rs:774-917 | the dispatcher can stop only with every accepted job answered once, `queued` zero and no direct batch running |
| Scheduler.RunsEndAnswered | crates/m3-dispatcher/src/lib.rs:774-917 | so every run without new submissions or direct batches is bounded, whatever slots direct batches hold at its start, and ends with everybody answered |
| Scheduler.OnlyLateJobsExpire | crates/m3-dispatcher/src/lib.rs:823-835 | exactly the jobs past their deadline are told so, and only those in time go on |
| Scheduler.TaskCallIsServe | crates/m3-dispatcher/src/lib.rs:859-915 | the interleaved steps of a task are the calls of the batch task, one by one; a peeling call answers one job and leaves the rest to run, the last call answers everyone left and frees the task and its permit |
| Scheduler.RowsComeFromCalls | crates/m3-dispatcher/src/lib.rs:859-915 | in every state of every run each row among the answers is the row some backend call of the run gave at the position of its receiver's own text |
| SchedulerRuns.EveryAnswerHasItsCause | crates/m3-dispatcher/src/lib.rs:774-917 | in every run each answer was added by one event and for one reason: the job was past its deadline when its batch was looked at, the breaker refused its batch, or a backend call of its task gave it that row or error; so an admission answers nobody |
| SchedulerRuns.WorkWasAdmitted | crates/m3-dispatcher/src/lib.rs:823-850 | a job that the backend has, or is about to get, was found in time in its batch and that batch was then admitted by the breaker |
| SchedulerRuns.CallsAnswerAdmittedJobs | crates/m3-dispatcher/src/lib.rs:823-915 | so whatever the backend answers it answers to jobs that were in time and admitted before |
| SchedulerRuns.ClassesAreFirstInFirstOut | crates/m3-dispatcher/src/lib.rs:420-463 | of each length class the accepted jobs are, in order of acceptance, those drained, those in the bucket, the one in hand and those in the channel |
| SchedulerRuns.RunsAreBounded | crates/m3-dispatcher/src/lib.rs:774-812 | the channel never exceeds its capacity, every batch and running task is within the token cap or one job, and the window stays open only over one job or less than a batch |
| SchedulerRuns.WindowClosesEarlyIff | crates/m3-dispatcher/src/lib.rs:774-812 | a push closes the window exactly when it is not its first and the buckets then hold a batch's tokens |
| SchedulerRuns.SendAcceptsIff | crates/m3-dispatcher/src/lib.rs:575-592 | a submission is accepted exactly when the dispatcher is open and the channel has room, and is otherwise turned away |
| Displacement.DisplacementPermutation | crates/m3-vector/src/displacement.rs:25-74 | the swap walk with its front-drained deque computes the walk that looks each nearest primary up anew |
| Displacement.ApplyInPlace | crates/m3-vector/src/displacement.rs:86-106 | the cycle walk leaves `old[perm[i]]` at every index and the identity in `perm`, for every permutation |
| Displacement.EnforceDisplacementGuard | crates/m3-vector/src/displacement.rs:80-106 | the array ends as the guarded order of what it held |
| Displacement.GuardedIsPermutation | crates/m3-vector/src/displacement.rs:25-74 | the guard's answer is a permutation |
| Displacement.GuardedConforms | crates/m3-vector/src/displacement.rs:25-74 | after it, every expansion at a protected rank has no primary below or passes against the nearest |
| Displacement.GuardedIsFair | crates/m3-vector/src/displacement.rs:25-74 | primaries keep their relative order and never move down |
| Displacement.IdentityIffConforming | crates/m3-vector/src/displacement.rs:25-74 | nothing moves exactly when the guard is off or the rows already conform |
| Displacement.EveryMoveIsForced | crates/m3-vector/src/displacement.rs:25-74 | a row that moves up is a primary at a protected rank, past an expansion from there or above that failed the test against it |
| Displacement.GuardIsIdempotent | crates/m3-vector/src/displacement.rs:25-106 | guarding twice is guarding once |
| Displacement.MarginIsKept | crates/m3-vector/src/displacement.rs:48-66 | with the shipped margin test: a protected expansion's score is at least the margin times the nearest primary's, which is positive |
| Displacement.ShippedGuardStandsStillIff | crates/m3-vector/src/displacement.rs:25-74 | with the shipped test: nothing moves exactly when the margin is at most 1 or every protected expansion above a primary has a positive score of at least the margin times that primary's positive score |
| Graph.Search | crates/m3-graph/src/lib.rs:73-96 | breadth-first search finds exactly the nodes some walk within the hop limit leads to, once each, at their true distance, nearest first |
| Graph.FindPath | crates/m3-graph/src/lib.rs:99-130 | a path is found exactly when one exists, and is one of fewest hops |
| Graph.WalkBack | crates/m3-graph/src/lib.rs:119-130 | the walk back through the predecessors ends, and gives a real path |
| Graph.PathHopsAreDistance | crates/m3-graph/src/lib.rs:73-130 | the hop count of a shortest path is the distance the search reports |
| Graph.GraphIndex.AddNode | crates/m3-graph/src/lib.rs:40-47 | a known id keeps its node, a new one gets the next |
| Graph.GraphIndex.AddEdge | crates/m3-graph/src/lib.rs:50-61 | both ends are added if missing, and one edge: two ids are linked exactly if they were or are these two |
| Graph.GraphIndex.OneHopIsAnEdge | crates/m3-graph/src/lib.rs:73-96 | an id is one hop away exactly when it is another one and an inserted edge leads to it |
| Graph.GraphIndex.NeighborsWithin | crates/m3-graph/src/lib.rs:73-96 | by id and along the inserted edges: exactly the ids that some edges lead to within the hops, with the least number of them, nearest first; nothing for an unknown start |
| Graph.GraphIndex.ShortestPath | crates/m3-graph/src/lib.rs:99-130 | by id: a path exactly when some edges lead there, from one id to the other, each step an inserted edge, of fewest hops |
| Graph.GraphIndex.Expand | crates/m3-graph/src/lib.rs:138-160 | the first `limit` of the ids that are no seeds, in the order the seeds' searches find them, each once; all of them when fewer; none that a search finds earlier is left out |
| Quantise.CodeIsRounded | crates/m3-vector/src/index.rs:135-147 | the clamp to the int8 range never bites |
| Quantise.RoundError | crates/m3-vector/src/index.rs:146-146 | rounding goes to the nearest integer, halves away from zero |
| Quantise.QuantisationError | crates/m3-vector/src/index.rs:135-147 | the step is at most 1/127 and every stored component is within half a step of the unit vector's |
| Quantise.ScoreError | crates/m3-vector/src/index.rs:185-189 | the approximate score is within half a step times the query's total magnitude of the exact inner product |
| Quantise.SumAbsSquared | crates/m3-vector/src/index.rs:185-189 | the squared total magnitude is at most the dimension times the sum of squares |
| Quantise.ScoreErrorSquared | crates/m3-vector/src/index.rs:185-189 | for a unit query the squared error is at most dimension times step squared over four |
| Quantise.UnitHasNormOne | crates/m3-vector/src/index.rs:215-219 | the query a search scores with is a unit vector |
| Quantise.SearchScoreError | crates/m3-vector/src/index.rs:185-219 | so that bound holds of every score a search ranks by, against the exact cosine |
| Quantise.ZeroScoresZero | crates/m3-vector/src/index.rs:127-140 | a zero vector scores zero against everything |
| TopK.RanksIsTotalOrder | crates/m3-vector/src/index.rs:30-47 | the order of hits is total |
| TopK.PushAllIsTop | crates/m3-vector/src/index.rs:226-235 | a bounded heap holds the `k` greatest of everything pushed on it |
| TopK.MergeIsTop | crates/m3-vector/src/index.rs:236-246 | draining one bounded heap into another, in any order, keeps the `k` greatest of both inputs |
| TopK.TopMeaning | crates/m3-vector/src/index.rs:226-246 | kept and left-out hits are the input, as many as possible are kept, and each left out ranks below each kept |
| TopK.TiesKeepTheLargerKey | crates/m3-vector/src/index.rs:40-47 | of two hits with one score the larger key survives the boundary |
| TopK.ListingMeaning | crates/m3-vector/src/index.rs:247-249 | the answer is listed by score descending, then key ascending, with nothing added or dropped |
| TopK.ListingIsUnique | crates/m3-vector/src/index.rs:247-249 | there is one such list, so heap order cannot show through |
| VectorIndex.Check | crates/m3-vector/src/index.rs:87-103 | a vector passes exactly when it has the dimension and only finite components; the error names the mismatch, or the key and the first bad component |
| VectorIndex.VectorIndex.New | crates/m3-vector/src/index.rs:50-61 | a new index stands for the empty map; dimension zero is refused |
| VectorIndex.VectorIndex.Store | crates/m3-vector/src/index.rs:135-163 | storing replaces exactly one key's row by the quantised vector, over the flat parallel vectors |
| VectorIndex.VectorIndex.WriteRow | crates/m3-vector/src/index.rs:144-148 | one row of the flat codes is overwritten and no other component |
| VectorIndex.VectorIndex.Upsert | crates/m3-vector/src/index.rs:129-133 | a good vector is stored, a bad one changes nothing |
| VectorIndex.VectorIndex.CheckAll | crates/m3-vector/src/index.rs:118-120 | the batch check passes exactly when all is finite, and names the first corrupt row's key |
| VectorIndex.VectorIndex.UpsertMany | crates/m3-vector/src/index.rs:108-125 | a batch whose size is the number of keys times the dimension and whose components are finite is stored row by row; else the index is unchanged and the error names the first fault |
| VectorIndex.BatchKeepsOthers | crates/m3-vector/src/index.rs:121-124 | a batch leaves keys it does not name alone |
| VectorIndex.LastRowWins | crates/m3-vector/src/index.rs:121-124 | of rows with one key the last counts |
| VectorIndex.BatchStoresRows | crates/m3-vector/src/index.rs:108-125 | a key that no later row names ends up with the quantised vector that is its own stretch of the floats |
| VectorIndex.VectorIndex.Remove | crates/m3-vector/src/index.rs:166-183 | swap-remove deletes exactly that key from the map and tells whether it was there |
| VectorIndex.VectorIndex.Candidates | crates/m3-vector/src/index.rs:220-226 | the allowed keys that are present, in order and as often as named, or all rows |
| VectorIndex.Merge | crates/m3-vector/src/index.rs:236-246 | the merge loop, taking hits in any order, keeps the `k` greatest of both sides |
| VectorIndex.VectorIndex.Reduce | crates/m3-vector/src/index.rs:227-246 | any way of cutting the rows into chunks and joining their heaps gives the `k` greatest of all |
| VectorIndex.VectorIndex.Search | crates/m3-vector/src/index.rs:193-251 | wrong dimension and the first non-finite component are errors; else the `k` best of the map's candidates, best first, whatever the schedule; without an allowed list, of all keys in whatever order they are listed |
| VectorIndex.AnswerIsBest | crates/m3-vector/src/index.rs:193-251 | at most `k` hits, each of a listed present key with its score, by score descending and then key; a listed present key is left out only if `k` hits are answered and each has a greater score, or the same and a larger key |
| VectorIndex.AnswerForgetsOrder | crates/m3-vector/src/index.rs:220-249 | the answer depends on which keys are listed and how often, not on their order |
| VectorIndex.AnswerScoresAreNear | crates/m3-vector/src/index.rs:185-251 | every hit answered is of a listed key that is present, and its score is within the quantisation bound of the exact cosine of the vector stored under it |
| Windows.LargestFittingEnd | crates/m3-embed-llamacpp/src/windows.rs:66-87 | for any counter, the end was seen to fit and one character more not to, unless it is the cap or one oversized character; when it stands still |
| Windows.SmallestOverlapStart | crates/m3-embed-llamacpp/src/windows.rs:91-114 | the next start was seen to keep within the overlap and one character more not to |
| Windows.Iterate | crates/m3-embed-llamacpp/src/windows.rs:47-61 | one iteration, and exactly when it fails to advance |
| Windows.PlanWindows | crates/m3-embed-llamacpp/src/windows.rs:34-62 | for any counter and any budget, watched for any number of iterations: the planner ends with a plan or with the counter's first error; wherever it advances, one iteration per character is enough; at budget 0 it does exactly what `ZeroBudget` says |
| Windows.CutAll | crates/m3-embed-llamacpp/src/windows.rs:46-61 | the loop of the planner, likewise |
| Windows.PlanAdvances | crates/m3-embed-llamacpp/src/windows.rs:34-62 | at most one window per character, from the start of the text to its end, starts strictly increasing without a gap |
| Windows.PlanIsTight | crates/m3-embed-llamacpp/src/windows.rs:66-87 | every window was seen to fit, and one character more not to, unless it ends with the text or at the cap; or it is one character that was seen not to fit |
| Windows.PlanCovers | crates/m3-embed-llamacpp/src/windows.rs:34-62 | the windows cover the text |
| Windows.EndIsLargest | crates/m3-embed-llamacpp/src/windows.rs:66-87 | under a steady monotone counter each end is the largest that fits below the cap |
| Windows.StartIsSmallest | crates/m3-embed-llamacpp/src/windows.rs:91-114 | and each next start the smallest within the overlap |
| Windows.ZeroBudgetEndsIff | crates/m3-embed-llamacpp/src/windows.rs:72-74 | at budget 0, under a counter that repeats itself, the loop ends exactly when no free empty slice stands before every failing one |
| Packer.WithFloors | crates/m3-embed-llamacpp/src/lib.rs:217-268 | from any arguments a safe configuration, and a safe one is left as it is |
| Packer.FloorsAreLeast | crates/m3-embed-llamacpp/src/lib.rs:217-268 | no setting is raised further than safety asks |
| Packer.PackChunk | crates/m3-embed-llamacpp/src/lib.rs:943-968 | a chunk is as long as the rules allow and no longer |
| Packer.ChunkIsSafe | crates/m3-embed-llamacpp/src/lib.rs:943-968 | a chunk holds at most `seq_max` sequences and at most `n_ctx` tokens, so the encoder's bound holds |
| Packer.OverShareIff | crates/m3-embed-llamacpp/src/lib.rs:920-922 | a text is above a sequence's share exactly when `seq_max` times its length is more than the context |
| Packer.ChunkIsFull | crates/m3-embed-llamacpp/src/lib.rs:943-968 | a chunk closes only when the texts are used up, it has `seq_max` sequences, the next text would overflow the context, or its one text is above its share |
| Packer.EveryCallIsSafe | crates/m3-embed-llamacpp/src/lib.rs:217-268 | that, for every call and every constructor argument |
| Packer.LongTextMayShare | crates/m3-embed-llamacpp/src/lib.rs:944-956 | behind one short text, with room in the context, a long text is never encoded alone |
| Packer.LongTextAloneInChunkIff | crates/m3-embed-llamacpp/src/lib.rs:944-956 | of any chunk with a text above a sequence's share, that text is alone in it exactly when it comes first |
| Packer.LongTextAloneIff | crates/m3-embed-llamacpp/src/lib.rs:943-968 | in any batch, a text above a sequence's share is encoded alone exactly when it is the first, or the chunk of the text before it must close in front of it |
| Packer.PackingIsUnique | crates/m3-embed-llamacpp/src/lib.rs:943-968 | texts and configuration determine the chunks |
| Packer.TokenizeAll | crates/m3-embed-llamacpp/src/lib.rs:923-939 | the first text that cannot be tokenised or is too long refuses the batch, naming its index |
| Packer.Embed | crates/m3-embed-llamacpp/src/lib.rs:908-1016 | refusals come before any encoder call; otherwise the chunks split the texts in order and every row is read from its own chunk |
| Packer.RowBelongsToText | crates/m3-embed-llamacpp/src/lib.rs:941-1015 | every text is in exactly one chunk, and row `i` is what the encoder gave for text `i` |
| Carets.BasicRoundTrip | crates/m3-config/src/settings.rs:283-294 | what is written as a basic string reads back, under the String section of TOML v1.0.0, as itself |
| Carets.CaretsToToml | crates/m3-config/src/settings.rs:255-309 | the single pass over the characters computes the recursive translation |
| Carets.ScanCaret | crates/m3-config/src/settings.rs:260-282 | the inner loop reads one caret string, or finds it unclosed |
| Carets.ScanQuoted | crates/m3-config/src/settings.rs:295-302 | a quoted string is skipped to its closing quote, a backslash hiding a character only between double quotes |
| Carets.ScanMeaning | crates/m3-config/src/settings.rs:295-302 | the scan stops at the first quote of the opening kind, between double quotes the first with an even number of backslashes before it, and runs off the end exactly when there is none |
| Carets.CaretRoundTrip | crates/m3-config/src/settings.rs:252-294 | every string with its carets doubled, between carets, becomes a basic string that decodes to it |
| Carets.CaretFreeUnchanged | crates/m3-config/src/settings.rs:255-309 | text without carets stays as it is |
| Carets.TranslateDistributes | crates/m3-config/src/settings.rs:255-309 | translation works segment by segment over caret strings, quoted strings and other text |
| Carets.EverySettingHasSegments | crates/m3-config/src/settings.rs:255-309 | and every text has such segments |
| Carets.RefusedIff | crates/m3-config/src/settings.rs:264-270 | a text is refused exactly when a caret string in it is never closed, and the place named is where it opens |
| Spans.DecodeSpans | crates/m3-ner-ort/src/lib.rs:71-132 | the decoded spans are candidates, sorted, pairwise disjoint, and a candidate is left out only for an overlapping kept one that outranks it |
| Spans.Collect | crates/m3-ner-ort/src/lib.rs:87-103 | the candidates are exactly the scores at or above the threshold, in reading order |
| Spans.CandidateIff | crates/m3-ner-ort/src/lib.rs:87-103 | start, width and label index the scores in row-major order |
| Spans.OverlapIff | crates/m3-ner-ort/src/lib.rs:115-117 | two spans overlap exactly when they share a token |
| Spans.Resolve | crates/m3-ner-ort/src/lib.rs:114-129 | the greedy pass |
| Spans.SortByRankMeaning | crates/m3-ner-ort/src/lib.rs:105-112 | the stable sort ranks by score, start, end and then label, losing nothing |
| Spans.AnswerIsUnique | crates/m3-ner-ort/src/lib.rs:71-132 | only one list meets that description |
| Spans.DuplicatesOverlap | crates/m3-ner-ort/src/lib.rs:122-128 | the separate test for duplicates can never fire |
| Spans.AcceptsIff | crates/m3-ner-ort/src/lib.rs:76-86 | a shape is accepted exactly when its product is the number of scores and that of its first two sides does not overflow |
| Spans.RightSizeRefused | crates/m3-ner-ort/src/lib.rs:76-86 | so a shape of the right size can be refused |

## Left out

- Scheduler: modelled as a state machine on values, one event per await-free stretch, not as a class; a cancelled caller, which leaves its job to be answered into a closed reply channel, is not an event.
- HubRuns: the sleep of the coalescing window is a step of its own without a duration, and a deadline passes when an event says so: nothing is said about lengths of time.
- Hub.Hub.Enter: the `waiting` counter, which a cancelled wait can leave high, is not modelled.
- Hub.Hub.Push: sequence numbers are unbounded, where the source counts in 64 bits.
- FastPath.Linearizable: steps are sequentially consistent; weak memory orderings are not modelled.
- BucketQueue.LengthBucketQueue.Push: the running total is unbounded, where the source counts in machine words.
- Graph.GraphIndex.NeighborsWithin: the order of ids at one distance is not fixed.
- VectorIndex.VectorIndex.Search: scores are real numbers; rounding of 32-bit floats, NaN payloads and the sign of zero are not modelled, and a bounded heap is the sorted list of its hits, not the array of a binary heap. The source reserves `k + 1` places per heap and panics when a huge `k` cannot be reserved; the model reserves nothing.
- Quantise.QuantisationError: the bounds are those of exact arithmetic.
- Packer.Embed: normalisation of a row is part of what the encoder gives; tokenizer, encoder and their errors are parameters.
- Windows.PlanWindows: the loop of the source has no limit on its iterations; the model watches it for `steps` of them, any number, and says what has become of it by then.
- Direct batches (`embed_batch`, `run_direct`): the stream slots they take are part of `Scheduler` and their breaker calls are calls of `FastPath`; the one backend call of a direct batch, whose rows go back to the caller that made it, is not modelled.
- The latency ring, retry delays and status wording: they only report or wait, and nothing the dispatcher decides depends on them.
- Rank fusion, hybrid scoring, full-text sanitising, the governor, settings precedence and unit files: none of the modelled components calls them, so nothing proved here rests on them.
- Sockets, HTTP, TLS, services, the file walk, llama.cpp, ONNX Runtime and the TOML parser itself: input, output and foreign code, whose answers the models take as parameters.
