/** The coalescing dispatcher as a whole (`embed_inner`, `scheduler_loop` and its batch
    tasks): a job's way from submission to its one answer, while direct batches (`run_direct`)
    compete for the same stream slots. Every await point separates two
    steps; the clock, the breaker's verdicts and the backend's answers are the events' own. */
module Scheduler {
  import opened Options
  import opened BucketQueue
  import opened BatchTask

  datatype Config = Config(capacity: nat, ceilings: seq<nat>, maxBatchTokens: nat, streams: nat)

  /** Where the scheduler loop stands, and the jobs in its hands. */
  datatype Stage =
    | Idle
    | Received(job: Job, first: bool)    // taken from the channel, not yet pushed
    | Collecting                         // the coalescing window is open
    | Flushing
    | Batched(batch: seq<Job>)           // about to drop jobs past their deadline
    | Live(size: nat, batch: seq<Job>)   // about to ask the breaker
    | Admitted(size: nat, batch: seq<Job>)  // about to take a stream slot
    | Handled(size: nat)                 // about to drop its `Dequeue`
    | Stopped

  datatype System = System(
    submitting: seq<Job>,    // counted in `queued`, not yet sent
    rejecting: seq<Job>,     // refused by the channel, not yet uncounted
    channel: seq<Job>,
    open: bool,
    stage: Stage,
    pending: seq<seq<Job>>,
    tasks: seq<seq<Job>>,    // running batch tasks
    permits: nat,
    direct: nat,             // slots that direct batches hold
    queued: int,
    // History: ids ever submitted; jobs the channel accepted, also in order; jobs drained, in
    // order; and the answers given.
    issued: set<nat>,
    accepted: set<Job>,
    arrived: seq<Job>,
    drained: seq<Job>,
    done: seq<Job>,
    replies: seq<Reply>)

  function Init(config: Config): System
  {
    System([], [], [], true, Idle, NoJobs(|config.ceilings|), [], config.streams, 0, 0, {}, {}, [], [], [], [])
  }

  datatype Event =
    | Submit(job: Job)
    | Close
    | Send(i: nat)
    | Uncount(i: nat)
    | Recv
    | Push
    | WindowEnd
    | Drain
    | Expire(now: int)
    | Admit(allowed: bool)
    | Spawn
    | Dequeue
    | TaskCall(i: nat, answer: Answer)
    | DirectStart
    | DirectEnd

  predicate InTime(job: Job, now: int)
  {
    job.deadline == None || now < job.deadline.value
  }

  function Keep(jobs: seq<Job>, now: int, inTime: bool): seq<Job>
  {
    if jobs == [] then []
    else
      var last := jobs[|jobs| - 1];
      Keep(jobs[..|jobs| - 1], now, inTime) + if InTime(last, now) == inTime then [last] else []
  }

  function Repeat(reply: Reply, n: nat): seq<Reply>
  {
    seq(n, _ => reply)
  }

  function Expired(): Reply { Err(Backend("job deadline exceeded")) }

  function Refused(): Reply { Err(Backend("circuit breaker open")) }

  /** Jobs leave the dispatcher, each with its reply. */
  function Answer(s: System, jobs: seq<Job>, replies: seq<Reply>): System
  {
    s.(done := s.done + jobs, replies := s.replies + replies)
  }

  /** One backend call of task `i`: it answers one job it names, or all of them. */
  function AfterCall(s: System, i: nat, answer: Answer): System
    requires i < |s.tasks|
  {
    var jobs := s.tasks[i];
    var checked := CheckedRows(answer, |jobs|);
    if Peels(checked, |jobs|) then
      var p := checked.error.index.value;
      Answer(s, [jobs[p]], [Err(checked.error.(index := Some(0)))]).(tasks := s.tasks[i := Remove(jobs, p)])
    else
      Answer(s, jobs, seq(|jobs|, p requires 0 <= p < |jobs| => ReplyAt(checked, p)))
      .(tasks := Remove(s.tasks, i), permits := s.permits + 1)
  }

  function Submitted(s: System, job: Job): System
  {
    s.(submitting := s.submitting + [job], queued := s.queued + 1, issued := s.issued + {job.id})
  }

  /** `try_send`: into the bounded channel, or refused when it is full or closed. */
  function Sent(config: Config, s: System, i: nat): System
    requires i < |s.submitting|
  {
    var left := s.(submitting := Remove(s.submitting, i));
    if s.open && |s.channel| < config.capacity then
      left.(channel := s.channel + [s.submitting[i]], accepted := s.accepted + {s.submitting[i]},
            arrived := s.arrived + [s.submitting[i]])
    else
      left.(rejecting := s.rejecting + [s.submitting[i]])
  }

  function TakenFromChannel(s: System): System
    requires s.channel != []
  {
    s.(channel := s.channel[1..], stage := Received(s.channel[0], s.stage == Idle))
  }

  /** The first job of a window opens it; a later one closes it when the bucket queue holds
      enough tokens. */
  function Pushed(config: Config, s: System): System
    requires s.stage.Received?
    requires config.ceilings != [] && Sorted(config.ceilings) && |s.pending| == |config.ceilings|
  {
    var pending := PushInto(config.ceilings, s.pending, s.stage.job);
    s.(pending := pending,
       stage := if !s.stage.first && Tokens(Concat(pending)) >= config.maxBatchTokens then Flushing else Collecting)
  }

  function BatchTaken(config: Config, s: System): System
  {
    match Drained(s.pending, config.maxBatchTokens)
    case None => s.(stage := Idle)
    case Some((batch, rest)) => s.(pending := rest, stage := Batched(batch), drained := s.drained + batch)
  }

  function ExpiredAt(s: System, now: int): System
    requires s.stage.Batched?
  {
    var size, live, late := |s.stage.batch|, Keep(s.stage.batch, now, true), Keep(s.stage.batch, now, false);
    Answer(s, late, Repeat(Expired(), |late|)).(stage := if live == [] then Handled(size) else Live(size, live))
  }

  function AskedBreaker(s: System, allowed: bool): System
    requires s.stage.Live?
  {
    if allowed then s.(stage := Admitted(s.stage.size, s.stage.batch))
    else Answer(s, s.stage.batch, Repeat(Refused(), |s.stage.batch|)).(stage := Handled(s.stage.size))
  }

  function Spawned(s: System): System
    requires s.stage.Admitted? && s.permits > 0
  {
    s.(tasks := s.tasks + [s.stage.batch], permits := s.permits - 1, stage := Handled(s.stage.size))
  }

  /** The event can happen in `s`. */
  predicate Enabled(config: Config, s: System, e: Event)
  {
    match e
    case Submit(job) => s.open && job.id !in s.issued
    case Close => s.submitting == [] && s.rejecting == [] && s.direct == 0
    case Send(i) => i < |s.submitting|
    case Uncount(i) => i < |s.rejecting|
    case Recv => (s.stage == Idle || s.stage == Collecting) && (s.channel != [] || !s.open)
    case Push => s.stage.Received?
    case WindowEnd => s.stage == Collecting
    case Drain => s.stage == Flushing
    case Expire(_) => s.stage.Batched?
    case Admit(_) => s.stage.Live?
    case Spawn => s.stage.Admitted? && s.permits > 0
    case Dequeue => s.stage.Handled?
    case TaskCall(i, _) => i < |s.tasks|
    case DirectStart => s.open && s.permits > 0
    case DirectEnd => s.direct > 0
  }

  /** An event that is not possible in `s` leaves it as it is. */
  function Next(config: Config, s: System, e: Event): System
    requires config.ceilings != [] && Sorted(config.ceilings) && |s.pending| == |config.ceilings|
  {
    if !Enabled(config, s, e) then s
    else
      match e
      case Submit(job) => Submitted(s, job)
      case Close => s.(open := false)
      case Send(i) => Sent(config, s, i)
      case Uncount(i) => s.(rejecting := Remove(s.rejecting, i), queued := s.queued - 1)
      case Recv =>
        if s.channel != [] then TakenFromChannel(s) else s.(stage := if s.stage == Idle then Stopped else Flushing)
      case Push => Pushed(config, s)
      case WindowEnd => s.(stage := Flushing)
      case Drain => BatchTaken(config, s)
      case Expire(now) => ExpiredAt(s, now)
      case Admit(allowed) => AskedBreaker(s, allowed)
      case Spawn => Spawned(s)
      case Dequeue => s.(queued := s.queued - s.stage.size, stage := Flushing)
      case TaskCall(i, answer) => AfterCall(s, i, answer)
      case DirectStart => s.(permits := s.permits - 1, direct := s.direct + 1)
      case DirectEnd => s.(permits := s.permits + 1, direct := s.direct - 1)
  }

  // ---------------------------------------------------------------- where the jobs are

  function InHand(stage: Stage): seq<Job>
  {
    if stage.Received? then [stage.job] else []
  }

  function InBatch(stage: Stage): seq<Job>
  {
    if stage.Batched? || stage.Live? || stage.Admitted? then stage.batch else []
  }

  /** How many jobs the scheduler's `Dequeue` guard will take off `queued`. */
  function Guarded(stage: Stage): nat
  {
    match stage
    case Batched(batch) => |batch|
    case Live(size, _) => size
    case Admitted(size, _) => size
    case Handled(size) => size
    case _ => 0
  }

  function Of(jobs: seq<Job>, job: Job): nat
  {
    multiset(jobs)[job]
  }

  /** In how many places a job is: channel, the scheduler's hand, a bucket, the drained
      batch, a running task, answered. */
  function Places(s: System, job: Job): nat
  {
    Of(s.channel, job) + Of(InHand(s.stage), job) + Of(Concat(s.pending), job)
    + Of(InBatch(s.stage), job) + Of(Concat(s.tasks), job) + Of(s.done, job)
  }

  ghost predicate NamesOk(s: System)
  {
    && (forall job :: job in s.accepted ==> job.id in s.issued)
    && (forall i :: 0 <= i < |s.submitting| ==> s.submitting[i].id in s.issued)
    && (forall i, job :: 0 <= i < |s.submitting| && job in s.accepted ==> s.submitting[i].id != job.id)
    && (forall i, j :: 0 <= i < j < |s.submitting| ==> s.submitting[i].id != s.submitting[j].id)
    && (forall a, b :: a in s.accepted && b in s.accepted && a.id == b.id ==> a == b)
  }

  ghost predicate ShapeOk(config: Config, s: System)
  {
    && config.ceilings != [] && Sorted(config.ceilings) && |s.pending| == |config.ceilings|
    && config.streams >= 1
    && s.permits + s.direct + |s.tasks| == config.streams
    && (forall i :: 0 <= i < |s.tasks| ==> s.tasks[i] != [])
    && (s.stage == Idle || s.stage == Stopped ==> Concat(s.pending) == [])
    && (s.stage.Received? && s.stage.first ==> Concat(s.pending) == [])
    && (s.stage == Stopped ==> s.channel == [] && !s.open)
    && (!s.open ==> s.submitting == [] && s.rejecting == [] && s.direct == 0)
    && (s.stage.Batched? || s.stage.Live? || s.stage.Admitted? ==> s.stage.batch != [])
    && |s.done| == |s.replies|
  }

  ghost predicate CountOk(s: System)
  {
    s.queued == |s.submitting| + |s.rejecting| + |s.channel| + |InHand(s.stage)|
                + |Concat(s.pending)| + Guarded(s.stage)
  }

  ghost predicate Inv(config: Config, s: System)
  {
    ShapeOk(config, s) && NamesOk(s) && CountOk(s) && OnePlace(s)
  }

  ghost predicate OnePlace(s: System)
  {
    forall job :: Places(s, job) == if job in s.accepted then 1 else 0
  }

  lemma InitIsOk(config: Config)
    requires config.ceilings != [] && Sorted(config.ceilings) && config.streams >= 1
    ensures Inv(config, Init(config))
  {
    ConcatEmpty(NoJobs(|config.ceilings|));
  }

  // ---------------------------------------------------------------- bookkeeping

  lemma OfAppend(a: seq<Job>, b: seq<Job>, job: Job)
    ensures Of(a + b, job) == Of(a, job) + Of(b, job)
  {}

  lemma RemoveSplits<T>(s: seq<T>, i: nat)
    requires i < |s|
    ensures |Remove(s, i)| == |s| - 1
    ensures forall k :: 0 <= k < |Remove(s, i)| ==> Remove(s, i)[k] == s[if k < i then k else k + 1]
  {}

  lemma OfRemove(jobs: seq<Job>, i: nat, job: Job)
    requires i < |jobs|
    ensures Of(jobs, job) == Of(Remove(jobs, i), job) + Of([jobs[i]], job)
  {
    assert jobs == jobs[..i] + [jobs[i]] + jobs[i + 1..];
  }

  lemma OfFirst(jobs: seq<Job>, job: Job)
    requires jobs != []
    ensures Of(jobs, job) == Of([jobs[0]], job) + Of(jobs[1..], job)
  {
    assert jobs == [jobs[0]] + jobs[1..];
  }

  lemma OfLast(jobs: seq<Job>, job: Job)
    requires jobs != []
    ensures Of(jobs, job) == Of(jobs[..|jobs| - 1], job) + Of([jobs[|jobs| - 1]], job)
  {
    assert jobs == jobs[..|jobs| - 1] + [jobs[|jobs| - 1]];
  }

  lemma {:induction false} OfKeep(jobs: seq<Job>, now: int, job: Job)
    ensures Of(jobs, job) == Of(Keep(jobs, now, true), job) + Of(Keep(jobs, now, false), job)
    ensures |jobs| == |Keep(jobs, now, true)| + |Keep(jobs, now, false)|
  {
    if jobs != [] {
      var init, last := jobs[..|jobs| - 1], jobs[|jobs| - 1];
      OfKeep(init, now, job);
      OfLast(jobs, job);
      OfAppend(Keep(init, now, InTime(last, now)), [last], job);
    }
  }

  lemma {:induction false} ConcatAppend(tasks: seq<seq<Job>>, jobs: seq<Job>)
    ensures Concat(tasks + [jobs]) == Concat(tasks) + jobs
  {
    if tasks == [] {
      assert ([] + [jobs])[1..] == [];
    } else {
      ConcatAppend(tasks[1..], jobs);
      assert (tasks + [jobs])[1..] == tasks[1..] + [jobs];
    }
  }

  lemma OfReplace(tasks: seq<seq<Job>>, i: nat, jobs: seq<Job>, job: Job)
    requires i < |tasks|
    ensures Of(Concat(tasks[i := jobs]), job) + Of(tasks[i], job) == Of(Concat(tasks), job) + Of(jobs, job)
    ensures |Concat(tasks[i := jobs])| + |tasks[i]| == |Concat(tasks)| + |jobs|
  {
    ConcatUpdate(tasks, i, jobs);
    var a, c := Concat(tasks[..i]), Concat(tasks[i + 1..]);
    OfAppend(a + tasks[i], c, job);
    OfAppend(a, tasks[i], job);
    OfAppend(a + jobs, c, job);
    OfAppend(a, jobs, job);
  }

  lemma {:induction false} OfConcatRemove(tasks: seq<seq<Job>>, i: nat, job: Job)
    requires i < |tasks|
    ensures Of(Concat(Remove(tasks, i)), job) + Of(tasks[i], job) == Of(Concat(tasks), job)
    ensures |Concat(Remove(tasks, i))| + |tasks[i]| == |Concat(tasks)|
  {
    if i == 0 {
      assert Remove(tasks, 0) == tasks[1..];
      OfAppend(tasks[0], Concat(tasks[1..]), job);
    } else {
      OfConcatRemove(tasks[1..], i - 1, job);
      var rest := Remove(tasks[1..], i - 1);
      assert Remove(tasks, i) == [tasks[0]] + rest;
      assert Remove(tasks, i)[1..] == rest;
      OfAppend(tasks[0], Concat(tasks[1..]), job);
      OfAppend(tasks[0], Concat(rest), job);
    }
  }

  // ---------------------------------------------------------------- no event loses or doubles a job

  lemma PushMoves(config: Config, s: System, job: Job)
    requires ShapeOk(config, s) && s.stage.Received?
    ensures Places(Pushed(config, s), job) == Places(s, job)
    ensures |Concat(Pushed(config, s).pending)| == |Concat(s.pending)| + 1
  {
    hide Tokens, Concat;
    var b := BucketFor(config.ceilings, s.stage.job.tokenLen);
    OfReplace(s.pending, b, s.pending[b] + [s.stage.job], job);
    OfAppend(s.pending[b], [s.stage.job], job);
  }

  lemma DrainMoves(config: Config, s: System, job: Job)
    requires s.stage == Flushing
    ensures Places(BatchTaken(config, s), job) == Places(s, job)
  {
    DrainedMeaning(s.pending, config.maxBatchTokens);
    match Drained(s.pending, config.maxBatchTokens)
    case None =>
    case Some((batch, rest)) => OfAppend(batch, Concat(rest), job);
  }

  /** A drain hands the scheduler a non-empty batch, or finds nothing pending. */
  lemma DrainHands(config: Config, s: System)
    requires s.stage == Flushing
    ensures var s' := BatchTaken(config, s);
            && |s'.pending| == |s.pending|
            && if s'.stage.Batched? then
                 && s'.stage.batch != []
                 && s' == s.(pending := s'.pending, stage := Batched(s'.stage.batch),
                             drained := s.drained + s'.stage.batch)
                 && |Concat(s'.pending)| + |s'.stage.batch| == |Concat(s.pending)|
               else s' == s.(stage := Idle) && Concat(s.pending) == []
  {
    DrainedMeaning(s.pending, config.maxBatchTokens);
  }

  lemma ExpireMoves(s: System, now: int, job: Job)
    requires s.stage.Batched?
    ensures Places(ExpiredAt(s, now), job) == Places(s, job)
  {
    OfKeep(s.stage.batch, now, job);
    OfAppend(s.done, Keep(s.stage.batch, now, false), job);
  }

  lemma AdmitMoves(s: System, allowed: bool, job: Job)
    requires s.stage.Live?
    ensures Places(AskedBreaker(s, allowed), job) == Places(s, job)
  {
    OfAppend(s.done, s.stage.batch, job);
  }

  lemma SpawnMoves(s: System, job: Job)
    requires s.stage.Admitted? && s.permits > 0
    ensures Places(Spawned(s), job) == Places(s, job)
    ensures |Concat(Spawned(s).tasks)| == |Concat(s.tasks)| + |s.stage.batch|
  {
    ConcatAppend(s.tasks, s.stage.batch);
    OfAppend(Concat(s.tasks), s.stage.batch, job);
  }

  lemma PeelMoves(s: System, i: nat, p: nat, reply: Reply, job: Job)
    requires i < |s.tasks| && p < |s.tasks[i]|
    ensures var s' := Answer(s, [s.tasks[i][p]], [reply]).(tasks := s.tasks[i := Remove(s.tasks[i], p)]);
            Places(s', job) == Places(s, job) && |Concat(s'.tasks)| == |Concat(s.tasks)| - 1
  {
    var jobs := s.tasks[i];
    OfReplace(s.tasks, i, Remove(jobs, p), job);
    OfRemove(jobs, p, job);
    RemoveSplits(jobs, p);
    OfAppend(s.done, [jobs[p]], job);
  }

  lemma EndMoves(s: System, i: nat, replies: seq<Reply>, job: Job)
    requires i < |s.tasks|
    ensures var s' := Answer(s, s.tasks[i], replies).(tasks := Remove(s.tasks, i), permits := s.permits + 1);
            Places(s', job) == Places(s, job) && |Concat(s'.tasks)| == |Concat(s.tasks)| - |s.tasks[i]|
  {
    OfConcatRemove(s.tasks, i, job);
    OfAppend(s.done, s.tasks[i], job);
  }

  lemma TaskMoves(s: System, i: nat, answer: Answer, job: Job)
    requires i < |s.tasks| && s.tasks[i] != []
    ensures Places(AfterCall(s, i, answer), job) == Places(s, job)
    ensures |Concat(AfterCall(s, i, answer).tasks)| < |Concat(s.tasks)|
  {
    var jobs := s.tasks[i];
    var checked := CheckedRows(answer, |jobs|);
    if Peels(checked, |jobs|) {
      PeelMoves(s, i, checked.error.index.value, Err(checked.error.(index := Some(0))), job);
    } else {
      EndMoves(s, i, seq(|jobs|, p requires 0 <= p < |jobs| => ReplyAt(checked, p)), job);
    }
  }

  lemma RecvMoves(s: System, job: Job)
    requires s.channel != [] && (s.stage == Idle || s.stage == Collecting)
    ensures Places(TakenFromChannel(s), job) == Places(s, job)
  {
    OfFirst(s.channel, job);
  }

  /** An accepted submission enters one place; a refused one enters none. */
  lemma SendEnters(config: Config, s: System, i: nat, job: Job)
    requires i < |s.submitting| && s.submitting[i] !in s.accepted && OnePlace(s)
    ensures Places(Sent(config, s, i), job) == if job in Sent(config, s, i).accepted then 1 else 0
  {
    OfAppend(s.channel, [s.submitting[i]], job);
  }

  // ---------------------------------------------------------------- every event keeps the accounts

  /** A step that leaves submissions alone and moves every accepted job to some place. */
  lemma MovingKeepsInv(config: Config, s: System, s': System)
    requires Inv(config, s) && ShapeOk(config, s') && CountOk(s')
    requires s'.submitting == s.submitting && s'.accepted == s.accepted && s'.issued == s.issued
    requires forall job :: Places(s', job) == Places(s, job)
    ensures Inv(config, s')
  {}

  lemma SubmitKeepsInv(config: Config, s: System, job: Job)
    requires Inv(config, s) && Enabled(config, s, Submit(job))
    ensures Inv(config, Submitted(s, job))
  {
    SubmitKeepsNames(s, job);
    forall other ensures Places(Submitted(s, job), other) == Places(s, other) {}
  }

  lemma SubmitKeepsNames(s: System, job: Job)
    requires NamesOk(s) && job.id !in s.issued
    ensures NamesOk(Submitted(s, job))
  {}

  lemma SendKeepsNames(config: Config, s: System, i: nat)
    requires NamesOk(s) && i < |s.submitting|
    ensures NamesOk(Sent(config, s, i)) && s.submitting[i] !in s.accepted
  {
    RemoveSplits(s.submitting, i);
  }

  lemma SendKeepsInv(config: Config, s: System, i: nat)
    requires Inv(config, s) && i < |s.submitting|
    ensures Inv(config, Sent(config, s, i))
  {
    SendKeepsNames(config, s, i);
    RemoveSplits(s.submitting, i);
    forall job ensures Places(Sent(config, s, i), job) == if job in Sent(config, s, i).accepted then 1 else 0 {
      SendEnters(config, s, i, job);
    }
  }

  /** A step that touches only counters and the stage, with no job in hand or batch. */
  lemma QuietKeepsInv(config: Config, s: System, s': System)
    requires Inv(config, s) && ShapeOk(config, s') && CountOk(s')
    requires s' == s.(rejecting := s'.rejecting, open := s'.open, stage := s'.stage, queued := s'.queued,
                      permits := s'.permits, direct := s'.direct)
    requires InHand(s'.stage) == InHand(s.stage) && InBatch(s'.stage) == InBatch(s.stage)
    ensures Inv(config, s')
  {
    forall job ensures Places(s', job) == Places(s, job) {}
  }

  lemma UncountKeepsInv(config: Config, s: System, i: nat)
    requires Inv(config, s) && i < |s.rejecting|
    ensures Inv(config, s.(rejecting := Remove(s.rejecting, i), queued := s.queued - 1))
  {
    RemoveSplits(s.rejecting, i);
    QuietKeepsInv(config, s, s.(rejecting := Remove(s.rejecting, i), queued := s.queued - 1));
  }

  lemma RecvKeepsInv(config: Config, s: System)
    requires Inv(config, s) && s.channel != [] && (s.stage == Idle || s.stage == Collecting)
    ensures Inv(config, TakenFromChannel(s))
  {
    forall job ensures Places(TakenFromChannel(s), job) == Places(s, job) { RecvMoves(s, job); }
    MovingKeepsInv(config, s, TakenFromChannel(s));
  }

  lemma PushKeepsInv(config: Config, s: System)
    requires Inv(config, s) && s.stage.Received?
    ensures Inv(config, Pushed(config, s))
  {
    forall job ensures Places(Pushed(config, s), job) == Places(s, job) { PushMoves(config, s, job); }
    PushMoves(config, s, s.stage.job);
    MovingKeepsInv(config, s, Pushed(config, s));
  }

  lemma DrainKeepsInv(config: Config, s: System)
    requires Inv(config, s) && s.stage == Flushing
    ensures Inv(config, BatchTaken(config, s))
  {
    forall job ensures Places(BatchTaken(config, s), job) == Places(s, job) { DrainMoves(config, s, job); }
    DrainHands(config, s);
    MovingKeepsInv(config, s, BatchTaken(config, s));
  }

  lemma ExpireKeepsInv(config: Config, s: System, now: int)
    requires Inv(config, s) && s.stage.Batched?
    ensures Inv(config, ExpiredAt(s, now))
  {
    hide Places, NamesOk, Keep;
    ExpireKeepsShape(config, s, now);
    forall job ensures Places(ExpiredAt(s, now), job) == Places(s, job) { ExpireMoves(s, now, job); }
    MovingKeepsInv(config, s, ExpiredAt(s, now));
  }

  lemma ExpireKeepsShape(config: Config, s: System, now: int)
    requires ShapeOk(config, s) && CountOk(s) && s.stage.Batched?
    ensures ShapeOk(config, ExpiredAt(s, now)) && CountOk(ExpiredAt(s, now))
  {
    hide Keep;
  }

  lemma AdmitKeepsInv(config: Config, s: System, allowed: bool)
    requires Inv(config, s) && s.stage.Live?
    ensures Inv(config, AskedBreaker(s, allowed))
  {
    forall job ensures Places(AskedBreaker(s, allowed), job) == Places(s, job) { AdmitMoves(s, allowed, job); }
    MovingKeepsInv(config, s, AskedBreaker(s, allowed));
  }

  lemma SpawnKeepsInv(config: Config, s: System)
    requires Inv(config, s) && s.stage.Admitted? && s.permits > 0
    ensures Inv(config, Spawned(s))
  {
    forall job ensures Places(Spawned(s), job) == Places(s, job) { SpawnMoves(s, job); }
    MovingKeepsInv(config, s, Spawned(s));
  }

  lemma TaskKeepsShape(config: Config, s: System, i: nat, answer: Answer)
    requires ShapeOk(config, s) && i < |s.tasks|
    ensures ShapeOk(config, AfterCall(s, i, answer))
  {
    RemoveSplits(s.tasks, i);
    var jobs := s.tasks[i];
    var checked := CheckedRows(answer, |jobs|);
    if Peels(checked, |jobs|) { RemoveSplits(jobs, checked.error.index.value); }
  }

  lemma TaskKeepsInv(config: Config, s: System, i: nat, answer: Answer)
    requires Inv(config, s) && i < |s.tasks|
    ensures Inv(config, AfterCall(s, i, answer))
  {
    forall job ensures Places(AfterCall(s, i, answer), job) == Places(s, job) { TaskMoves(s, i, answer, job); }
    TaskKeepsShape(config, s, i, answer);
    MovingKeepsInv(config, s, AfterCall(s, i, answer));
  }

  /** The events that move no job: closing, the end of a window, dropping the guard. */
  lemma QuietEventKeepsInv(config: Config, s: System, e: Event)
    requires Inv(config, s) && Enabled(config, s, e)
    requires e.Close? || e.WindowEnd? || e.Dequeue? || (e.Recv? && s.channel == []) || e.DirectStart? || e.DirectEnd?
    ensures Inv(config, Next(config, s, e))
  {
    QuietKeepsInv(config, s, Next(config, s, e));
  }

  lemma NextKeepsInv(config: Config, s: System, e: Event)
    requires Inv(config, s)
    ensures Inv(config, Next(config, s, e))
  {
    if Enabled(config, s, e) {
      match e
      case Submit(job) => SubmitKeepsInv(config, s, job);
      case Send(i) => SendKeepsInv(config, s, i);
      case Uncount(i) => UncountKeepsInv(config, s, i);
      case Recv => if s.channel != [] { RecvKeepsInv(config, s); } else { QuietEventKeepsInv(config, s, e); }
      case Push => PushKeepsInv(config, s);
      case Drain => DrainKeepsInv(config, s);
      case Expire(now) => ExpireKeepsInv(config, s, now);
      case Admit(allowed) => AdmitKeepsInv(config, s, allowed);
      case Spawn => SpawnKeepsInv(config, s);
      case TaskCall(i, answer) => TaskKeepsInv(config, s, i, answer);
      case _ => QuietEventKeepsInv(config, s, e);
    }
  }

  // ---------------------------------------------------------------- whole runs

  function Exec(config: Config, events: seq<Event>): (s: System)
    requires config.ceilings != [] && Sorted(config.ceilings) && config.streams >= 1
    ensures Inv(config, s)
  {
    InitIsOk(config);
    if events == [] then Init(config)
    else
      var before := Exec(config, events[..|events| - 1]);
      NextKeepsInv(config, before, events[|events| - 1]);
      Next(config, before, events[|events| - 1])
  }

  /** In every state of every run a job the channel accepted is in exactly one place, so it
      is never answered twice; a job it did not accept is in none; every answer is a reply;
      and `queued` counts exactly what is on its way to the backend. */
  lemma EveryJobHasOnePlace(config: Config, events: seq<Event>, job: Job)
    requires config.ceilings != [] && Sorted(config.ceilings) && config.streams >= 1
    ensures var s := Exec(config, events);
            && Places(s, job) == (if job in s.accepted then 1 else 0)
            && Of(s.done, job) <= 1 && |s.done| == |s.replies|
            && (forall other :: other in s.accepted && job in s.accepted && other.id == job.id ==> other == job)
            && s.queued == |s.submitting| + |s.rejecting| + |s.channel| + |InHand(s.stage)|
                           + |Concat(s.pending)| + Guarded(s.stage)
  {}

  // ---------------------------------------------------------------- every job gets its answer

  predicate Internal(e: Event)
  {
    !e.Submit? && !e.Close? && !e.DirectStart?
  }

  function StageRank(stage: Stage): nat
  {
    match stage
    case Stopped => 0
    case Idle => 1
    case Flushing => 2
    case Collecting => 3
    case Handled(_) => 3
    case Admitted(_, batch) => 4 + 2 * |batch|
    case Live(_, batch) => 5 + 2 * |batch|
    case Batched(batch) => 6 + 2 * |batch|
    case Received(_, _) => 11
  }

  /** How far all jobs are from their answers. */
  function Distance(s: System): nat
  {
    13 * |s.submitting| + |s.rejecting| + 11 * |s.channel| + StageRank(s.stage)
    + 7 * |Concat(s.pending)| + |Concat(s.tasks)| + s.direct
  }

  lemma SendCloser(config: Config, s: System, i: nat)
    requires i < |s.submitting|
    ensures Distance(Sent(config, s, i)) < Distance(s)
  {
    RemoveSplits(s.submitting, i);
  }

  lemma PushCloser(config: Config, s: System)
    requires ShapeOk(config, s) && s.stage.Received?
    ensures Distance(Pushed(config, s)) < Distance(s)
  {
    PushMoves(config, s, s.stage.job);
  }

  lemma DrainCloser(config: Config, s: System)
    requires s.stage == Flushing
    ensures Distance(BatchTaken(config, s)) < Distance(s)
  {
    DrainHands(config, s);
  }

  lemma ExpireCloser(s: System, now: int)
    requires s.stage.Batched?
    ensures Distance(ExpiredAt(s, now)) < Distance(s)
  {
    KeepShrinks(s.stage.batch, now);
    assert StageRank(ExpiredAt(s, now).stage) < StageRank(s.stage);
  }

  lemma {:induction false} KeepShrinks(jobs: seq<Job>, now: int)
    ensures |Keep(jobs, now, true)| <= |jobs|
  {
    if jobs != [] { KeepShrinks(jobs[..|jobs| - 1], now); }
  }

  lemma SpawnCloser(s: System)
    requires s.stage.Admitted? && s.permits > 0 && s.stage.batch != []
    ensures Distance(Spawned(s)) < Distance(s)
  {
    SpawnMoves(s, s.stage.batch[0]);
  }

  lemma TaskCloser(s: System, i: nat, answer: Answer)
    requires i < |s.tasks| && s.tasks[i] != []
    ensures Distance(AfterCall(s, i, answer)) < Distance(s)
  {
    TaskMoves(s, i, answer, s.tasks[i][0]);
  }

  /** Whatever the clock, the breaker and the backend answer, each step of the dispatcher
      brings the jobs closer to their answers. */
  lemma StepsComeCloser(config: Config, s: System, e: Event)
    requires ShapeOk(config, s) && Internal(e) && Enabled(config, s, e)
    ensures Distance(Next(config, s, e)) < Distance(s)
  {
    match e
    case Send(i) => SendCloser(config, s, i);
    case Uncount(i) => RemoveSplits(s.rejecting, i);
    case Recv =>
    case Push => PushCloser(config, s);
    case WindowEnd =>
    case Drain => DrainCloser(config, s);
    case Expire(now) => ExpireCloser(s, now);
    case Admit(allowed) =>
    case Spawn => SpawnCloser(s);
    case Dequeue =>
    case TaskCall(i, answer) => TaskCloser(s, i, answer);
    case DirectEnd =>
  }

  ghost predicate Stuck(config: Config, s: System)
  {
    forall e :: Internal(e) ==> !Enabled(config, s, e)
  }

  /** The dispatcher stops only when every accepted job has been answered, exactly once,
      and nothing is counted as queued. */
  lemma StuckMeansAnswered(config: Config, s: System)
    requires Inv(config, s) && Stuck(config, s)
    ensures s.queued == 0 && s.submitting == [] && s.rejecting == [] && s.direct == 0
    ensures forall job :: Of(s.done, job) == if job in s.accepted then 1 else 0
  {
    StuckMeansEmpty(config, s);
    forall job ensures Of(s.done, job) == if job in s.accepted then 1 else 0 {
      assert Places(s, job) == Of(s.done, job);
    }
  }

  lemma StuckMeansEmpty(config: Config, s: System)
    requires ShapeOk(config, s) && Stuck(config, s)
    ensures s.submitting == [] && s.rejecting == [] && s.channel == [] && s.direct == 0
    ensures s.stage == Idle || s.stage == Stopped
    ensures Concat(s.pending) == [] && Concat(s.tasks) == []
  {
    assert !Enabled(config, s, Send(0)) && !Enabled(config, s, Uncount(0)) && !Enabled(config, s, Recv);
    assert !Enabled(config, s, Push) && !Enabled(config, s, WindowEnd) && !Enabled(config, s, Drain);
    assert !Enabled(config, s, Expire(0)) && !Enabled(config, s, Admit(true)) && !Enabled(config, s, Dequeue);
    assert !Enabled(config, s, TaskCall(0, Rows([]))) && !Enabled(config, s, Spawn);
    assert !Enabled(config, s, DirectEnd);
    assert s.tasks == [] && s.permits >= 1;
  }

  function Continue(config: Config, s: System, events: seq<Event>): System
    requires Inv(config, s)
    decreases |events|
  {
    if events == [] then s
    else
      NextKeepsInv(config, s, events[0]);
      Continue(config, Next(config, s, events[0]), events[1..])
  }

  ghost predicate AllEnabled(config: Config, s: System, events: seq<Event>)
    requires Inv(config, s)
    decreases |events|
  {
    events == [] ||
    (&& Internal(events[0]) && Enabled(config, s, events[0])
     && (NextKeepsInv(config, s, events[0]); AllEnabled(config, Next(config, s, events[0]), events[1..])))
  }

  /** With no further submissions the dispatcher takes at most `Distance` steps, in whatever
      order, and if it cannot go on then everybody has been answered. */
  lemma {:induction false} RunsEndAnswered(config: Config, s: System, events: seq<Event>)
    requires Inv(config, s) && AllEnabled(config, s, events)
    ensures var s' := Continue(config, s, events);
            && Inv(config, s')
            && |events| + Distance(s') <= Distance(s)
            && (Stuck(config, s') ==> forall job :: Of(s'.done, job) == if job in s'.accepted then 1 else 0)
    decreases |events|
  {
    if events == [] {
      if Stuck(config, s) { StuckMeansAnswered(config, s); }
    } else {
      NextKeepsInv(config, s, events[0]);
      StepsComeCloser(config, s, events[0]);
      RunsEndAnswered(config, Next(config, s, events[0]), events[1..]);
    }
  }

  // ---------------------------------------------------------------- who hears what

  lemma {:induction false} KeepMeaning(jobs: seq<Job>, now: int, inTime: bool)
    ensures forall i :: 0 <= i < |Keep(jobs, now, inTime)| ==>
              Keep(jobs, now, inTime)[i] in jobs && InTime(Keep(jobs, now, inTime)[i], now) == inTime
  {
    if jobs != [] {
      KeepMeaning(jobs[..|jobs| - 1], now, inTime);
      assert forall job :: job in jobs[..|jobs| - 1] ==> job in jobs;
    }
  }

  /** Exactly the drained jobs past their deadline hear of it; those that go on towards the
      backend are in time. */
  lemma OnlyLateJobsExpire(s: System, now: int)
    requires s.stage.Batched? && |s.done| == |s.replies|
    ensures var s' := ExpiredAt(s, now);
            && s.done <= s'.done && s.replies <= s'.replies && |s'.done| == |s'.replies|
            && (forall k :: |s.done| <= k < |s'.done| ==>
                  && s'.done[k] in s.stage.batch && s'.replies[k] == Expired()
                  && s'.done[k].deadline.Some? && s'.done[k].deadline.value <= now)
            && (forall k :: 0 <= k < |InBatch(s'.stage)| ==>
                  && InBatch(s'.stage)[k] in s.stage.batch
                  && (InBatch(s'.stage)[k].deadline.None? || now < InBatch(s'.stage)[k].deadline.value))
            && |s'.done| - |s.done| + |InBatch(s'.stage)| == |s.stage.batch|
  {
    KeepMeaning(s.stage.batch, now, true);
    KeepMeaning(s.stage.batch, now, false);
    OfKeep(s.stage.batch, now, Job(0, "", 0, None));
  }

  // ---------------------------------------------------------------- the task, step by step

  function Entries(jobs: seq<Job>): seq<Entry>
  {
    seq(|jobs|, i requires 0 <= i < |jobs| => Entry(jobs[i].id, jobs[i].text))
  }

  /** The `TaskCall` steps of a task are the calls of `BatchTask.Serve` on its jobs: each
      appends the same replies for the same callers, and leaves the same jobs to run; the last
      call answers everyone left, and the task and its permit leave. */
  lemma TaskCallIsServe(s: System, i: nat, backend: (nat, seq<string>) -> BatchTask.Answer, k: nat)
    requires i < |s.tasks| && s.tasks[i] != []
    ensures var jobs := s.tasks[i];
            var answer := backend(k, Texts(Entries(jobs)));
            var s', o := AfterCall(s, i, answer), Serve(backend, k, Entries(jobs));
            var answered := s'.done[|s.done|..];
            && s.done <= s'.done && s.replies <= s'.replies
            && |answered| <= |o.replies| && |s'.replies| == |s.replies| + |answered|
            && (forall r :: 0 <= r < |answered| ==> o.replies[r] == (answered[r].id, s'.replies[|s.replies| + r]))
            && (if && answer.Failed? && answer.error.InputTooLong? && answer.error.index.Some?
                   && |jobs| > 1 && answer.error.index.value < |jobs|
                then
                  && |answered| == 1 && s'.permits == s.permits
                  && |s'.tasks| == |s.tasks| && s'.tasks == s.tasks[i := s'.tasks[i]]
                  && o.replies[1..] == Serve(backend, k + 1, Entries(s'.tasks[i])).replies
                else
                  && |answered| == |o.replies| == |jobs| && s'.permits == s.permits + 1
                  && s'.tasks == Remove(s.tasks, i))
  {
    var jobs := s.tasks[i];
    var answer := backend(k, Texts(Entries(jobs)));
    var checked := CheckedRows(answer, |jobs|);
    if Peels(checked, |jobs|) {
      var p := checked.error.index.value;
      assert Entries(Remove(jobs, p)) == Remove(Entries(jobs), p);
    }
  }

  // ---------------------------------------------------------------- whose row it is

  /** In `before`, task `i` makes the backend call that `e` answers; position `p` of it is
      `job`'s own text, and the answer has `row` there. */
  ghost predicate RowAt(before: System, e: Event, i: nat, p: nat, job: Job, row: Row)
  {
    && e.TaskCall? && e.i == i && i < |before.tasks| && p < |before.tasks[i]|
    && before.tasks[i][p] == job && Texts(Entries(before.tasks[i]))[p] == job.text
    && e.answer.Rows? && |e.answer.rows| == |before.tasks[i]| && e.answer.rows[p] == row
  }

  /** What a step adds to the answers it adds at the end. */
  lemma AnswersStay(config: Config, s: System, e: Event)
    requires Inv(config, s)
    ensures s.done <= Next(config, s, e).done && s.replies <= Next(config, s, e).replies
    ensures |s.done| == |s.replies|
  {}

  /** A backend call that adds a row answers its whole task. */
  lemma CallAddsRows(s: System, i: nat, answer: Answer, k: nat)
    requires i < |s.tasks| && |s.replies| == |s.done| <= k < |AfterCall(s, i, answer).replies|
    requires AfterCall(s, i, answer).replies[k].Ok?
    ensures k < |AfterCall(s, i, answer).done|
    ensures RowAt(s, TaskCall(i, answer), i, k - |s.replies|, AfterCall(s, i, answer).done[k],
                  AfterCall(s, i, answer).replies[k].row)
  {}

  /** Nothing else adds a row to the answers. */
  lemma OnlyCallsAddRows(config: Config, s: System, e: Event, k: nat)
    requires ShapeOk(config, s) && |s.replies| <= k < |Next(config, s, e).replies|
    requires Next(config, s, e).replies[k].Ok?
    ensures e.TaskCall? && e.i < |s.tasks| && Next(config, s, e) == AfterCall(s, e.i, e.answer)
  {
    hide AfterCall;
  }

  lemma StepAddsRow(config: Config, s: System, e: Event, k: nat) returns (i: nat, p: nat)
    requires Inv(config, s) && |s.replies| <= k < |Next(config, s, e).replies| && Next(config, s, e).replies[k].Ok?
    ensures k < |Next(config, s, e).done|
    ensures RowAt(s, e, i, p, Next(config, s, e).done[k], Next(config, s, e).replies[k].row)
  {
    hide Next, AfterCall, RowAt;
    OnlyCallsAddRows(config, s, e, k);
    i, p := e.i, k - |s.replies|;
    CallAddsRows(s, i, e.answer, k);
  }

  /** In every state of every run, each row among the answers is the row that some backend
      call of the run gave at the position of its receiver's own text. */
  lemma {:induction false} RowsComeFromCalls(config: Config, events: seq<Event>, k: nat)
    returns (n: nat, i: nat, p: nat)
    requires config.ceilings != [] && Sorted(config.ceilings) && config.streams >= 1
    requires k < |Exec(config, events).replies| && Exec(config, events).replies[k].Ok?
    ensures n < |events| && k < |Exec(config, events).done|
    ensures RowAt(Exec(config, events[..n]), events[n], i, p, Exec(config, events).done[k],
                  Exec(config, events).replies[k].row)
  {
    hide Next, RowAt, Inv;
    if events != [] {
      var m := |events| - 1;
      var before := Exec(config, events[..m]);
      AnswersStay(config, before, events[m]);
      if k < |before.replies| {
        n, i, p := RowsComeFromCalls(config, events[..m], k);
        assert events[..m][..n] == events[..n];
      } else {
        n := m;
        i, p := StepAddsRow(config, before, events[m], k);
      }
    }
  }
}
