/** Whole runs of the dispatcher, answer by answer: why each answer was given, what a job
    passed before the backend saw it, in which order jobs are drained and how large batches
    get. */
module SchedulerRuns {
  import opened Options
  import opened BucketQueue
  import opened BatchTask
  import opened Scheduler

  ghost predicate ConfigOk(config: Config)
  {
    config.ceilings != [] && Sorted(config.ceilings) && config.streams >= 1
  }

  /** The state in which event `n` of a run happens. */
  function Before(config: Config, events: seq<Event>, n: nat): System
    requires ConfigOk(config) && n <= |events|
  {
    Exec(config, events[..n])
  }

  // ---------------------------------------------------------------- why an answer was given

  /** The job was in the drained batch and past its deadline when the scheduler looked. */
  ghost predicate ExpiredBy(before: System, e: Event, job: Job, reply: Reply)
  {
    && e.Expire? && before.stage.Batched? && job in before.stage.batch
    && job.deadline.Some? && job.deadline.value <= e.now
    && reply == Err(Backend("job deadline exceeded"))
  }

  /** The breaker refused the batch that the job was in. */
  ghost predicate RefusedBy(before: System, e: Event, job: Job, reply: Reply)
  {
    && e == Admit(false) && before.stage.Live? && job in before.stage.batch
    && reply == Err(Backend("circuit breaker open"))
  }

  /** A backend call of the task the job is in, at position `p`, gave it that answer: its row,
      the word that its own text is too long, or the error that the whole call met. */
  ghost predicate GivenBy(before: System, e: Event, p: nat, job: Job, reply: Reply)
  {
    && e.TaskCall? && e.i < |before.tasks| && p < |before.tasks[e.i]| && before.tasks[e.i][p] == job
    && var sent := |before.tasks[e.i]|;
       match e.answer
       case Rows(rows) => if |rows| == sent then reply == Ok(rows[p]) else reply.Err? && reply.error.Backend?
       case Failed(InputTooLong(tokens, nCtx, Some(i))) =>
         if sent > 1 && i < sent then p == i && reply == Err(InputTooLong(tokens, nCtx, Some(0)))
         else reply == Err(InputTooLong(tokens, nCtx, Some(i)))
       case Failed(error) => reply == Err(error)
  }

  ghost predicate HasCause(before: System, e: Event, job: Job, reply: Reply)
  {
    || ExpiredBy(before, e, job, reply)
    || RefusedBy(before, e, job, reply)
    || exists p: nat :: GivenBy(before, e, p, job, reply)
  }

  lemma ExpiryHasCause(s: System, now: int, k: nat)
    requires s.stage.Batched? && |s.done| == |s.replies| <= k < |ExpiredAt(s, now).replies|
    ensures k < |ExpiredAt(s, now).done|
    ensures ExpiredBy(s, Expire(now), ExpiredAt(s, now).done[k], ExpiredAt(s, now).replies[k])
  {
    OnlyLateJobsExpire(s, now);
  }

  lemma RefusalHasCause(s: System, allowed: bool, k: nat)
    requires s.stage.Live? && |s.done| == |s.replies| <= k < |AskedBreaker(s, allowed).replies|
    ensures k < |AskedBreaker(s, allowed).done|
    ensures RefusedBy(s, Admit(allowed), AskedBreaker(s, allowed).done[k], AskedBreaker(s, allowed).replies[k])
  {}

  lemma CallHasCause(s: System, i: nat, answer: Answer, k: nat) returns (p: nat)
    requires i < |s.tasks| && |s.done| == |s.replies| <= k < |AfterCall(s, i, answer).replies|
    ensures k < |AfterCall(s, i, answer).done|
    ensures GivenBy(s, TaskCall(i, answer), p, AfterCall(s, i, answer).done[k], AfterCall(s, i, answer).replies[k])
  {
    var jobs := s.tasks[i];
    var checked := CheckedRows(answer, |jobs|);
    if Peels(checked, |jobs|) {
      p := checked.error.index.value;
    } else {
      p := k - |s.done|;
    }
  }

  /** Nothing else gives an answer. */
  lemma OnlyTheseAnswer(config: Config, s: System, e: Event)
    requires ShapeOk(config, s)
    ensures |Next(config, s, e).replies| > |s.replies| ==>
            && Enabled(config, s, e) && (e.Expire? || e.Admit? || e.TaskCall?)
  {
    hide AfterCall, ExpiredAt, AskedBreaker;
  }

  lemma AnswerHasCause(config: Config, s: System, e: Event, k: nat)
    requires Inv(config, s) && |s.replies| <= k < |Next(config, s, e).replies|
    ensures k < |Next(config, s, e).done|
    ensures HasCause(s, e, Next(config, s, e).done[k], Next(config, s, e).replies[k])
  {
    hide AfterCall, ExpiredAt, AskedBreaker, ExpiredBy, RefusedBy, GivenBy;
    OnlyTheseAnswer(config, s, e);
    if e.Expire? {
      ExpiryHasCause(s, e.now, k);
    } else if e.Admit? {
      RefusalHasCause(s, e.allowed, k);
    } else {
      var p := CallHasCause(s, e.i, e.answer, k);
    }
  }

  // ---------------------------------------------------------------- the way to the backend

  /** The job was in the drained batch and in time when the scheduler looked. */
  ghost predicate InTimeAt(before: System, e: Event, job: Job)
  {
    && e.Expire? && before.stage.Batched? && job in before.stage.batch
    && (job.deadline.None? || e.now < job.deadline.value)
  }

  /** The breaker let the batch that the job was in go on. */
  ghost predicate AdmittedBy(before: System, e: Event, job: Job)
  {
    e == Admit(true) && before.stage.Live? && job in before.stage.batch
  }

  /** The backend has the job or is about to get it. */
  ghost predicate Working(s: System, job: Job)
  {
    (s.stage.Admitted? && job in s.stage.batch) || exists i :: 0 <= i < |s.tasks| && job in s.tasks[i]
  }

  lemma LiveIsInTime(config: Config, s: System, e: Event, job: Job)
    requires Inv(config, s) && Next(config, s, e).stage.Live? && job in Next(config, s, e).stage.batch
    ensures (s.stage.Live? && job in s.stage.batch) || InTimeAt(s, e, job)
  {
    hide Keep, AfterCall, Inv;
    if e.Expire? && s.stage.Batched? {
      KeepMeaning(s.stage.batch, e.now, true);
    }
    ShapeOfInv(config, s);
    TaskKeepsStage(s, e);
  }

  lemma ShapeOfInv(config: Config, s: System)
    requires Inv(config, s)
    ensures ShapeOk(config, s)
  {}

  lemma TaskKeepsStage(s: System, e: Event)
    ensures e.TaskCall? && e.i < |s.tasks| ==> AfterCall(s, e.i, e.answer).stage == s.stage
  {}

  /** What a call leaves to run, it was running. */
  lemma CallRunsNoMore(s: System, i: nat, answer: Answer, job: Job)
    requires i < |s.tasks| && Working(AfterCall(s, i, answer), job)
    ensures Working(s, job)
  {
    var jobs, s' := s.tasks[i], AfterCall(s, i, answer);
    var checked := CheckedRows(answer, |jobs|);
    TaskKeepsStage(s, TaskCall(i, answer));
    if !(s'.stage.Admitted? && job in s'.stage.batch) {
      var j :| 0 <= j < |s'.tasks| && job in s'.tasks[j];
      if Peels(checked, |jobs|) {
        assert job in s.tasks[j];
      } else {
        assert job in s.tasks[if j < i then j else j + 1];
      }
    }
  }

  lemma SpawnRunsAdmitted(s: System, job: Job)
    requires s.stage.Admitted? && s.permits > 0 && Working(Spawned(s), job)
    ensures Working(s, job)
  {
    var j :| 0 <= j < |Spawned(s).tasks| && job in Spawned(s).tasks[j];
    if j < |s.tasks| { assert job in s.tasks[j]; }
  }

  lemma SameWork(s: System, s': System, job: Job)
    requires s'.tasks == s.tasks && !s'.stage.Admitted?
    ensures Working(s', job) ==> Working(s, job)
  {}

  /** Only an admission brings a job nearer to the backend. */
  lemma WorkIsAdmitted(config: Config, s: System, e: Event, job: Job)
    requires ShapeOk(config, s) && Working(Next(config, s, e), job)
    ensures Working(s, job) || AdmittedBy(s, e, job)
  {
    hide AfterCall, ExpiredAt, Spawned, BatchTaken, Pushed, Sent;
    if Enabled(config, s, e) {
      if e.TaskCall? {
        CallRunsNoMore(s, e.i, e.answer, job);
      } else if e.Spawn? {
        SpawnRunsAdmitted(s, job);
      } else {
        OthersRunNoMore(config, s, e, job);
      }
    }
  }

  lemma OthersRunNoMore(config: Config, s: System, e: Event, job: Job)
    requires ShapeOk(config, s) && Enabled(config, s, e) && !e.TaskCall? && !e.Spawn?
    requires Working(Next(config, s, e), job)
    ensures Working(s, job) || AdmittedBy(s, e, job)
  {
    hide Drained, PushInto, Keep;
    var s' := Next(config, s, e);
    assert s'.tasks == s.tasks;
    if s'.stage.Admitted? && s'.stage != s.stage { assert e == Admit(true); }
  }

  /** A job in a live batch was in time at some `Expire` of the run. */
  lemma {:induction false} LiveJobsWereInTime(config: Config, events: seq<Event>, job: Job) returns (m: nat)
    requires ConfigOk(config)
    requires Exec(config, events).stage.Live? && job in Exec(config, events).stage.batch
    ensures m < |events| && InTimeAt(Before(config, events, m), events[m], job)
    decreases |events|
  {
    hide Next, Inv, InTimeAt;
    var last := |events| - 1;
    var before := Exec(config, events[..last]);
    LiveIsInTime(config, before, events[last], job);
    if InTimeAt(before, events[last], job) {
      m := last;
    } else {
      m := LiveJobsWereInTime(config, events[..last], job);
      assert events[..last][..m] == events[..m];
    }
  }

  /** A job the backend has, or is about to get, was first found in time and then admitted by
      the breaker, both in the batch it was drained in. */
  lemma {:induction false} WorkWasAdmitted(config: Config, events: seq<Event>, job: Job) returns (m: nat, a: nat)
    requires ConfigOk(config) && Working(Exec(config, events), job)
    ensures m < a < |events|
    ensures InTimeAt(Before(config, events, m), events[m], job)
    ensures AdmittedBy(Before(config, events, a), events[a], job)
    decreases |events|
  {
    hide Next, Inv, InTimeAt, Working;
    if events == [] {
      NothingRunsYet(config, job);
    } else {
      var last := |events| - 1;
      var before := Exec(config, events[..last]);
      ShapeOfInv(config, before);
      WorkIsAdmitted(config, before, events[last], job);
      if AdmittedBy(before, events[last], job) {
        a := last;
        m := LiveJobsWereInTime(config, events[..last], job);
      } else {
        m, a := WorkWasAdmitted(config, events[..last], job);
        assert events[..last][..a] == events[..a];
      }
      assert events[..last][..m] == events[..m];
    }
  }

  lemma NothingRunsYet(config: Config, job: Job)
    requires ConfigOk(config)
    ensures !Working(Exec(config, []), job)
  {}

  /** In every state of every run, each answer was added by one event and has its cause: an
      expiry for a job past its deadline, a refusal by the breaker of that job's batch, or a
      backend call with that job in it. So a call the breaker admits answers nobody by itself. */
  lemma {:induction false} EveryAnswerHasItsCause(config: Config, events: seq<Event>, k: nat) returns (n: nat)
    requires ConfigOk(config) && k < |Exec(config, events).replies|
    ensures n < |events| && k < |Exec(config, events).done|
    ensures |Before(config, events, n).replies| <= k < |Before(config, events, n + 1).replies|
    ensures HasCause(Before(config, events, n), events[n],
                     Exec(config, events).done[k], Exec(config, events).replies[k])
    decreases |events|
  {
    hide Next, Inv, HasCause;
    if events != [] {
      var m := |events| - 1;
      var before := Exec(config, events[..m]);
      AnswersStay(config, before, events[m]);
      assert events[..m + 1] == events;
      if k < |before.replies| {
        n := EveryAnswerHasItsCause(config, events[..m], k);
        assert events[..m][..n] == events[..n] && events[..m][..n + 1] == events[..n + 1];
      } else {
        n := m;
        AnswerHasCause(config, before, events[m], k);
      }
    }
  }

  /** What the backend answers it answers to jobs that were in time and admitted before. */
  lemma CallsAnswerAdmittedJobs(config: Config, events: seq<Event>, n: nat, p: nat, job: Job, reply: Reply)
    returns (m: nat, a: nat)
    requires ConfigOk(config) && n < |events| && GivenBy(Before(config, events, n), events[n], p, job, reply)
    ensures m < a < n
    ensures InTimeAt(Before(config, events, m), events[m], job)
    ensures AdmittedBy(Before(config, events, a), events[a], job)
  {
    hide Exec, InTimeAt, AdmittedBy;
    var before := Before(config, events, n);
    assert Working(before, job) by { assert job in before.tasks[events[n].i]; }
    m, a := WorkWasAdmitted(config, events[..n], job);
    assert events[..n][..m] == events[..m] && events[..n][..a] == events[..a];
  }

  // ---------------------------------------------------------------- in which order

  lemma {:induction false} FilterAppend(a: seq<Job>, b: seq<Job>, ceilings: seq<nat>, c: nat)
    requires ceilings != [] && Sorted(ceilings)
    ensures Filter(a + b, ceilings, c) == Filter(a, ceilings, c) + Filter(b, ceilings, c)
  {
    hide BucketFor, Sorted;
    if b == [] {
      assert a + b == a;
    } else {
      FilterAppend(a, b[..|b| - 1], ceilings, c);
      assert (a + b)[..|a + b| - 1] == a + b[..|b| - 1];
    }
  }

  lemma {:induction false} FilterOfClass(jobs: seq<Job>, ceilings: seq<nat>, b: nat, c: nat)
    requires ceilings != [] && Sorted(ceilings) && AllFor(ceilings, jobs, b)
    ensures Filter(jobs, ceilings, c) == if c == b then jobs else []
  {
    if jobs != [] { FilterOfClass(jobs[..|jobs| - 1], ceilings, b, c); }
  }

  lemma FilterOne(job: Job, ceilings: seq<nat>, c: nat)
    requires ceilings != [] && Sorted(ceilings)
    ensures Filter([job], ceilings, c) == if BucketFor(ceilings, job.tokenLen) == c then [job] else []
  {
    assert [job][..0] == [];
  }

  lemma FilterNone(ceilings: seq<nat>, c: nat)
    requires ceilings != [] && Sorted(ceilings)
    ensures Filter([], ceilings, c) == []
  {}

  /** What arrived of a length class is what was drained of it, then what its bucket holds,
      then what is still on the way to the bucket. */
  ghost predicate ClassInOrder(config: Config, s: System, b: nat)
    requires ConfigOk(config) && b < |s.pending|
  {
    Filter(s.arrived, config.ceilings, b)
    == Filter(s.drained, config.ceilings, b) + s.pending[b]
       + Filter(InHand(s.stage), config.ceilings, b) + Filter(s.channel, config.ceilings, b)
  }

  ghost predicate InOrder(config: Config, s: System)
    requires ConfigOk(config)
  {
    && InBuckets(config.ceilings, s.pending)
    && forall b :: 0 <= b < |s.pending| ==> ClassInOrder(config, s, b)
  }

  lemma SendKeepsClass(config: Config, s: System, i: nat, b: nat)
    requires ConfigOk(config) && i < |s.submitting| && b < |s.pending| && ClassInOrder(config, s, b)
    ensures ClassInOrder(config, Sent(config, s, i), b)
  {
    hide Filter, Concat, Remove;
    FilterAppend(s.arrived, [s.submitting[i]], config.ceilings, b);
    FilterAppend(s.channel, [s.submitting[i]], config.ceilings, b);
  }

  lemma SendKeepsOrder(config: Config, s: System, i: nat)
    requires ConfigOk(config) && InOrder(config, s) && i < |s.submitting|
    ensures InOrder(config, Sent(config, s, i))
  {
    hide ClassInOrder, AllFor, Remove;
    forall b | 0 <= b < |s.pending| ensures ClassInOrder(config, Sent(config, s, i), b) {
      SendKeepsClass(config, s, i, b);
    }
  }

  lemma RecvKeepsClass(config: Config, s: System, b: nat)
    requires ConfigOk(config) && s.channel != [] && !s.stage.Received?
    requires b < |s.pending| && ClassInOrder(config, s, b)
    ensures ClassInOrder(config, TakenFromChannel(s), b)
  {
    hide Filter;
    assert s.channel == [s.channel[0]] + s.channel[1..];
    FilterAppend([s.channel[0]], s.channel[1..], config.ceilings, b);
    FilterNone(config.ceilings, b);
  }

  lemma RecvKeepsOrder(config: Config, s: System)
    requires ConfigOk(config) && InOrder(config, s) && s.channel != [] && !s.stage.Received?
    ensures InOrder(config, TakenFromChannel(s))
  {
    hide ClassInOrder, AllFor;
    forall b | 0 <= b < |s.pending| ensures ClassInOrder(config, TakenFromChannel(s), b) {
      RecvKeepsClass(config, s, b);
    }
  }

  lemma PushKeepsClass(config: Config, s: System, b: nat)
    requires ConfigOk(config) && |s.pending| == |config.ceilings| && s.stage.Received?
    requires b < |s.pending| && ClassInOrder(config, s, b)
    ensures ClassInOrder(config, Pushed(config, s), b)
  {
    hide Filter, Concat, Tokens;
    FilterOne(s.stage.job, config.ceilings, b);
    FilterNone(config.ceilings, b);
  }

  lemma PushKeepsOrder(config: Config, s: System)
    requires ConfigOk(config) && InOrder(config, s) && s.stage.Received?
    ensures InOrder(config, Pushed(config, s))
  {
    hide ClassInOrder, AllFor, Concat, Tokens;
    PushKeepsBuckets(config.ceilings, s.pending, s.stage.job);
    forall b | 0 <= b < |s.pending| ensures ClassInOrder(config, Pushed(config, s), b) {
      PushKeepsClass(config, s, b);
    }
  }

  /** A batch leaves from the head of one bucket. */
  lemma DrainKeepsClass(config: Config, s: System, s': System, first: nat, batch: seq<Job>, b: nat)
    requires ConfigOk(config) && first < |s.pending| == |config.ceilings| && AllFor(config.ceilings, batch, first)
    requires batch <= s.pending[first]
    requires s' == s.(pending := s.pending[first := s.pending[first][|batch|..]], stage := s'.stage,
                      drained := s.drained + batch)
    requires InHand(s'.stage) == InHand(s.stage)
    requires b < |s.pending| && ClassInOrder(config, s, b)
    ensures ClassInOrder(config, s', b)
  {
    hide Filter, AllFor, InHand;
    FilterAppend(s.drained, batch, config.ceilings, b);
    FilterOfClass(batch, config.ceilings, first, b);
    assert s.pending[first] == batch + s.pending[first][|batch|..];
  }

  lemma DrainKeepsOrder(config: Config, s: System)
    requires ConfigOk(config) && InOrder(config, s) && s.stage == Flushing
    ensures InOrder(config, BatchTaken(config, s))
  {
    hide IsDrain, Concat, Tokens, Drained, ClassInOrder, GoodBatch;
    DrainedMeaning(s.pending, config.maxBatchTokens);
    if Drained(s.pending, config.maxBatchTokens).Some? {
      DrainKeepsBuckets(config.ceilings, s.pending, config.maxBatchTokens);
      var batch, first := Drained(s.pending, config.maxBatchTokens).value.0, FirstNonEmpty(s.pending);
      assert AllFor(config.ceilings, s.pending[first], first);
      forall b | 0 <= b < |s.pending| ensures ClassInOrder(config, BatchTaken(config, s), b) {
        DrainKeepsClass(config, s, BatchTaken(config, s), first, batch, b);
      }
    } else {
      StillInOrder(config, s, BatchTaken(config, s));
    }
  }

  /** The other events move no job among channel, hand and buckets. */
  lemma StillInOrder(config: Config, s: System, s': System)
    requires ConfigOk(config) && InOrder(config, s)
    requires s'.arrived == s.arrived && s'.drained == s.drained && s'.pending == s.pending
    requires s'.channel == s.channel && InHand(s'.stage) == InHand(s.stage)
    ensures InOrder(config, s')
  {
    forall b | 0 <= b < |s.pending| ensures ClassInOrder(config, s', b) {
      assert ClassInOrder(config, s, b);
    }
  }

  lemma NextKeepsOrder(config: Config, s: System, e: Event)
    requires ConfigOk(config) && ShapeOk(config, s) && InOrder(config, s)
    ensures InOrder(config, Next(config, s, e))
  {
    hide InOrder, Keep;
    if Enabled(config, s, e) && (e.Send? || e.Push? || e.Drain? || (e.Recv? && s.channel != [])) {
      match e
      case Send(i) => SendKeepsOrder(config, s, i);
      case Push => PushKeepsOrder(config, s);
      case Drain => DrainKeepsOrder(config, s);
      case Recv => RecvKeepsOrder(config, s);
    } else {
      StillInOrder(config, s, Next(config, s, e));
    }
  }

  lemma StartInOrder(config: Config)
    requires ConfigOk(config)
    ensures InOrder(config, Init(config))
  {
    forall b | 0 <= b < |config.ceilings| ensures ClassInOrder(config, Init(config), b) {
      FilterNone(config.ceilings, b);
    }
  }

  /** First come, first drained: in every state of every run, of each length class the jobs that
      the channel accepted are, in the order of acceptance, those drained, those in its bucket and
      those not yet pushed. */
  lemma {:induction false} ClassesAreFirstInFirstOut(config: Config, events: seq<Event>)
    requires ConfigOk(config)
    ensures var s := Exec(config, events);
            && |s.pending| == |config.ceilings|
            && (forall b :: 0 <= b < |s.pending| ==> AllFor(config.ceilings, s.pending[b], b))
            && (forall b :: 0 <= b < |s.pending| ==> ClassInOrder(config, s, b))
            && InOrder(config, s)
  {
    hide Next, Inv, ClassInOrder;
    if events == [] {
      StartInOrder(config);
    } else {
      var last := |events| - 1;
      ClassesAreFirstInFirstOut(config, events[..last]);
      ShapeOfInv(config, Exec(config, events[..last]));
      NextKeepsOrder(config, Exec(config, events[..last]), events[last]);
    }
  }

  // ---------------------------------------------------------------- how large a batch gets

  /** What one backend call may carry: at most the batch cap, or a single job. */
  ghost predicate Fits(config: Config, jobs: seq<Job>)
  {
    |jobs| <= 1 || Tokens(jobs) <= config.maxBatchTokens
  }

  /** The channel is never over its capacity; what is drained, admitted or running fits one
      call; and the window stays open only while what it has collected is one job or less than
      a batch. */
  ghost predicate Bounded(config: Config, s: System)
  {
    && |s.channel| <= config.capacity
    && Fits(config, InBatch(s.stage))
    && (forall i :: 0 <= i < |s.tasks| ==> Fits(config, s.tasks[i]))
    && (s.stage == Collecting || (s.stage.Received? && !s.stage.first) ==>
          |Concat(s.pending)| == 1 || Tokens(Concat(s.pending)) < config.maxBatchTokens)
  }

  lemma {:induction false} TokensOfKept(jobs: seq<Job>, now: int)
    ensures Tokens(Keep(jobs, now, true)) <= Tokens(jobs) && |Keep(jobs, now, true)| <= |jobs|
  {
    if jobs != [] {
      var last, kept := jobs[|jobs| - 1], Keep(jobs[..|jobs| - 1], now, true);
      TokensOfKept(jobs[..|jobs| - 1], now);
      assert (kept + [last])[..|kept|] == kept && kept + [] == kept;
    }
  }

  lemma TokensWithoutOne(jobs: seq<Job>, i: nat)
    requires i < |jobs|
    ensures Tokens(Remove(jobs, i)) <= Tokens(jobs) && |Remove(jobs, i)| < |jobs|
  {
    hide Tokens;
    TokensConcat(jobs[..i], jobs[i + 1..]);
    TokensConcat(jobs[..i], [jobs[i]]);
    TokensConcat(jobs[..i] + [jobs[i]], jobs[i + 1..]);
    assert jobs == jobs[..i] + [jobs[i]] + jobs[i + 1..];
  }

  lemma CallKeepsBounded(config: Config, s: System, i: nat, answer: Answer)
    requires Bounded(config, s) && i < |s.tasks|
    ensures Bounded(config, AfterCall(s, i, answer))
  {
    hide Tokens, Concat;
    var checked := CheckedRows(answer, |s.tasks[i]|);
    if Peels(checked, |s.tasks[i]|) {
      TokensWithoutOne(s.tasks[i], checked.error.index.value);
    }
  }

  lemma PushKeepsBounded(config: Config, s: System)
    requires ShapeOk(config, s) && Bounded(config, s) && s.stage.Received?
    ensures Bounded(config, Pushed(config, s))
  {
    hide Tokens, Concat;
    PushMoves(config, s, s.stage.job);
  }

  lemma DrainKeepsBounded(config: Config, s: System)
    requires ShapeOk(config, s) && Bounded(config, s) && s.stage == Flushing
    ensures Bounded(config, BatchTaken(config, s))
  {
    hide Tokens, Concat, FirstNonEmpty;
    DrainedMeaning(s.pending, config.maxBatchTokens);
  }

  lemma NextKeepsBounded(config: Config, s: System, e: Event)
    requires ShapeOk(config, s) && Bounded(config, s)
    ensures Bounded(config, Next(config, s, e))
  {
    hide Tokens, Concat, Keep, Pushed, BatchTaken, AfterCall;
    if Enabled(config, s, e) {
      match e
      case Push => PushKeepsBounded(config, s);
      case Drain => DrainKeepsBounded(config, s);
      case Expire(now) => TokensOfKept(s.stage.batch, now);
      case TaskCall(i, answer) => CallKeepsBounded(config, s, i, answer);
      case _ =>
    }
  }

  lemma StartIsBounded(config: Config)
    requires ConfigOk(config)
    ensures Bounded(config, Init(config))
  {}

  /** In every state of every run: the channel holds no more than its capacity, every batch and
      every running task fits one backend call, and the coalescing window is open only while it
      has collected one job or less than a batch. */
  lemma {:induction false} RunsAreBounded(config: Config, events: seq<Event>)
    requires ConfigOk(config)
    ensures Bounded(config, Exec(config, events))
  {
    hide Next, Inv, Bounded;
    if events == [] {
      StartIsBounded(config);
    } else {
      var last := |events| - 1;
      RunsAreBounded(config, events[..last]);
      ShapeOfInv(config, Exec(config, events[..last]));
      NextKeepsBounded(config, Exec(config, events[..last]), events[last]);
    }
  }

  /** A push closes the coalescing window exactly when it is not the first of the window and the
      buckets then hold a whole batch's tokens. */
  lemma WindowClosesEarlyIff(config: Config, s: System)
    requires Inv(config, s) && s.stage.Received?
    ensures var s' := Next(config, s, Push);
            && (s'.stage == Flushing <==> !s.stage.first && Tokens(Concat(s'.pending)) >= config.maxBatchTokens)
            && (s'.stage == Collecting <==> s'.stage != Flushing)
            && Tokens(Concat(s'.pending)) == Tokens(Concat(s.pending)) + s.stage.job.tokenLen
            && (s.stage.first ==> Concat(s'.pending) == [s.stage.job])
  {
    hide Tokens, Concat, OnePlace, NamesOk;
    PushAdds(config.ceilings, s.pending, s.stage.job);
    var b := BucketFor(config.ceilings, s.stage.job.tokenLen);
    ConcatUpdate(s.pending, b, s.pending[b] + [s.stage.job]);
  }

  /** A submission is turned away only by a full channel or a closed dispatcher, and is
      otherwise accepted. */
  lemma SendAcceptsIff(config: Config, s: System, i: nat)
    requires Inv(config, s) && i < |s.submitting|
    ensures var s', job := Next(config, s, Send(i)), s.submitting[i];
            && (job in s'.accepted <==> s.open && |s.channel| < config.capacity)
            && (job in s'.accepted <==> s'.arrived == s.arrived + [job])
            && (job in s'.accepted || job in s'.rejecting)
  {
    SendKeepsNames(config, s, i);
    assert s.arrived != s.arrived + [s.submitting[i]];
  }
}
