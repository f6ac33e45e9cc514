/** The dispatcher's breaker (`m3-dispatcher`, `CircuitBreaker`): the shared state machine
    behind a lock, with a published flag that answers the Closed case without the lock.
    Any number of calls interleave; the steps of one call are the load of the flag, the
    lock, the transition, the store of the flag, and the release. */
module FastPath {
  import opened Arithmetic
  import opened Options
  import opened Resilience

  const BREAKER_CLOSED: nat := 0
  const BREAKER_OPEN: nat := 1
  const BREAKER_HALF_OPEN: nat := 2

  function Encode(s: BreakerState): nat
  {
    match s
    case StateClosed => BREAKER_CLOSED
    case StateOpen => BREAKER_OPEN
    case StateHalfOpen => BREAKER_HALF_OPEN
  }

  /** `check` is `Gate(true)`, `peek` is `Gate(false)`, `status` is `ReadStatus`. */
  datatype Call = Gate(admit: bool) | RecordSuccess | RecordFailure(message: Option<string>) | ReadStatus

  datatype Pc =
    | WantLock(call: Call)
    | Holding(call: Call)
    | Applied(op: Op, answer: Admission)
    | Published(answer: Admission, entry: nat)
    | Returned(answer: Admission, entry: nat)
    | Reported(status: Status, now: Instant, after: nat)  // read when `after` calls had taken effect

  /** One call, at the point where it takes effect. */
  datatype Entry = Entry(call: nat, op: Op, answer: Admission, fast: bool)

  datatype System = System(
    core: Breaker,
    flag: nat,
    holder: Option<nat>,
    calls: map<nat, Pc>,
    clock: Instant,
    // History: the record when the lock was taken, the calls in the order of effect, and what
    // each call was begun as.
    locked: Breaker,
    order: seq<Entry>,
    begun: map<nat, Call>)

  /** A threshold beyond 32 bits saturates. */
  function Saturated(threshold: nat): nat
  {
    if threshold > U32_MAX then U32_MAX else threshold
  }

  function Init(threshold: nat, cooldown: nat, start: Instant): System
  {
    var b := NewBreaker(Saturated(threshold), cooldown);
    System(b, BREAKER_CLOSED, None, map[], start, b, [], map[])
  }

  datatype Event =
    | Begin(id: nat, call: Call)
    | Lock(id: nat)
    | Transition(id: nat, now: Instant)
    | Publish(id: nat)
    | Release(id: nat)
    | Report(id: nat, now: Instant)

  function OpOf(call: Call, now: Instant): Op
    requires call != ReadStatus
  {
    match call
    case Gate(true) => Admit(now)
    case Gate(false) => Check(now)
    case RecordSuccess => Success
    case RecordFailure(message) => Failure(now, message)
  }

  /** An event that is not possible in `s` leaves it as it is. */
  function Next(s: System, e: Event): System
  {
    match e
    case Begin(id, call) =>
      if id in s.calls then s
      else if call.Gate? && s.flag == BREAKER_CLOSED then
        s.(calls := s.calls[id := Returned(Allowed, |s.order|)],
           order := s.order + [Entry(id, OpOf(call, s.clock), Allowed, true)], begun := s.begun[id := call])
      else
        s.(calls := s.calls[id := WantLock(call)], begun := s.begun[id := call])
    case Lock(id) =>
      if id in s.calls && s.calls[id].WantLock? && s.holder == None then
        s.(holder := Some(id), calls := s.calls[id := Holding(s.calls[id].call)], locked := s.core)
      else s
    case Transition(id, now) =>
      if id in s.calls && s.calls[id].Holding? && s.calls[id].call != ReadStatus && s.clock <= now then
        var op := OpOf(s.calls[id].call, now);
        var (core, answer) := Apply(s.core, op);
        s.(core := core, calls := s.calls[id := Applied(op, answer)], clock := now)
      else s
    case Publish(id) =>
      if id in s.calls && s.calls[id].Applied? then
        var Applied(op, answer) := s.calls[id];
        s.(flag := Encode(RecordedState(s.core)),
           calls := s.calls[id := Published(answer, |s.order|)],
           order := s.order + [Entry(id, op, answer, false)])
      else s
    case Release(id) =>
      if id in s.calls && s.calls[id].Published? then
        s.(holder := None, calls := s.calls[id := Returned(s.calls[id].answer, s.calls[id].entry)])
      else s
    case Report(id, now) =>
      if id in s.calls && s.calls[id].Holding? && s.calls[id].call == ReadStatus && s.clock <= now then
        s.(holder := None, calls := s.calls[id := Reported(StatusAt(s.core, now), now, |s.order|)], clock := now)
      else s
  }

  function Exec(s: System, events: seq<Event>): System
  {
    if events == [] then s else Next(Exec(s, events[..|events| - 1]), events[|events| - 1])
  }

  function Ops(order: seq<Entry>): (ops: seq<Op>)
    ensures |ops| == |order| && forall i :: 0 <= i < |order| ==> ops[i] == order[i].op
  {
    if order == [] then [] else Ops(order[..|order| - 1]) + [order[|order| - 1].op]
  }

  // ---------------------------------------------------------------- the invariant

  /** A transition has been made under the lock and is not yet published. */
  predicate Unpublished(s: System)
  {
    s.holder.Some? && s.holder.value in s.calls && s.calls[s.holder.value].Applied?
  }

  /** The breaker as the calls that have taken effect leave it. */
  function Abstract(s: System): Breaker
  {
    if Unpublished(s) then s.locked else s.core
  }

  /** Each entry is answered as the sequential breaker would answer it at that point, and
      a fast entry finds that breaker Closed. */
  ghost predicate Sequential(b: Breaker, order: seq<Entry>)
  {
    order == [] ||
    var before, last := Run(b, Ops(order[..|order| - 1])), order[|order| - 1];
    && Sequential(b, order[..|order| - 1])
    && last.answer == Apply(before, last.op).1
    && (last.fast ==> before.phase == Closed)
  }

  /** `id`'s call has taken effect as entry `k`. */
  ghost predicate EntryOf(order: seq<Entry>, id: nat, answer: Admission, k: nat)
  {
    k < |order| && order[k].call == id && order[k].answer == answer
  }

  ghost predicate LockOk(s: System)
  {
    && (s.holder.Some? ==> s.holder.value in s.calls)
    && (forall id :: id in s.calls ==>
          ((s.calls[id].Holding? || s.calls[id].Applied? || s.calls[id].Published?) <==> s.holder == Some(id)))
    && (s.holder.Some? ==>
          match s.calls[s.holder.value]
          case Holding(_) => s.core == s.locked
          case Applied(op, answer) =>
            (s.core, answer) == Apply(s.locked, op) && (Time(op).Some? ==> Time(op).value == s.clock)
          case _ => true)
  }

  /** A call that has published or returned has taken effect with the answer it holds. */
  ghost predicate HasEffect(order: seq<Entry>, id: nat, pc: Pc)
  {
    (pc.Published? || pc.Returned?) ==> EntryOf(order, id, pc.answer, pc.entry)
  }

  ghost predicate CallsOk(s: System)
  {
    && (forall id :: id in s.calls ==> HasEffect(s.order, id, s.calls[id]))
    && (forall id :: id in s.calls && s.calls[id].Reported? ==> s.calls[id].after <= |s.order|)
    && (forall k :: 0 <= k < |s.order| ==>
          s.order[k].call in s.calls && (s.calls[s.order[k].call].Published? || s.calls[s.order[k].call].Returned?))
    && (forall j, k :: 0 <= j < k < |s.order| ==> s.order[j].call != s.order[k].call)
  }

  /** No clock reading so far is after `now`. */
  ghost predicate NotAfter(ops: seq<Op>, now: Instant)
  {
    forall k :: 0 <= k < |ops| && Time(ops[k]).Some? ==> Time(ops[k]).value <= now
  }

  ghost predicate OrderOk(b: Breaker, order: seq<Entry>, left: Breaker, clock: Instant)
  {
    && left == Run(b, Ops(order))
    && Sequential(b, order)
    && Ordered(Ops(order))
    && NotAfter(Ops(order), clock)
  }

  ghost predicate Inv(b: Breaker, s: System)
  {
    && LockOk(s) && CallsOk(s)
    && s.flag == Encode(RecordedState(Abstract(s)))
    && OrderOk(b, s.order, Abstract(s), s.clock)
  }

  /** A call takes effect next: it is answered by the breaker that the others have left. */
  lemma EntryAppends(b: Breaker, order: seq<Entry>, left: Breaker, clock: Instant, e: Entry)
    requires OrderOk(b, order, left, clock)
    requires e.answer == Apply(left, e.op).1 && (e.fast ==> left.phase == Closed)
    requires Time(e.op).Some? ==> Time(e.op).value == clock
    ensures OrderOk(b, order + [e], Apply(left, e.op).0, clock)
  {
    hide Apply, Run, Ordered, NotAfter, Sequential;
    var more := order + [e];
    assert more[..|order|] == order;
    OpsAppend(order, e);
    RunAppend(b, Ops(order), e.op);
    OrderedAppend(Ops(order), e.op, clock);
    SequentialAppend(b, order, e);
  }

  lemma OpsAppend(order: seq<Entry>, e: Entry)
    ensures Ops(order + [e]) == Ops(order) + [e.op]
  {}

  lemma RunAppend(b: Breaker, ops: seq<Op>, op: Op)
    ensures Run(b, ops + [op]) == Apply(Run(b, ops), op).0
  {
    hide Apply;
    assert (ops + [op])[..|ops|] == ops;
  }

  lemma OrderedAppend(ops: seq<Op>, op: Op, clock: Instant)
    requires Ordered(ops) && NotAfter(ops, clock) && (Time(op).Some? ==> Time(op).value == clock)
    ensures Ordered(ops + [op]) && NotAfter(ops + [op], clock)
  {}

  lemma SequentialAppend(b: Breaker, order: seq<Entry>, e: Entry)
    requires Sequential(b, order) && e.answer == Apply(Run(b, Ops(order)), e.op).1
    requires e.fast ==> Run(b, Ops(order)).phase == Closed
    ensures Sequential(b, order + [e])
  {
    hide Apply, Run;
    assert (order + [e])[..|order|] == order;
  }

  lemma BeginKeepsCalls(s: System, id: nat, call: Call)
    requires LockOk(s) && CallsOk(s)
    ensures var s' := Next(s, Begin(id, call));
            LockOk(s') && CallsOk(s') && Abstract(s') == Abstract(s)
  {}

  lemma LockKeepsCalls(s: System, id: nat)
    requires LockOk(s) && CallsOk(s)
    ensures var s' := Next(s, Lock(id));
            && LockOk(s') && CallsOk(s')
            && Abstract(s') == Abstract(s) && s'.order == s.order && s'.flag == s.flag && s'.clock == s.clock
  {}

  lemma TransitionKeepsCalls(s: System, id: nat, now: Instant)
    requires LockOk(s) && CallsOk(s)
    ensures var s' := Next(s, Transition(id, now));
            && LockOk(s') && CallsOk(s')
            && Abstract(s') == Abstract(s) && s'.order == s.order && s'.flag == s.flag && s'.clock >= s.clock
  {}

  lemma PublishKeepsCalls(s: System, id: nat)
    requires LockOk(s) && CallsOk(s)
    ensures var s' := Next(s, Publish(id));
            LockOk(s') && CallsOk(s')
            && (s' != s ==> s.calls[id].Applied? && Unpublished(s) && Abstract(s') == s.core
                            && (s.core, s.calls[id].answer) == Apply(s.locked, s.calls[id].op)
                            && (Time(s.calls[id].op).Some? ==> Time(s.calls[id].op).value == s.clock))
  {}

  lemma ReleaseKeepsCalls(s: System, id: nat)
    requires LockOk(s) && CallsOk(s)
    ensures var s' := Next(s, Release(id));
            && LockOk(s') && CallsOk(s')
            && Abstract(s') == Abstract(s) && s'.order == s.order && s'.flag == s.flag && s'.clock == s.clock
  {}

  lemma ReportKeepsCalls(s: System, id: nat, now: Instant)
    requires LockOk(s) && CallsOk(s)
    ensures var s' := Next(s, Report(id, now));
            && LockOk(s') && CallsOk(s')
            && Abstract(s') == Abstract(s) && s'.order == s.order && s'.flag == s.flag && s'.clock >= s.clock
            && (s' != s ==> s.core == Abstract(s))
  {}

  lemma BeginKeepsInv(b: Breaker, s: System, id: nat, call: Call)
    requires Inv(b, s)
    ensures Inv(b, Next(s, Begin(id, call)))
  {
    BeginKeepsCalls(s, id, call);
    if id !in s.calls && call.Gate? && s.flag == BREAKER_CLOSED {
      var left, op := Abstract(s), OpOf(call, s.clock);
      FlagMeansClosed(left);
      assert Apply(left, op) == (left, Allowed);
      EntryAppends(b, s.order, left, s.clock, Entry(id, op, Allowed, true));
    }
  }

  lemma FlagMeansClosed(b: Breaker)
    ensures Encode(RecordedState(b)) == BREAKER_CLOSED <==> b.phase == Closed
    ensures b.phase == Closed ==>
      forall now :: Apply(b, Admit(now)) == (b, Allowed) && Apply(b, Check(now)) == (b, Allowed)
  {}

  lemma PublishKeepsInv(b: Breaker, s: System, id: nat)
    requires Inv(b, s)
    ensures Inv(b, Next(s, Publish(id)))
  {
    PublishKeepsCalls(s, id);
    if Next(s, Publish(id)) != s {
      var op, answer := s.calls[id].op, s.calls[id].answer;
      assert Abstract(s) == s.locked;
      EntryAppends(b, s.order, s.locked, s.clock, Entry(id, op, answer, false));
    }
  }

  lemma NextKeepsInv(b: Breaker, s: System, e: Event)
    requires Inv(b, s)
    ensures Inv(b, Next(s, e))
  {
    match e
    case Begin(id, call) => BeginKeepsInv(b, s, id, call);
    case Lock(id) => LockKeepsCalls(s, id);
    case Transition(id, now) => TransitionKeepsCalls(s, id, now);
    case Publish(id) => PublishKeepsInv(b, s, id);
    case Release(id) => ReleaseKeepsCalls(s, id);
    case Report(id, now) => ReportKeepsCalls(s, id, now);
  }

  lemma {:induction false} ExecKeepsInv(threshold: nat, cooldown: nat, start: Instant, events: seq<Event>)
    ensures Inv(NewBreaker(Saturated(threshold), cooldown), Exec(Init(threshold, cooldown, start), events))
  {
    if events != [] {
      ExecKeepsInv(threshold, cooldown, start, events[..|events| - 1]);
      NextKeepsInv(NewBreaker(Saturated(threshold), cooldown),
                   Exec(Init(threshold, cooldown, start), events[..|events| - 1]), events[|events| - 1]);
    }
  }

  // ---------------------------------------------------------------- what a status read

  /** A status is that of the breaker as the first `after` calls to take effect left it, at an
      instant no earlier than theirs and no later than those of the others. */
  ghost predicate ReportOk(b: Breaker, order: seq<Entry>, clock: Instant, status: Status, now: Instant, after: nat)
  {
    && after <= |order| && now <= clock
    && status == StatusAt(Run(b, Ops(order[..after])), now)
    && NotAfter(Ops(order[..after]), now)
    && forall k :: after <= k < |order| && Time(order[k].op).Some? ==> now <= Time(order[k].op).value
  }

  ghost predicate PcReportOk(b: Breaker, s: System, pc: Pc)
  {
    pc.Reported? ==> ReportOk(b, s.order, s.clock, pc.status, pc.now, pc.after)
  }

  ghost predicate ReportsOk(b: Breaker, s: System)
  {
    forall id :: id in s.calls ==> PcReportOk(b, s, s.calls[id])
  }

  /** A call that takes effect later does not touch what was read. */
  lemma ReportStays(b: Breaker, s: System, s': System, pc: Pc)
    requires PcReportOk(b, s, pc) && s.clock <= s'.clock && s.order <= s'.order && |s'.order| <= |s.order| + 1
    requires |s'.order| > |s.order| && Time(s'.order[|s.order|].op).Some? ==>
      Time(s'.order[|s.order|].op).value == s.clock
    ensures PcReportOk(b, s', pc)
  {
    if pc.Reported? { assert s'.order[..pc.after] == s.order[..pc.after]; }
  }

  /** What an event adds to the order carries the clock. */
  lemma NextAddsAtClock(b: Breaker, s: System, e: Event)
    requires Inv(b, s)
    ensures var s' := Next(s, e);
            && s.clock <= s'.clock && s.order <= s'.order && |s'.order| <= |s.order| + 1
            && (|s'.order| > |s.order| && Time(s'.order[|s.order|].op).Some? ==>
                  Time(s'.order[|s.order|].op).value == s.clock)
  {
    hide OrderOk;
  }

  lemma NewReport(b: Breaker, s: System, id: nat, now: Instant)
    requires Inv(b, s) && Next(s, Report(id, now)) != s
    ensures var s' := Next(s, Report(id, now));
            id in s'.calls && PcReportOk(b, s', s'.calls[id])
  {
    ReportKeepsCalls(s, id, now);
    assert s.order[..|s.order|] == s.order;
  }

  lemma NextKeepsReports(b: Breaker, s: System, e: Event)
    requires Inv(b, s) && ReportsOk(b, s)
    ensures ReportsOk(b, Next(s, e))
  {
    hide Inv, PcReportOk, Next;
    var s' := Next(s, e);
    NextAddsAtClock(b, s, e);
    NextMovesOne(s, e);
    if e.Report? && s' != s { NewReport(b, s, e.id, e.now); }
    forall id | id in s'.calls ensures PcReportOk(b, s', s'.calls[id]) {
      if id in s.calls && s'.calls[id] == s.calls[id] {
        ReportStays(b, s, s', s.calls[id]);
      } else if !s'.calls[id].Reported? {
        NoReport(b, s', s'.calls[id]);
      }
    }
  }

  lemma NoReport(b: Breaker, s: System, pc: Pc)
    requires !pc.Reported?
    ensures PcReportOk(b, s, pc)
  {}

  lemma NextMovesOne(s: System, e: Event)
    ensures forall id :: id in Next(s, e).calls && id != e.id ==> id in s.calls && Next(s, e).calls[id] == s.calls[id]
    ensures e.id in Next(s, e).calls && Next(s, e).calls[e.id].Reported? && Next(s, e) != s ==> e.Report?
    ensures Next(s, e) == s ==> e.id !in Next(s, e).calls || e.id in s.calls
  {}

  lemma {:induction false} ExecKeepsReports(threshold: nat, cooldown: nat, start: Instant, events: seq<Event>)
    ensures ReportsOk(NewBreaker(Saturated(threshold), cooldown), Exec(Init(threshold, cooldown, start), events))
  {
    if events != [] {
      var before := events[..|events| - 1];
      ExecKeepsReports(threshold, cooldown, start, before);
      ExecKeepsInv(threshold, cooldown, start, before);
      NextKeepsReports(NewBreaker(Saturated(threshold), cooldown), Exec(Init(threshold, cooldown, start), before),
                       events[|events| - 1]);
    }
  }

  // ---------------------------------------------------------------- each call as what it was

  /** A call takes effect as the operation it asks for: `check` admits, `peek` only checks, an
      outcome is recorded as it was reported, with its message; a status has no effect. Only
      the two gates may take effect without the lock. */
  predicate TakesEffectAs(call: Call, op: Op, fast: bool)
  {
    match call
    case Gate(true) => op.Admit?
    case Gate(false) => op.Check?
    case RecordSuccess => op == Success && !fast
    case RecordFailure(message) => op.Failure? && op.message == message && !fast
    case ReadStatus => false
  }

  /** Where a call stands agrees with what it was begun as. */
  predicate StandsAs(call: Call, pc: Pc)
  {
    match pc
    case WantLock(c) => c == call
    case Holding(c) => c == call
    case Applied(op, _) => TakesEffectAs(call, op, false)
    case Published(_, _) => call != ReadStatus
    case Returned(_, _) => call != ReadStatus
    case Reported(_, _, _) => call == ReadStatus
  }

  ghost predicate BegunOk(s: System)
  {
    && s.begun.Keys == s.calls.Keys
    && (forall id :: id in s.calls ==> StandsAs(s.begun[id], s.calls[id]))
    && (forall k :: 0 <= k < |s.order| ==>
          s.order[k].call in s.begun && TakesEffectAs(s.begun[s.order[k].call], s.order[k].op, s.order[k].fast))
  }

  lemma OpOfCall(call: Call, now: Instant, fast: bool)
    requires call != ReadStatus && (fast ==> call.Gate?)
    ensures TakesEffectAs(call, OpOf(call, now), fast)
  {}

  lemma NextKeepsBegun(s: System, e: Event)
    requires BegunOk(s)
    ensures BegunOk(Next(s, e))
  {
    hide OpOf, Apply, StatusAt, TakesEffectAs;
    match e
    case Begin(id, call) =>
      if id !in s.calls && call.Gate? && s.flag == BREAKER_CLOSED { OpOfCall(call, s.clock, true); }
    case Transition(id, now) =>
      if id in s.calls && s.calls[id].Holding? && s.calls[id].call != ReadStatus {
        OpOfCall(s.calls[id].call, now, false);
        assert s.begun[id] == s.calls[id].call;
      }
    case Publish(id) =>
      if id in s.calls && s.calls[id].Applied? { StatusHasNoEffect(s.begun[id], s.calls[id].op); }
    case _ =>
  }

  lemma StatusHasNoEffect(call: Call, op: Op)
    requires TakesEffectAs(call, op, false)
    ensures call != ReadStatus
  {}

  /** Event `n` of the run begins the call. */
  predicate BeginsAt(events: seq<Event>, n: nat, id: nat, call: Call)
  {
    n < |events| && events[n] == Begin(id, call)
  }

  lemma {:induction false} ExecKeepsBegun(init: System, events: seq<Event>)
    requires init.begun == map[] && BegunOk(init)
    ensures BegunOk(Exec(init, events))
    ensures forall id :: id in Exec(init, events).begun ==>
              exists n: nat :: BeginsAt(events, n, id, Exec(init, events).begun[id])
  {
    hide BegunOk;
    if events != [] {
      var m := |events| - 1;
      var before := Exec(init, events[..m]);
      ExecKeepsBegun(init, events[..m]);
      NextKeepsBegun(before, events[m]);
      var after := Exec(init, events);
      forall id | id in after.begun ensures exists n: nat :: BeginsAt(events, n, id, after.begun[id]) {
        if id in before.begun && after.begun[id] == before.begun[id] {
          var n: nat :| BeginsAt(events[..m], n, id, before.begun[id]);
          assert BeginsAt(events, n, id, after.begun[id]);
        } else {
          assert BeginsAt(events, m, id, after.begun[id]);
        }
      }
    }
  }

  /** Every call was begun by an event of the run; each takes effect as what that event asked
      for; and exactly the status calls are answered by a report. */
  ghost predicate AsBegun(events: seq<Event>, s: System)
  {
    && s.begun.Keys == s.calls.Keys
    && (forall id :: id in s.begun ==> exists n: nat :: BeginsAt(events, n, id, s.begun[id]))
    && (forall k :: 0 <= k < |s.order| ==>
          s.order[k].call in s.begun && TakesEffectAs(s.begun[s.order[k].call], s.order[k].op, s.order[k].fast))
    && (forall id :: id in s.calls && (s.calls[id].Returned? || s.calls[id].Reported?) ==>
          (s.calls[id].Reported? <==> s.begun[id] == ReadStatus))
  }

  lemma CallsAreAsBegun(init: System, events: seq<Event>)
    requires init.begun == map[] && BegunOk(init)
    ensures AsBegun(events, Exec(init, events))
  {
    hide TakesEffectAs, Exec, BeginsAt;
    ExecKeepsBegun(init, events);
    var s := Exec(init, events);
    forall id | id in s.calls && (s.calls[id].Returned? || s.calls[id].Reported?)
      ensures s.calls[id].Reported? <==> s.begun[id] == ReadStatus
    {
      assert StandsAs(s.begun[id], s.calls[id]);
    }
  }

  // ---------------------------------------------------------------- what follows

  /** Whenever the lock is free the published flag is the recorded phase. */
  lemma FlagIsPhase(threshold: nat, cooldown: nat, start: Instant, events: seq<Event>)
    ensures var s := Exec(Init(threshold, cooldown, start), events);
            s.holder == None ==> s.flag == Encode(RecordedState(s.core))
  {
    ExecKeepsInv(threshold, cooldown, start, events);
  }

  /** A call let through by the flag alone is one the locked breaker would have let through
      as Closed: either the record is Closed now, or the call takes effect before a
      transition that still holds the lock and has not published. */
  lemma FastPathIsClosed(threshold: nat, cooldown: nat, start: Instant, events: seq<Event>)
    ensures var s := Exec(Init(threshold, cooldown, start), events);
            s.flag == BREAKER_CLOSED ==>
            && Abstract(s).phase == Closed
            && (s.core.phase == Closed || (Unpublished(s) && s.locked.phase == Closed))
  {
    ExecKeepsInv(threshold, cooldown, start, events);
  }

  /** A gate is answered without the lock exactly when the flag says Closed. */
  lemma GateIsFastIff(s: System, id: nat, admit: bool)
    requires id !in s.calls
    ensures var s' := Next(s, Begin(id, Gate(admit)));
            && (HasReturned(s', id) <==> s.flag == BREAKER_CLOSED)
            && (HasReturned(s', id) ==> s'.calls[id].answer == Allowed && s'.core == s.core && s'.holder == s.holder)
  {}

  /** The sequential breaker's answer to entry `k`, and what it found. */
  ghost predicate AnsweredAt(b: Breaker, order: seq<Entry>, k: nat)
    requires k < |order|
  {
    var before := Run(b, Ops(order[..k]));
    order[k].answer == Apply(before, order[k].op).1 && (order[k].fast ==> before.phase == Closed)
  }

  lemma {:induction false} SequentialAt(b: Breaker, order: seq<Entry>, k: nat)
    requires Sequential(b, order) && k < |order|
    ensures AnsweredAt(b, order, k)
  {
    if k < |order| - 1 {
      SequentialAt(b, order[..|order| - 1], k);
      assert order[..|order| - 1][..k] == order[..k];
    }
  }

  // ---------------------------------------------------------------- real time

  /** What `later` adds to the order of effect it adds at the end, and only for calls that had
      not returned in `earlier`; what was in the order had begun. So every call takes effect
      between its begin and its return. What a status reads, it reads in that span too. */
  ghost predicate Anchored(earlier: System, later: System)
  {
    && earlier.order <= later.order
    && (forall k :: 0 <= k < |earlier.order| ==> earlier.order[k].call in earlier.calls)
    && (forall id :: id in earlier.calls ==> id in later.calls)
    && (forall id :: id in earlier.calls && earlier.calls[id].Returned? ==>
          later.calls[id] == earlier.calls[id] && earlier.calls[id].entry < |earlier.order|)
    && (forall k :: |earlier.order| <= k < |later.order| ==> !HasReturned(earlier, later.order[k].call))
    && (forall id :: id in earlier.calls && earlier.calls[id].Reported? ==>
          later.calls[id] == earlier.calls[id] && earlier.calls[id].after <= |earlier.order|)
    && (forall id :: id in later.calls && later.calls[id].Reported? && !HasReported(earlier, id) ==>
          |earlier.order| <= later.calls[id].after)
  }

  predicate HasReported(s: System, id: nat)
  {
    id in s.calls && s.calls[id].Reported?
  }

  predicate HasReturned(s: System, id: nat)
  {
    id in s.calls && s.calls[id].Returned?
  }

  /** Only `id`'s call moves, and only it may take effect, at the end. */
  predicate OneStep(s: System, s': System, id: nat)
  {
    && (s'.order == s.order || (|s'.order| == |s.order| + 1 && s.order <= s'.order && s'.order[|s.order|].call == id))
    && s.calls.Keys <= s'.calls.Keys && s'.calls.Keys <= s.calls.Keys + {id}
    && (forall other :: other in s.calls && other != id ==> s'.calls[other] == s.calls[other])
    && (HasReported(s', id) && !HasReported(s, id) ==> s'.calls[id].after == |s.order|)
  }

  lemma NextIsOneStep(s: System, e: Event)
    ensures OneStep(s, Next(s, e), e.id)
    ensures HasReturned(s, e.id) || HasReported(s, e.id) ==> Next(s, e) == s
  {}

  lemma OneStepAnchors(s: System, s': System, id: nat)
    requires CallsOk(s) && OneStep(s, s', id) && (HasReturned(s, id) || HasReported(s, id) ==> s' == s)
    ensures Anchored(s, s')
  {
    forall other | other in s.calls && s.calls[other].Returned?
      ensures s'.calls[other] == s.calls[other] && s.calls[other].entry < |s.order| {
      assert HasEffect(s.order, other, s.calls[other]);
    }
  }

  /** An event adds at most one entry, at the end, for the call whose step it is. */
  lemma NextAnchors(b: Breaker, s: System, e: Event)
    requires Inv(b, s)
    ensures Anchored(s, Next(s, e))
  {
    NextIsOneStep(s, e);
    OneStepAnchors(s, Next(s, e), e.id);
  }

  lemma AnchoredOn(a: System, b: System, c: System)
    requires Anchored(a, b) && Anchored(b, c)
    ensures Anchored(a, c)
  {
    forall k | |a.order| <= k < |c.order| ensures !HasReturned(a, c.order[k].call) {
      if k < |b.order| { assert c.order[k] == b.order[k]; }
    }
  }

  lemma {:induction false} RunAnchors(threshold: nat, cooldown: nat, start: Instant, events: seq<Event>, m: nat)
    requires m <= |events|
    ensures Anchored(Exec(Init(threshold, cooldown, start), events[..m]),
                     Exec(Init(threshold, cooldown, start), events))
  {
    var init, b := Init(threshold, cooldown, start), NewBreaker(Saturated(threshold), cooldown);
    if m == |events| {
      assert events[..m] == events;
      ExecKeepsInv(threshold, cooldown, start, events);
      StandsStill(b, Exec(init, events));
    } else {
      var before := events[..|events| - 1];
      assert before[..m] == events[..m];
      RunAnchors(threshold, cooldown, start, before, m);
      ExecKeepsInv(threshold, cooldown, start, before);
      NextAnchors(b, Exec(init, before), events[|events| - 1]);
      AnchoredOn(Exec(init, events[..m]), Exec(init, before), Exec(init, events));
    }
  }

  lemma StandsStill(b: Breaker, s: System)
    requires Inv(b, s)
    ensures Anchored(s, s)
  {
    OneStepAnchors(s, s, 0);
  }

  /** The wrapper is linearizable: in every run the calls have an order of effect, in which the
      sequential breaker gives every one of them the answer it got; every call that returned is
      in it exactly once, and takes effect between its begin and its return; a status reads the
      breaker as it stands at some point of that span; clock readings follow that order. */
  lemma Linearizable(threshold: nat, cooldown: nat, start: Instant, events: seq<Event>)
    ensures var b, s := NewBreaker(Saturated(threshold), cooldown), Exec(Init(threshold, cooldown, start), events);
            && (forall k :: 0 <= k < |s.order| ==> AnsweredAt(b, s.order, k))
            && Ordered(Ops(s.order))
            && (s.holder == None ==> s.core == Run(b, Ops(s.order)))
            && (forall id :: id in s.calls && s.calls[id].Returned? ==>
                  EntryOf(s.order, id, s.calls[id].answer, s.calls[id].entry))
            && (forall j, k :: 0 <= j < k < |s.order| ==> s.order[j].call != s.order[k].call)
            && AsBegun(events, s)
            && (forall id :: id in s.calls && s.calls[id].Reported? ==>
                  ReportOk(b, s.order, s.clock, s.calls[id].status, s.calls[id].now, s.calls[id].after))
            && (forall m :: 0 <= m <= |events| ==>
                  Anchored(Exec(Init(threshold, cooldown, start), events[..m]), s))
  {
    hide AsBegun, ReportOk, AnsweredAt, EntryOf, Anchored;
    ExecKeepsInv(threshold, cooldown, start, events);
    var b, s := NewBreaker(Saturated(threshold), cooldown), Exec(Init(threshold, cooldown, start), events);
    forall k | 0 <= k < |s.order| ensures AnsweredAt(b, s.order, k) {
      SequentialAt(b, s.order, k);
    }
    forall id | id in s.calls && s.calls[id].Returned?
      ensures EntryOf(s.order, id, s.calls[id].answer, s.calls[id].entry)
    {
      assert HasEffect(s.order, id, s.calls[id]);
    }
    ExecKeepsReports(threshold, cooldown, start, events);
    CallsAreAsBegun(Init(threshold, cooldown, start), events);
    forall id | id in s.calls && s.calls[id].Reported?
      ensures ReportOk(b, s.order, s.clock, s.calls[id].status, s.calls[id].now, s.calls[id].after) {
      assert PcReportOk(b, s, s.calls[id]);
    }
    forall m | 0 <= m <= |events| ensures Anchored(Exec(Init(threshold, cooldown, start), events[..m]), s) {
      RunAnchors(threshold, cooldown, start, events, m);
    }
  }

  /** The flag is Closed, with the lock free, exactly while the failures that took effect since
      the last success are fewer than the configured threshold, no threshold being below one or
      beyond 32 bits. */
  lemma OpensAtThreshold(threshold: nat, cooldown: nat, start: Instant, events: seq<Event>)
    ensures var s := Exec(Init(threshold, cooldown, start), events);
            s.holder == None ==>
            (s.flag == BREAKER_CLOSED <==> Streak(Ops(s.order)) < Max(1, Min(threshold, U32_MAX)))
  {
    ExecKeepsInv(threshold, cooldown, start, events);
    ClosedIffShortStreak(Saturated(threshold), cooldown, Ops(Exec(Init(threshold, cooldown, start), events).order));
    RunKeepsValid(NewBreaker(Saturated(threshold), cooldown),
                  Ops(Exec(Init(threshold, cooldown, start), events).order));
  }

  /** The order respects real time: a call that had returned before another began takes effect
      before it. */
  lemma RealTimeOrder(threshold: nat, cooldown: nat, start: Instant, events: seq<Event>, m: nat, first: nat, k: nat)
    requires m <= |events|
    requires HasReturned(Exec(Init(threshold, cooldown, start), events[..m]), first)
    requires k < |Exec(Init(threshold, cooldown, start), events).order|
    requires Exec(Init(threshold, cooldown, start), events).order[k].call
             !in Exec(Init(threshold, cooldown, start), events[..m]).calls
    ensures var s := Exec(Init(threshold, cooldown, start), events);
            HasReturned(s, first) && s.calls[first].entry < k
  {
    RunAnchors(threshold, cooldown, start, events, m);
    var init := Init(threshold, cooldown, start);
    var earlier, s := Exec(init, events[..m]), Exec(init, events);
    assert forall i :: 0 <= i < |earlier.order| ==> s.order[i] == earlier.order[i];
  }

  /** So the sequential guarantees hold of concurrent calls: two probes with no success
      taking effect between them are at least one cooldown apart. */
  lemma ConcurrentProbesAreSpaced(threshold: nat, cooldown: nat, start: Instant, events: seq<Event>, i: nat, j: nat)
    requires var b, s := NewBreaker(Saturated(threshold), cooldown), Exec(Init(threshold, cooldown, start), events);
             && i < j < |s.order|
             && IsProbe(b, Ops(s.order), i) && IsProbe(b, Ops(s.order), j)
             && forall k :: i < k < j ==> s.order[k].op != Success
    ensures var s := Exec(Init(threshold, cooldown, start), events);
            s.order[j].op.Admit? && s.order[i].op.Admit? && s.order[j].op.now - s.order[i].op.now >= cooldown
  {
    ExecKeepsInv(threshold, cooldown, start, events);
    NewIsValid(Saturated(threshold), cooldown);
    ProbesAreSpaced(NewBreaker(Saturated(threshold), cooldown),
                    Ops(Exec(Init(threshold, cooldown, start), events).order), i, j);
  }

  /** And they hold in real time: two probes are at least one cooldown apart if every success
      had returned before the first of them began, or began after the second had returned. */
  lemma ProbesAreSpacedInRealTime(threshold: nat, cooldown: nat, start: Instant, events: seq<Event>, m: nat, n: nat,
                                  i: nat, j: nat)
    requires m <= |events| && n <= |events|
    requires var b, s := NewBreaker(Saturated(threshold), cooldown), Exec(Init(threshold, cooldown, start), events);
             var begun := Exec(Init(threshold, cooldown, start), events[..m]);
             var ended := Exec(Init(threshold, cooldown, start), events[..n]);
             && i < j < |s.order|
             && IsProbe(b, Ops(s.order), i) && IsProbe(b, Ops(s.order), j)
             && s.order[i].call !in begun.calls && HasReturned(ended, s.order[j].call)
             && forall k :: 0 <= k < |s.order| && s.order[k].op == Success ==>
                  HasReturned(begun, s.order[k].call) || s.order[k].call !in ended.calls
    ensures var s := Exec(Init(threshold, cooldown, start), events);
            s.order[j].op.Admit? && s.order[i].op.Admit? && s.order[j].op.now - s.order[i].op.now >= cooldown
  {
    var s := Exec(Init(threshold, cooldown, start), events);
    ExecKeepsInv(threshold, cooldown, start, events);
    forall k | i < k < j ensures s.order[k].op != Success {
      if s.order[k].op == Success {
        if HasReturned(Exec(Init(threshold, cooldown, start), events[..m]), s.order[k].call) {
          RealTimeOrder(threshold, cooldown, start, events, m, s.order[k].call, i);
          EntryIsUnique(s, k);
        } else {
          RealTimeOrder(threshold, cooldown, start, events, n, s.order[j].call, k);
          EntryIsUnique(s, j);
        }
      }
    }
    ConcurrentProbesAreSpaced(threshold, cooldown, start, events, i, j);
  }

  /** A call that returned took effect at the entry it holds and at no other. */
  lemma EntryIsUnique(s: System, k: nat)
    requires CallsOk(s) && k < |s.order| && HasReturned(s, s.order[k].call)
    ensures s.calls[s.order[k].call].entry == k
  {
    var id := s.order[k].call;
    assert HasEffect(s.order, id, s.calls[id]);
  }
}
