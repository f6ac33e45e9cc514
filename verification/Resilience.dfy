/** The circuit breaker (`m3-resilience`): consecutive failures open it, one probe per
    cooldown tests the backend, a success closes it. Instants are injected. */
module Resilience {
  import opened Arithmetic
  import opened Options

  type Instant = int

  datatype Phase = Closed | Open(since: Instant) | HalfOpen(since: Instant)

  datatype BreakerState = StateClosed | StateOpen | StateHalfOpen

  datatype Admission =
    | Allowed
    | RefusedOpen(retryAfter: nat)
    | ProbeOutstanding(retryAfter: nat)

  datatype Status = Status(open: bool, consecutiveFailures: nat, retryAfter: Option<nat>, lastError: Option<string>)

  /** The record that the breaker's lock guards. */
  datatype Breaker = Breaker(
    threshold: nat,
    cooldown: nat,
    failures: nat,
    phase: Phase,
    lastError: Option<string>)

  function NewBreaker(threshold: nat, cooldown: nat): Breaker
  {
    Breaker(if threshold == 0 then 1 else threshold, cooldown, 0, Closed, None)
  }

  /** The cooldown left at `now`; `None` once it has elapsed. A clock that reads before
      `since` counts as no time elapsed. */
  function CooldownLeft(b: Breaker, now: Instant): Option<nat>
    requires b.phase != Closed
  {
    var elapsed := if now < b.phase.since then 0 else now - b.phase.since;
    if elapsed < b.cooldown then Some(b.cooldown - elapsed) else None
  }

  function Gate(b: Breaker, now: Instant): Option<(Phase, Option<nat>)>
  {
    if b.phase == Closed then None else Some((b.phase, CooldownLeft(b, now)))
  }

  function CheckAt(b: Breaker, now: Instant): Admission
  {
    match Gate(b, now)
    case None => Allowed
    case Some((_, None)) => Allowed
    case Some((HalfOpen(_), Some(left))) => ProbeOutstanding(left)
    case Some((_, Some(left))) => RefusedOpen(left)
  }

  function StateAt(b: Breaker, now: Instant): BreakerState
  {
    match Gate(b, now)
    case None => StateClosed
    case Some((Open(_), Some(_))) => StateOpen
    case Some(_) => StateHalfOpen
  }

  function StatusAt(b: Breaker, now: Instant): Status
  {
    var left := match Gate(b, now) case None => None case Some((_, left)) => left;
    Status(left.Some?, b.failures, left, b.lastError)
  }

  function RecordedState(b: Breaker): BreakerState
  {
    match b.phase
    case Closed => StateClosed
    case Open(_) => StateOpen
    case HalfOpen(_) => StateHalfOpen
  }

  // ---------------------------------------------------------------- transitions

  datatype Op =
    | Admit(now: Instant)
    | Check(now: Instant)
    | Success
    | Failure(now: Instant, message: Option<string>)

  function Admitted(b: Breaker, now: Instant): Breaker
  {
    if CheckAt(b, now) == Allowed && b.phase != Closed then b.(phase := HalfOpen(now)) else b
  }

  function Succeeded(b: Breaker): Breaker
  {
    b.(failures := 0, phase := Closed, lastError := None)
  }

  function Failed(b: Breaker, now: Instant, message: Option<string>): Breaker
  {
    var failures := if b.failures >= USIZE_MAX then USIZE_MAX else b.failures + 1;
    b.(failures := failures,
       phase := if failures >= b.threshold || b.phase.HalfOpen? then Open(now) else b.phase,
       lastError := if message.Some? then message else b.lastError)
  }

  /** The state after an operation, and its answer when it asks for admission. */
  function Apply(b: Breaker, op: Op): (Breaker, Admission)
  {
    match op
    case Admit(now) => (Admitted(b, now), CheckAt(b, now))
    case Check(now) => (b, CheckAt(b, now))
    case Success => (Succeeded(b), Allowed)
    case Failure(now, message) => (Failed(b, now, message), Allowed)
  }

  /** The breaker as the object the crate exports. */
  class CircuitBreaker {
    const threshold: nat
    const cooldown: nat
    var failures: nat
    var phase: Phase
    var lastError: Option<string>

    ghost function Model(): Breaker
      reads this
    {
      Breaker(threshold, cooldown, failures, phase, lastError)
    }

    constructor (threshold: nat, cooldown: nat)
      requires threshold <= U32_MAX
      ensures Model() == NewBreaker(threshold, cooldown)
    {
      this.threshold := if threshold == 0 then 1 else threshold;
      this.cooldown := cooldown;
      failures, phase, lastError := 0, Closed, None;
    }

    /** The cooldown left, read once for every question about time. */
    method Left(now: Instant) returns (gate: Option<(Phase, Option<nat>)>)
      ensures gate == Gate(Model(), now)
    {
      match phase
      case Closed => return None;
      case Open(since) =>
        var elapsed := if now < since then 0 else now - since;
        return Some((phase, if elapsed < cooldown then Some(cooldown - elapsed) else None));
      case HalfOpen(since) =>
        var elapsed := if now < since then 0 else now - since;
        return Some((phase, if elapsed < cooldown then Some(cooldown - elapsed) else None));
    }

    method Check(now: Instant) returns (a: Admission)
      ensures a == CheckAt(Model(), now)
    {
      var gate := Left(now);
      match gate
      case None => return Allowed;
      case Some((phase, left)) =>
        if left.None? {
          return Allowed;
        }
        return if phase.HalfOpen? then ProbeOutstanding(left.value) else RefusedOpen(left.value);
    }

    method Admit(now: Instant) returns (a: Admission)
      modifies this
      ensures (Model(), a) == Apply(old(Model()), Op.Admit(now))
    {
      a := Check(now);
      if a == Allowed && phase != Closed {
        phase := HalfOpen(now);
      }
    }

    method RecordSuccess()
      modifies this
      ensures Model() == Succeeded(old(Model()))
    {
      failures, phase, lastError := 0, Closed, None;
    }

    method RecordFailure(now: Instant, message: Option<string>)
      modifies this
      ensures Model() == Failed(old(Model()), now, message)
    {
      if message.Some? {
        lastError := message;
      }
      if failures < USIZE_MAX {
        failures := failures + 1;
      } else {
        failures := USIZE_MAX;
      }
      if failures >= threshold || phase.HalfOpen? {
        phase := Open(now);
      }
    }
  }

  // ---------------------------------------------------------------- invariants

  /** The phase is Closed exactly when the failures in a row are below the threshold. */
  ghost predicate Valid(b: Breaker)
  {
    && 1 <= b.threshold <= U32_MAX && b.failures <= USIZE_MAX
    && (b.phase == Closed <==> b.failures < b.threshold)
  }

  lemma NewIsValid(threshold: nat, cooldown: nat)
    requires threshold <= U32_MAX
    ensures Valid(NewBreaker(threshold, cooldown))
  {}

  lemma ApplyKeepsValid(b: Breaker, op: Op)
    requires Valid(b)
    ensures Valid(Apply(b, op).0)
    ensures Apply(b, op).0.threshold == b.threshold && Apply(b, op).0.cooldown == b.cooldown
  {}

  /** The questions agree: one answer to "would a call be admitted now, and if not why". */
  lemma QuestionsAgree(b: Breaker, now: Instant)
    ensures CheckAt(b, now) == Allowed <==> !StatusAt(b, now).open
    ensures CheckAt(b, now) == Apply(b, Admit(now)).1
    ensures CheckAt(b, now).RefusedOpen? <==> StateAt(b, now) == StateOpen
    ensures CheckAt(b, now).ProbeOutstanding? ==> StateAt(b, now) == StateHalfOpen
    ensures StateAt(b, now) == StateClosed <==> RecordedState(b) == StateClosed
    ensures CheckAt(b, now) != Allowed ==> StatusAt(b, now).retryAfter == Some(CheckAt(b, now).retryAfter)
  {}

  /** A refusal tells exactly how long it holds: no call is admitted before that time has
      passed, and one is as soon as it has. Under a clock that reads before the last transition
      that is a whole cooldown. */
  lemma RetryAfterIsExact(b: Breaker, now: Instant, later: Instant)
    requires CheckAt(b, now) != Allowed && now <= later
    ensures 0 < CheckAt(b, now).retryAfter <= b.cooldown
    ensures now >= b.phase.since ==> (CheckAt(b, later) == Allowed <==> later - now >= CheckAt(b, now).retryAfter)
    ensures now <= b.phase.since ==> CheckAt(b, now).retryAfter == b.cooldown
  {}

  /** An admission past the cooldown is the one probe: until a cooldown after it every other
      call is told that a probe is outstanding, and for how long. */
  lemma ProbeIsAlone(b: Breaker, now: Instant, later: Instant)
    requires b.phase != Closed && CheckAt(b, now) == Allowed && now <= later
    ensures var after := Apply(b, Admit(now)).0;
            CheckAt(after, later)
            == if later - now < b.cooldown then ProbeOutstanding(b.cooldown - (later - now)) else Allowed
  {}

  /** A failure that finds the breaker not Closed, as that of a probe does, reopens it for a
      whole cooldown from then on. */
  lemma FailureReopens(b: Breaker, now: Instant, message: Option<string>, later: Instant)
    requires Valid(b) && b.phase != Closed && now <= later
    ensures var after := Apply(b, Failure(now, message)).0;
            && CheckAt(after, later)
               == (if later - now < b.cooldown then RefusedOpen(b.cooldown - (later - now)) else Allowed)
            && RecordedState(after) == StateOpen
  {}

  // ---------------------------------------------------------------- runs

  function Time(op: Op): Option<Instant>
  {
    match op
    case Success => None
    case Admit(now) => Some(now)
    case Check(now) => Some(now)
    case Failure(now, _) => Some(now)
  }

  /** Times never run backwards: every read of the clock happens under the lock. */
  ghost predicate Ordered(ops: seq<Op>)
  {
    forall i, j :: 0 <= i < j < |ops| && Time(ops[i]).Some? && Time(ops[j]).Some? ==>
      Time(ops[i]).value <= Time(ops[j]).value
  }

  function Run(b: Breaker, ops: seq<Op>): Breaker
  {
    if ops == [] then b else Apply(Run(b, ops[..|ops| - 1]), ops[|ops| - 1]).0
  }

  /** Operation `i` admitted a call while the breaker was not Closed: a probe. */
  ghost predicate IsProbe(b: Breaker, ops: seq<Op>, i: nat)
    requires i < |ops|
  {
    var before := Run(b, ops[..i]);
    ops[i].Admit? && before.phase != Closed && CheckAt(before, ops[i].now) == Allowed
  }

  lemma {:induction false} RunKeepsValid(b: Breaker, ops: seq<Op>)
    requires Valid(b)
    ensures Valid(Run(b, ops))
    ensures Run(b, ops).threshold == b.threshold && Run(b, ops).cooldown == b.cooldown
  {
    if ops != [] {
      RunKeepsValid(b, ops[..|ops| - 1]);
      ApplyKeepsValid(Run(b, ops[..|ops| - 1]), ops[|ops| - 1]);
    }
  }

  /** From a probe on, until a success, the recorded transition is at or after the probe. */
  lemma {:induction false} ProbeHolds(b: Breaker, ops: seq<Op>, i: nat, n: nat)
    requires Valid(b) && Ordered(ops) && i < n <= |ops| && IsProbe(b, ops, i)
    requires forall k :: i < k < n ==> ops[k] != Success
    ensures var now := Run(b, ops[..n]);
            now.phase != Closed && now.phase.since >= ops[i].now && now.cooldown == b.cooldown
  {
    assert ops[..n][..n - 1] == ops[..n - 1];
    RunKeepsValid(b, ops[..n - 1]);
    if i < n - 1 {
      ProbeHolds(b, ops, i, n - 1);
    }
  }

  /** Two probes with no success between them are at least one cooldown apart. */
  lemma ProbesAreSpaced(b: Breaker, ops: seq<Op>, i: nat, j: nat)
    requires Valid(b) && Ordered(ops) && i < j < |ops|
    requires IsProbe(b, ops, i) && IsProbe(b, ops, j)
    requires forall k :: i < k < j ==> ops[k] != Success
    ensures ops[j].now - ops[i].now >= b.cooldown
  {
    ProbeHolds(b, ops, i, j);
  }

  /** When a call would next be admitted. */
  function AdmitsFrom(b: Breaker): Instant
    requires b.phase != Closed
  {
    b.phase.since + b.cooldown
  }

  /** No probe can block the breaker forever: a check admits exactly when the breaker is
      Closed or a cooldown has passed since its last recorded transition (a cooldown of
      zero never refuses). */
  lemma CheckAdmitsIff(b: Breaker, now: Instant)
    ensures CheckAt(b, now) == Allowed <==>
            (b.phase == Closed || b.cooldown == 0 || now >= AdmitsFrom(b))
  {}

  /** The last recorded transition is the time of some operation of the run, so in a run
      ordered by time a check one cooldown after the last operation always admits. */
  lemma {:induction false} LastTransitionIsPast(threshold: nat, cooldown: nat, ops: seq<Op>, now: Instant)
    requires threshold <= U32_MAX
    requires forall i :: 0 <= i < |ops| && Time(ops[i]).Some? ==> Time(ops[i]).value <= now
    ensures var b := Run(NewBreaker(threshold, cooldown), ops);
            (b.phase != Closed ==> b.phase.since <= now) && CheckAt(b, now + cooldown) == Allowed
  {
    RunKeepsValid(NewBreaker(threshold, cooldown), ops);
    if ops != [] {
      LastTransitionIsPast(threshold, cooldown, ops[..|ops| - 1], now);
      RunKeepsValid(NewBreaker(threshold, cooldown), ops[..|ops| - 1]);
    }
  }

  /** Failures in a row: those since the last success. */
  function Streak(ops: seq<Op>): nat
  {
    if ops == [] then 0
    else
      match ops[|ops| - 1]
      case Success => 0
      case Failure(_, _) => Streak(ops[..|ops| - 1]) + 1
      case _ => Streak(ops[..|ops| - 1])
  }

  /** Over every run the breaker is Closed exactly when the failures since the last success
      are fewer than the threshold, whatever was admitted or refused meanwhile. */
  lemma {:induction false} ClosedIffShortStreak(threshold: nat, cooldown: nat, ops: seq<Op>)
    requires threshold <= U32_MAX
    ensures var b := Run(NewBreaker(threshold, cooldown), ops);
            && b.failures == (if Streak(ops) < USIZE_MAX then Streak(ops) else USIZE_MAX)
            && (b.phase == Closed <==> Streak(ops) < b.threshold)
  {
    RunKeepsValid(NewBreaker(threshold, cooldown), ops);
    if ops != [] {
      ClosedIffShortStreak(threshold, cooldown, ops[..|ops| - 1]);
    }
  }

  /** The message of the last failure since the last success that came with one. */
  function LastMessage(ops: seq<Op>): Option<string>
  {
    if ops == [] then None
    else
      match ops[|ops| - 1]
      case Success => None
      case Failure(_, Some(message)) => Some(message)
      case _ => LastMessage(ops[..|ops| - 1])
  }

  /** Over every run a status counts the failures since the last success and quotes the last
      message among them. */
  lemma {:induction false} StatusTellsTheStreak(threshold: nat, cooldown: nat, ops: seq<Op>, now: Instant)
    requires threshold <= U32_MAX
    ensures var status := StatusAt(Run(NewBreaker(threshold, cooldown), ops), now);
            && status.lastError == LastMessage(ops)
            && status.consecutiveFailures == Min(Streak(ops), USIZE_MAX)
            && (status.open ==> Streak(ops) >= Max(1, threshold))
  {
    ClosedIffShortStreak(threshold, cooldown, ops);
    RunKeepsValid(NewBreaker(threshold, cooldown), ops);
    if ops != [] {
      StatusTellsTheStreak(threshold, cooldown, ops[..|ops| - 1], now);
    }
  }
}
