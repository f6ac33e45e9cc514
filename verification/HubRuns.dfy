/** Whole runs of the hub: any number of `ring` and `wait` calls, interleaved at their lock
    sections and at their notifications. */
module HubRuns {
  import opened Arithmetic
  import opened Options
  import opened Addressing
  import opened ReaderSets
  import opened Hub
  import opened HubHistory

  /** Where a `wait` call stands. Its notification is enabled from `Enabled` on. */
  datatype Pc =
    | AtTop            // about to create and enable its notification
    | Enabled          // about to check for a loss
    | LossChecked      // no loss; about to look for a first match
    | Sleeping         // matched; will take once the coalescing window has passed
    | NoMatch          // nothing to collect; about to look at the clock
    | Parked           // waiting for its notification or its deadline
    | Done(answer: Wake)

  datatype Waiter = Waiter(readers: seq<string>, pc: Pc, notified: bool)

  /** `owed` counts the `ring` calls that have pushed and not yet notified. */
  datatype System = System(t: Traced, waiters: map<nat, Waiter>, owed: nat)

  datatype Event =
    | RingCall(recipients: seq<string>, origin: Option<string>, now: int)
    | Notify
    | Arrive(id: nat, readers: seq<string>)
    | Advance(id: nat, expired: bool)

  const INIT := System(START, map[], 0)

  predicate Listening(pc: Pc)
  {
    pc.Enabled? || pc.LossChecked? || pc.Sleeping? || pc.NoMatch? || pc.Parked?
  }

  function Woken(w: Waiter): Waiter
  {
    if Listening(w.pc) then w.(notified := true) else w
  }

  /** One lock section, or one step between two of them, of the waiter `w`. */
  function Advanced(t: Traced, w: Waiter, expired: bool): (Traced, Waiter)
  {
    var key := Key(w.readers);
    match w.pc
    case AtTop => (t, w.(pc := Enabled, notified := false))
    case Enabled =>
      var (t', resync) := TracedResync(t, key);
      (t', w.(pc := if resync then Done(Resync) else LossChecked))
    case LossChecked =>
      (t, w.(pc := if Matching(t.st.log, w.readers, Get(t.st.cursors, key)) == [] then NoMatch else Sleeping))
    case Sleeping =>
      var (t', answer) := TracedTake(t, w.readers);
      (t', w.(pc := Done(answer)))
    case NoMatch => (t, w.(pc := if expired then Done(Timeout) else Parked))
    case Parked =>
      (t, if expired then w.(pc := Done(Timeout)) else if w.notified then w.(pc := AtTop) else w)
    case Done(_) => (t, w)
  }

  /** An event that is not possible in `s` leaves it as it is. */
  function Next(config: Config, s: System, e: Event): System
  {
    match e
    case RingCall(recipients, origin, now) =>
      System(TracedRing(config, s.t, recipients, origin, now), s.waiters,
             s.owed + if NonEmpty(recipients) != [] then 1 else 0)
    case Notify =>
      if s.owed == 0 then s
      else s.(waiters := map id | id in s.waiters :: Woken(s.waiters[id]), owed := s.owed - 1)
    case Arrive(id, readers) =>
      if id in s.waiters then s
      else
        var (t', answer) := TracedEnter(s.t, readers);
        var pc := match answer case None => AtTop case Some(a) => Done(a);
        s.(t := t', waiters := s.waiters[id := Waiter(readers, pc, false)])
    case Advance(id, expired) =>
      if id !in s.waiters then s
      else
        var (t', w) := Advanced(s.t, s.waiters[id], expired);
        s.(t := t', waiters := s.waiters[id := w])
  }

  function Exec(config: Config, s: System, events: seq<Event>): System
    decreases |events|
  {
    if events == [] then s
    else Exec(config, Next(config, s, events[0]), events[1..])
  }

  // ---------------------------------------------------------------- what every event keeps

  /** Waits name reader lists whose key sees what they see; newline-free ids always do. */
  ghost predicate Faithful(e: Event)
  {
    e.Arrive? ==> KeyFaithful(e.readers)
  }

  ghost predicate WaiterOk(t: Traced, w: Waiter)
  {
    w.pc.Done? || (Key(w.readers) in t.st.cursors && KeyFaithful(w.readers))
  }

  ghost predicate SysInv(s: System)
  {
    Inv(s.t) && forall id :: id in s.waiters ==> WaiterOk(s.t, s.waiters[id])
  }

  /** What no lock section undoes: a cursor. A wait can only clear losses, never mark one. */
  ghost predicate Grows(before: State, after: State)
  {
    forall key :: key in before.cursors ==> key in after.cursors && before.cursors[key] <= after.cursors[key]
  }

  /** A lock section of a wait: the accounts stay balanced, cursors only grow, the log
      stays as it is and no loss is marked. */
  ghost predicate WaitSection(before: Traced, after: Traced)
  {
    && Inv(after) && Grows(before.st, after.st)
    && after.st.log == before.st.log && after.st.lost.Keys <= before.st.lost.Keys
  }

  lemma ResyncIsWaitSection(t: Traced, key: string)
    requires Inv(t)
    ensures WaitSection(t, TracedResync(t, key).0)
  {
    ResyncKeepsInv(t, key);
    forall other | other in t.st.cursors ensures t.st.cursors[other] <= t.st.seqNo {
      assert KeyOk(t, other);
    }
  }

  lemma MailGrows(st: State, readers: seq<string>)
    requires Key(readers) in st.cursors && Key(readers) !in st.lost
    ensures var after := Taken(st, readers).0;
            Grows(st, after) && after.log == st.log && after.lost == st.lost
  {
    var key := Key(readers);
    var found := Matching(st.log, readers, st.cursors[key]);
    if found != [] {
      var last := found[|found| - 1];
      assert last in found;
      assert Matches(last, readers, st.cursors[key]);
      TakenIsAnswered(st, readers);
      assert Taken(st, readers).0.cursors == st.cursors[key := last.seqNo];
    }
  }

  lemma TakeIsWaitSection(t: Traced, readers: seq<string>)
    requires Inv(t) && Key(readers) in t.st.cursors && KeyFaithful(readers)
    ensures WaitSection(t, TracedTake(t, readers).0)
  {
    TakeKeepsInv(t, readers);
    if Key(readers) in t.st.lost {
      ResyncIsWaitSection(t, Key(readers));
    } else {
      MailGrows(t.st, readers);
    }
  }

  lemma EnterIsWaitSection(t: Traced, readers: seq<string>)
    requires Inv(t)
    ensures var (t', answer) := TracedEnter(t, readers);
            WaitSection(t, t') && (answer.None? ==> Key(readers) in t'.st.cursors)
  {
    EnterKeepsInv(t, readers);
    ResyncIsWaitSection(t, Key(readers));
  }

  lemma AdvanceIsWaitSection(t: Traced, w: Waiter, expired: bool)
    requires Inv(t) && WaiterOk(t, w)
    ensures var (t', w') := Advanced(t, w, expired);
            WaitSection(t, t') && WaiterOk(t', w')
  {
    var (t', w') := Advanced(t, w, expired);
    match w.pc
    case Enabled =>
      ResyncIsWaitSection(t, Key(w.readers));
      GrownWaiterOk(t, t', w);
    case Sleeping =>
      TakeIsWaitSection(t, w.readers);
    case _ =>
  }

  lemma GrownWaiterOk(t: Traced, t': Traced, w: Waiter)
    requires WaiterOk(t, w) && Grows(t.st, t'.st)
    ensures WaiterOk(t', w)
  {}

  lemma RingKeepsCursors(config: Config, st: State, recipients: seq<string>, origin: Option<string>, now: int)
    ensures Rung(config, st, recipients, origin, now).cursors == st.cursors
  {
    var n := TrimIsLeast(config, Pushed(st, recipients, origin, now), now);
  }

  /** Every event keeps the hub's accounts, and no event moves a cursor back. */
  lemma NextKeepsInv(config: Config, s: System, e: Event)
    requires SysInv(s) && Faithful(e)
    ensures SysInv(Next(config, s, e)) && Grows(s.t.st, Next(config, s, e).t.st)
  {
    match e
    case RingCall(recipients, origin, now) =>
      RingKeepsInv(config, s.t, recipients, origin, now);
      RingKeepsCursors(config, s.t.st, recipients, origin, now);
    case Notify =>
    case Arrive(id, readers) =>
      if id !in s.waiters {
        EnterIsWaitSection(s.t, readers);
      }
    case Advance(id, expired) =>
      if id in s.waiters { AdvanceIsWaitSection(s.t, s.waiters[id], expired); }
  }

  /** The hub's accounts balance in every state of every run, and cursors only grow. */
  lemma {:induction false} RunKeepsInv(config: Config, s: System, events: seq<Event>)
    requires SysInv(s) && forall i :: 0 <= i < |events| ==> Faithful(events[i])
    ensures SysInv(Exec(config, s, events)) && Grows(s.t.st, Exec(config, s, events).t.st)
    decreases |events|
  {
    if events != [] {
      NextKeepsInv(config, s, events[0]);
      RunKeepsInv(config, Next(config, s, events[0]), events[1..]);
    }
  }

  // ---------------------------------------------------------------- one place for every ring

  /** Where a ring that a reader set sees can be: counted in answer `d`, covered by the
      resync `d`, in the log above the cursor, or trimmed above the cursor. */
  datatype Place = Counted(d: nat) | Covered(d: nat) | InLog | Lost

  ghost predicate At(t: Traced, key: string, i: nat, place: Place)
    requires LogOk(t) && key in t.st.cursors && key in t.h.deliveries && i < |t.h.rings|
  {
    var ds, ring := t.h.deliveries[key], t.h.rings[i];
    match place
    case Counted(d) => d < |ds| && ds[d].lo <= i < ds[d].hi && ds[d].answer.Mail?
    case Covered(d) => d < |ds| && ds[d].lo <= i < ds[d].hi && ds[d].answer.Resync?
    case InLog => ring in t.st.log && ring.seqNo > t.st.cursors[key]
    case Lost => ring !in t.st.log && ring.seqNo > t.st.cursors[key]
  }

  lemma {:induction false} TilesBounds(rings: seq<Ring>, key: string, ds: seq<Delivery>, from: nat, cursor: nat, d: nat)
    requires Tiles(rings, key, ds, from, cursor) && d < |ds|
    ensures from <= ds[d].lo <= ds[d].hi <= cursor && DeliveryOk(rings, key, ds[d])
  {
    var last := ds[|ds| - 1];
    if d < |ds| - 1 {
      TilesBounds(rings, key, ds[..|ds| - 1], from, last.lo, d);
    } else if |ds| > 1 {
      TilesBounds(rings, key, ds[..|ds| - 1], from, last.lo, 0);
    }
  }

  lemma {:induction false} TilesHold(rings: seq<Ring>, key: string, ds: seq<Delivery>, from: nat, cursor: nat, i: nat)
    returns (d: nat)
    requires Tiles(rings, key, ds, from, cursor) && from <= i < cursor
    ensures d < |ds| && ds[d].lo <= i < ds[d].hi
    ensures forall other :: 0 <= other < |ds| && ds[other].lo <= i < ds[other].hi ==> other == d
  {
    var last, init := ds[|ds| - 1], ds[..|ds| - 1];
    if last.lo <= i {
      d := |ds| - 1;
      forall other | 0 <= other < |init| ensures ds[other].hi <= i {
        TilesBounds(rings, key, init, from, last.lo, other);
      }
    } else {
      d := TilesHold(rings, key, init, from, last.lo, i);
      forall other | 0 <= other < |ds| && ds[other].lo <= i < ds[other].hi ensures other == d {
        if other < |init| { assert init[other] == ds[other]; }
      }
    }
  }

  lemma LogMembership(t: Traced, i: nat)
    requires LogOk(t) && i < |t.h.rings|
    ensures t.h.rings[i] in t.st.log <==> i >= Gone(t)
  {
    var gone := Gone(t);
    if i >= gone {
      assert t.st.log[i - gone] == t.h.rings[i];
    }
  }

  /** Nothing missed, nothing delivered twice: in every state of every run, each ring that
      a reader set sees and that came after its registration is in exactly one place. */
  lemma EveryRingHasOnePlace(config: Config, events: seq<Event>, key: string, i: nat) returns (place: Place)
    requires forall e :: 0 <= e < |events| ==> Faithful(events[e])
    requires var t := Exec(config, INIT, events).t;
             key in t.h.registered && t.h.registered[key] <= i < |t.h.rings| && Watches(key, t.h.rings[i].recipient)
    ensures var t := Exec(config, INIT, events).t;
            && SysInv(Exec(config, INIT, events))
            && At(t, key, i, place)
            && (forall other :: At(t, key, i, other) ==> other == place)
            && Get(t.st.lost, key) == |Seen(t.h.rings, key, t.st.cursors[key], Gone(t))|
  {
    RunKeepsInv(config, INIT, events);
    var t := Exec(config, INIT, events).t;
    assert KeyOk(t, key);
    var ds, from, cursor := t.h.deliveries[key], t.h.registered[key], t.st.cursors[key];
    LogMembership(t, i);
    forall d | 0 <= d < |ds| ensures ds[d].hi <= cursor && !ds[d].answer.Timeout? {
      TilesBounds(t.h.rings, key, ds, from, cursor, d);
    }
    if i < cursor {
      var d := TilesHold(t.h.rings, key, ds, from, cursor, i);
      place := if ds[d].answer.Mail? then Counted(d) else Covered(d);
    } else {
      place := if i >= Gone(t) then InLog else Lost;
    }
  }

  // ---------------------------------------------------------------- the books balance

  /** Rings counted in Mail answers. */
  function MailTotal(ds: seq<Delivery>): nat
  {
    if ds == [] then 0
    else MailTotal(ds[..|ds| - 1]) + match ds[|ds| - 1].answer case Mail(count, _, _) => count case _ => 0
  }

  /** Rings a reader set was told to find for itself. */
  function ResyncTotal(rings: seq<Ring>, key: string, ds: seq<Delivery>): nat
    requires forall d :: 0 <= d < |ds| ==> ds[d].hi <= |rings|
  {
    if ds == [] then 0
    else
      var last := ds[|ds| - 1];
      ResyncTotal(rings, key, ds[..|ds| - 1]) +
      if last.answer.Resync? then |Seen(rings, key, last.lo, last.hi)| else 0
  }

  lemma {:induction false} TilesTotal(rings: seq<Ring>, key: string, ds: seq<Delivery>, from: nat, cursor: nat)
    requires Tiles(rings, key, ds, from, cursor) && cursor <= |rings|
    ensures forall d :: 0 <= d < |ds| ==> ds[d].hi <= |rings|
    ensures from <= cursor
    ensures MailTotal(ds) + ResyncTotal(rings, key, ds) == |Seen(rings, key, from, cursor)|
  {
    if ds != [] {
      var last, init := ds[|ds| - 1], ds[..|ds| - 1];
      TilesTotal(rings, key, init, from, last.lo);
      SeenSplits(rings, key, from, last.lo, last.hi);
      forall d | 0 <= d < |ds| ensures ds[d].hi <= |rings| {
        if d < |init| { assert init[d] == ds[d]; }
      }
    }
  }

  /** What `status` reports as pending for a registered reader set. */
  function Pending(st: State, key: string): nat
  {
    |Matching(st.log, SplitLines(key), Get(st.cursors, key))|
  }

  /** Above the cursor a ring a reader set sees is pending or lost. */
  lemma UncollectedSplits(t: Traced, key: string)
    requires LogOk(t) && key in t.st.cursors && key in t.h.registered && key in t.h.deliveries && KeyOk(t, key)
    ensures Pending(t.st, key) + Get(t.st.lost, key) == |Seen(t.h.rings, key, t.st.cursors[key], |t.h.rings|)|
  {
    var rings, cursor, gone := t.h.rings, t.st.cursors[key], Gone(t);
    assert rings[gone..] == rings[gone..|rings|];
    MatchingIsSeen(rings, SplitLines(key), key, cursor, gone, |rings|);
    SeenSplits(rings, key, cursor, Max(cursor, gone), |rings|);
    assert Seen(rings, key, cursor, Max(cursor, gone)) == Seen(rings, key, cursor, gone);
  }

  lemma AccountBalances(t: Traced, key: string)
    requires LogOk(t) && key in t.st.cursors && key in t.h.registered && key in t.h.deliveries && KeyOk(t, key)
    ensures forall d :: 0 <= d < |t.h.deliveries[key]| ==> t.h.deliveries[key][d].hi <= |t.h.rings|
    ensures |Seen(t.h.rings, key, t.h.registered[key], |t.h.rings|)|
            == MailTotal(t.h.deliveries[key]) + ResyncTotal(t.h.rings, key, t.h.deliveries[key])
               + Pending(t.st, key) + Get(t.st.lost, key)
  {
    TilesTotal(t.h.rings, key, t.h.deliveries[key], t.h.registered[key], t.st.cursors[key]);
    SeenSplits(t.h.rings, key, t.h.registered[key], t.st.cursors[key], |t.h.rings|);
    UncollectedSplits(t, key);
  }

  /** Conservation: rings seen since registration = counted in mail + covered by a resync
      + pending + aged out. */
  lemma BooksBalance(config: Config, events: seq<Event>, key: string)
    requires forall e :: 0 <= e < |events| ==> Faithful(events[e])
    requires key in Exec(config, INIT, events).t.h.registered
    ensures var t := Exec(config, INIT, events).t;
            && SysInv(Exec(config, INIT, events))
            && (forall d :: 0 <= d < |t.h.deliveries[key]| ==> t.h.deliveries[key][d].hi <= |t.h.rings|)
            && |Seen(t.h.rings, key, t.h.registered[key], |t.h.rings|)|
               == MailTotal(t.h.deliveries[key]) + ResyncTotal(t.h.rings, key, t.h.deliveries[key])
                  + Pending(t.st, key) + Get(t.st.lost, key)
  {
    RunKeepsInv(config, INIT, events);
    AccountBalances(Exec(config, INIT, events).t, key);
  }

  // ---------------------------------------------------------------- no lost wake-up

  /** There is something for these readers to collect, or a loss to tell them of. */
  ghost predicate HasNews(st: State, readers: seq<string>)
  {
    Key(readers) in st.lost || Matching(st.log, readers, Get(st.cursors, Key(readers))) != []
  }

  /** A waiter parked without a notification has nothing to hear of, unless a ring call
      has pushed and is about to notify. */
  ghost predicate NoLostWakeup(s: System)
  {
    forall id :: id in s.waiters && s.waiters[id].pc.Parked? && !s.waiters[id].notified ==>
      s.owed > 0 || !HasNews(s.t.st, s.waiters[id].readers)
  }

  /** The same along the way to the park: each check, once passed, stays passed. */
  ghost predicate ChecksHold(st: State, w: Waiter)
  {
    match w.pc
    case LossChecked => Key(w.readers) !in st.lost
    case NoMatch => !HasNews(st, w.readers)
    case Parked => !HasNews(st, w.readers)
    case _ => true
  }

  ghost predicate WakeInv(s: System)
  {
    s.owed > 0 ||
    forall id :: id in s.waiters && !s.waiters[id].notified ==> ChecksHold(s.t.st, s.waiters[id])
  }

  lemma ChecksSurviveWaits(before: Traced, after: Traced, w: Waiter)
    requires WaitSection(before, after)
    requires WaiterOk(before, w) && ChecksHold(before.st, w)
    ensures ChecksHold(after.st, w)
  {
    if w.pc.NoMatch? || w.pc.Parked? {
      var found := Matching(after.st.log, w.readers, after.st.cursors[Key(w.readers)]);
      if found != [] {
        assert found[0] in found;
        assert Matches(found[0], w.readers, before.st.cursors[Key(w.readers)]);
      }
    }
  }

  lemma AdvanceKeepsChecks(t: Traced, w: Waiter, expired: bool)
    requires Inv(t) && WaiterOk(t, w)
    requires w.notified || ChecksHold(t.st, w)
    ensures var (t', w') := Advanced(t, w, expired);
            w'.notified || ChecksHold(t'.st, w')
  {
    hide Inv, WaiterOk, TracedTake, Record, Matching, Key;
  }

  /** A wait's section keeps the checks of every waiter it does not move. */
  lemma OthersKeepChecks(s: System, s': System, id: nat)
    requires SysInv(s) && s.owed == 0 && WakeInv(s) && WaitSection(s.t, s'.t)
    requires s'.waiters.Keys == s.waiters.Keys + {id}
    requires forall other :: other in s.waiters && other != id ==> s'.waiters[other] == s.waiters[other]
    requires s'.waiters[id].notified || ChecksHold(s'.t.st, s'.waiters[id])
    ensures WakeInv(s')
  {
    forall other | other in s'.waiters && !s'.waiters[other].notified ensures ChecksHold(s'.t.st, s'.waiters[other]) {
      if other != id {
        assert WaiterOk(s.t, s.waiters[other]);
        ChecksSurviveWaits(s.t, s'.t, s.waiters[other]);
      }
    }
  }

  /** Rings that reach somebody notify everybody; then every event keeps the checks. */
  lemma NextKeepsWakeInv(config: Config, s: System, e: Event)
    requires SysInv(s) && Faithful(e) && WakeInv(s)
    requires e.RingCall? ==> NonEmpty(e.recipients) != []
    ensures WakeInv(Next(config, s, e))
  {
    hide Recipients, Origins;
    match e
    case RingCall(_, _, _) =>
    case Notify =>
    case Arrive(id, readers) =>
      if id !in s.waiters && s.owed == 0 {
        EnterIsWaitSection(s.t, readers);
        OthersKeepChecks(s, Next(config, s, e), id);
      }
    case Advance(id, expired) =>
      if id in s.waiters && s.owed == 0 {
        assert WaiterOk(s.t, s.waiters[id]);
        AdvanceIsWaitSection(s.t, s.waiters[id], expired);
        AdvanceKeepsChecks(s.t, s.waiters[id], expired);
        OthersKeepChecks(s, Next(config, s, e), id);
      }
  }

  lemma ChecksImplyNoLostWakeup(s: System)
    requires WakeInv(s)
    ensures NoLostWakeup(s)
  {
    forall id | id in s.waiters && s.waiters[id].pc.Parked? && !s.waiters[id].notified
      ensures s.owed > 0 || !HasNews(s.t.st, s.waiters[id].readers)
    {
      if s.owed == 0 { assert ChecksHold(s.t.st, s.waiters[id]); }
    }
  }

  /** No lost wake-up in any run whose ring calls each name somebody. */
  lemma {:induction false} NoWakeupIsLost(config: Config, s: System, events: seq<Event>)
    requires SysInv(s) && WakeInv(s)
    requires forall i :: 0 <= i < |events| ==> Faithful(events[i])
    requires forall i :: 0 <= i < |events| && events[i].RingCall? ==> NonEmpty(events[i].recipients) != []
    ensures WakeInv(Exec(config, s, events)) && NoLostWakeup(Exec(config, s, events))
    decreases |events|
  {
    if events == [] {
      ChecksImplyNoLostWakeup(s);
    } else {
      NextKeepsInv(config, s, events[0]);
      NextKeepsWakeInv(config, s, events[0]);
      NoWakeupIsLost(config, Next(config, s, events[0]), events[1..]);
    }
  }

  // ---------------------------------------------------------------- the silent ring

  function Rang(id: string): Ring
  {
    Logged(1, id, None, 0)
  }

  function Fresh(id: string): Traced
  {
    Traced(State(0, [], map[id := 0], map[], map[]), History([], map[id := 0], map[id := []]))
  }

  function Heard(id: string): Traced
  {
    Traced(State(1, [Rang(id)], map[id := 0], map[], map[]), History([Rang(id)], map[id := 0], map[id := []]))
  }

  /** Reader `id` registered in wait 0; one ring for it was pushed and notified at time 0;
      then wait 1 for `id` came as far as `pc`. */
  function SecondWait(id: string, pc: Pc): System
  {
    System(Heard(id), map[0 := Waiter([id], Done(Resync), false), 1 := Waiter([id], pc, false)], 0)
  }

  lemma KeyOf(id: string)
    requires id != "" && NEWLINE !in id
    ensures Key([id]) == id && KeyFaithful([id]) && Watches(id, id)
    ensures NonEmpty([id]) == [id] && NonEmpty([]) == []
  {
    assert [id][1..] == [] && [id][..0] == [];
    assert DistinctIds([id]) == [id];
    NewlineFreeIsFaithful([id]);
    assert Sees([id][0], id);
  }

  lemma ExecOne(config: Config, s: System, e: Event)
    ensures Exec(config, s, [e]) == Next(config, s, e)
  {
    assert [e][1..] == [];
    assert Exec(config, Next(config, s, e), []) == Next(config, s, e);
  }

  lemma Register(config: Config, id: string)
    requires id != "" && NEWLINE !in id
    ensures Next(config, INIT, Arrive(0, [id])) == System(Fresh(id), map[0 := Waiter([id], Done(Resync), false)], 0)
  {
    KeyOf(id);
  }

  lemma RingFor(config: Config, s: System, id: string)
    requires id != "" && NEWLINE !in id && config.maxLog >= 1 && s.t == Fresh(id)
    ensures Next(config, s, RingCall([id], None, 0)) == s.(t := Heard(id), owed := s.owed + 1)
  {
    KeyOf(id);
    var pushed := Pushed(s.t.st, [id], None, 0);
    assert pushed.log == [Rang(id)];
    assert Trimmed(config, pushed, 0) == pushed;
  }

  lemma EnterAgain(config: Config, s: System, id: string)
    requires id != "" && NEWLINE !in id
    requires s == System(Heard(id), map[0 := Waiter([id], Done(Resync), false)], 0)
    ensures Next(config, s, Arrive(1, [id])) == SecondWait(id, AtTop)
  {
    KeyOf(id);
  }

  lemma EnableAndCheck(config: Config, id: string)
    requires id != "" && NEWLINE !in id
    ensures Next(config, SecondWait(id, AtTop), Advance(1, false)) == SecondWait(id, Enabled)
    ensures Next(config, SecondWait(id, Enabled), Advance(1, false)) == SecondWait(id, LossChecked)
  {
    KeyOf(id);
  }

  lemma MidWaitIsReached(config: Config, id: string) returns (events: seq<Event>)
    requires id != "" && NEWLINE !in id && config.maxLog >= 1
    ensures Exec(config, INIT, events) == SecondWait(id, LossChecked)
    ensures forall i :: 0 <= i < |events| ==> Faithful(events[i])
  {
    KeyOf(id);
    var register, ring, arrive, step := Arrive(0, [id]), RingCall([id], None, 0), Arrive(1, [id]), Advance(1, false);
    var s1 := Next(config, INIT, register);
    Register(config, id);
    var s2 := Next(config, s1, ring);
    RingFor(config, s1, id);
    var s3 := Next(config, s2, Notify);
    assert s3.waiters == map[0 := Waiter([id], Done(Resync), false)];
    EnterAgain(config, s3, id);
    EnableAndCheck(config, id);
    ExecOne(config, INIT, register);
    ExecOne(config, s1, ring);
    ExecAppends(config, INIT, [register], [ring]);
    ExecOne(config, s2, Notify);
    ExecAppends(config, INIT, [register] + [ring], [Notify]);
    ExecOne(config, s3, arrive);
    ExecAppends(config, INIT, [register] + [ring] + [Notify], [arrive]);
    ExecOne(config, SecondWait(id, AtTop), step);
    ExecAppends(config, INIT, [register] + [ring] + [Notify] + [arrive], [step]);
    ExecOne(config, SecondWait(id, Enabled), step);
    ExecAppends(config, INIT, [register] + [ring] + [Notify] + [arrive] + [step], [step]);
    events := [register] + [ring] + [Notify] + [arrive] + [step] + [step];
  }

  /** A ring call with nobody to ring still trims, and it notifies nobody. */
  lemma SilentRingMarksLoss(config: Config, id: string, recipients: seq<string>, origin: Option<string>)
    requires id != "" && NEWLINE !in id && NonEmpty(recipients) == []
    ensures var s := Next(config, SecondWait(id, LossChecked), RingCall(recipients, origin, config.keep + 1));
            && s.t.st == State(1, [], map[id := 0], map[], map[id := 1])
            && s.waiters == SecondWait(id, LossChecked).waiters && s.owed == 0
            && !WakeInv(s)
  {
    KeyOf(id);
    var st, now := Heard(id).st, config.keep + 1;
    assert Pushed(st, recipients, origin, now) == st;
    assert MustTrim(config, st.log, now);
    assert Affected(st.cursors, Rang(id)) == {id};
    var after := TrimOne(st);
    assert after == State(1, [], map[id := 0], map[], map[id := 1]);
    assert Trimmed(config, after, now) == after;
    var s := Next(config, SecondWait(id, LossChecked), RingCall(recipients, origin, now));
    assert !ChecksHold(s.t.st, s.waiters[1]);
  }

  /** The waiter's second check then finds an empty log, and it parks. */
  lemma ParksOnLoss(config: Config, id: string, s: System)
    requires id != "" && NEWLINE !in id
    requires s.t.st == State(1, [], map[id := 0], map[], map[id := 1])
    requires s.waiters == SecondWait(id, LossChecked).waiters && s.owed == 0
    ensures var s' := Next(config, Next(config, s, Advance(1, false)), Advance(1, false));
            1 in s'.waiters && s'.waiters[1] == Waiter([id], Parked, false) && s'.t == s.t && s'.owed == 0
            && !NoLostWakeup(s')
  {
    KeyOf(id);
    var s1 := Next(config, s, Advance(1, false));
    assert s1.waiters[1] == Waiter([id], NoMatch, false);
    var s2 := Next(config, s1, Advance(1, false));
    assert s2.waiters[1] == Waiter([id], Parked, false);
    assert HasNews(s2.t.st, [id]);
  }

  /** A `ring` call keeps every waiter's checks, in every state, exactly when at least one
      recipient is non-empty. The HTTP route refuses the calls that fail this; `Hub::ring`
      itself does not. */
  lemma RingKeepsChecksIff(config: Config, recipients: seq<string>, origin: Option<string>)
    requires config.maxLog >= 1
    ensures (forall s, now :: SysInv(s) && WakeInv(s) ==> WakeInv(Next(config, s, RingCall(recipients, origin, now))))
            <==> exists i :: 0 <= i < |recipients| && recipients[i] != ""
  {
    if NonEmpty(recipients) != [] {
      assert NonEmpty(recipients)[0] in recipients;
      forall s, now | SysInv(s) && WakeInv(s)
        ensures WakeInv(Next(config, s, RingCall(recipients, origin, now)))
      {
        NextKeepsWakeInv(config, s, RingCall(recipients, origin, now));
      }
    } else {
      forall i | 0 <= i < |recipients| ensures recipients[i] == "" {
        assert recipients[i] !in NonEmpty(recipients);
        assert recipients[i] in recipients;
      }
      var id := SomeId();
      SilentRingBreaksChecks(config, id, recipients, origin);
    }
  }

  lemma SomeId() returns (id: string)
    ensures id != "" && NEWLINE !in id
  {
    id := "a";
  }

  lemma SilentRingBreaksChecks(config: Config, id: string, recipients: seq<string>, origin: Option<string>)
    requires id != "" && NEWLINE !in id && NonEmpty(recipients) == [] && config.maxLog >= 1
    ensures var s := SecondWait(id, LossChecked);
            SysInv(s) && WakeInv(s) && !WakeInv(Next(config, s, RingCall(recipients, origin, config.keep + 1)))
  {
    SecondWaitIsReached(config, id);
    SecondWaitChecks(id);
    SilentRingMarksLoss(config, id, recipients, origin);
  }

  lemma SecondWaitIsReached(config: Config, id: string)
    requires id != "" && NEWLINE !in id && config.maxLog >= 1
    ensures SysInv(SecondWait(id, LossChecked))
  {
    var events := MidWaitIsReached(config, id);
    RunKeepsInv(config, INIT, events);
  }

  lemma SecondWaitChecks(id: string)
    ensures WakeInv(SecondWait(id, LossChecked))
  {
    var s := SecondWait(id, LossChecked);
    assert ChecksHold(s.t.st, s.waiters[0]) && ChecksHold(s.t.st, s.waiters[1]);
  }

  /** The run that loses a wake-up: the silent ring trims between the waiter's two checks,
      and the waiter parks with a loss marked and nobody about to notify it. */
  lemma SilentRingLosesWakeup(config: Config, id: string) returns (events: seq<Event>)
    requires id != "" && NEWLINE !in id && config.maxLog >= 1
    ensures forall i :: 0 <= i < |events| ==> Faithful(events[i])
    ensures !NoLostWakeup(Exec(config, INIT, events))
  {
    KeyOf(id);
    var setup := MidWaitIsReached(config, id);
    var silent, step := RingCall([], None, config.keep + 1), Advance(1, false);
    SilentRingMarksLoss(config, id, [], None);
    var s1 := Next(config, SecondWait(id, LossChecked), silent);
    ParksOnLoss(config, id, s1);
    var s2 := Next(config, s1, step);
    ExecOne(config, SecondWait(id, LossChecked), silent);
    ExecAppends(config, INIT, setup, [silent]);
    ExecOne(config, s1, step);
    ExecAppends(config, INIT, setup + [silent], [step]);
    ExecOne(config, s2, step);
    ExecAppends(config, INIT, setup + [silent] + [step], [step]);
    events := setup + [silent] + [step] + [step];
  }

  lemma {:induction false} ExecAppends(config: Config, s: System, events: seq<Event>, more: seq<Event>)
    ensures Exec(config, s, events + more) == Exec(config, Exec(config, s, events), more)
    decreases |events|
  {
    if events == [] {
      assert events + more == more;
    } else {
      assert (events + more)[1..] == events[1..] + more;
      ExecAppends(config, Next(config, s, events[0]), events[1..], more);
    }
  }
}
