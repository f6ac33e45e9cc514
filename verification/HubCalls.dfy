/** What the hub's callers can rely on in any run: a ring call's recipients each get a ring of
    their own and no ring comes from elsewhere; a woken waiter is answered; and a wait ends
    once its deadline has passed. */
module HubCalls {
  import opened Options
  import opened Addressing
  import opened ReaderSets
  import opened Hub
  import opened HubHistory
  import opened HubRuns
  import opened HubTimeouts

  // ---------------------------------------------------------------- from call to ring

  /** `rings` grow by those of one ring call. */
  ghost predicate GrowsBy(before: seq<Ring>, after: seq<Ring>, e: Event)
    requires e.RingCall?
  {
    before <= after && LogsEach(after[|before|..], |before|, e.recipients, e.origin, e.now)
  }

  lemma CallLogsEach(config: Config, s: System, e: Event)
    requires LogOk(s.t) && e.RingCall?
    ensures GrowsBy(s.t.h.rings, Next(config, s, e).t.h.rings, e)
  {
    PushLogsEach(s.t.st, e.recipients, e.origin, e.now);
    var after := Next(config, s, e).t.h.rings;
    assert after[|s.t.h.rings|..] == Pushed(s.t.st, e.recipients, e.origin, e.now).log[|s.t.st.log|..];
  }

  lemma OnlyCallsLog(config: Config, s: System, e: Event)
    requires !e.RingCall?
    ensures Next(config, s, e).t.h.rings == s.t.h.rings
  {}

  /** The ring of recipient `j` of the call that is event `n` of the run. */
  ghost predicate IsRingOf(config: Config, events: seq<Event>, i: nat, ring: Ring, n: nat, j: nat)
  {
    && n < |events| && events[n].RingCall? && j < |events[n].recipients| && events[n].recipients[j] != ""
    && i == |Exec(config, INIT, events[..n]).t.h.rings| + Named(events[n].recipients[..j])
    && ring == Logged(i + 1, events[n].recipients[j], events[n].origin, events[n].now)
  }

  lemma RunSplits(config: Config, events: seq<Event>, n: nat)
    requires n < |events|
    requires forall e :: 0 <= e < |events| ==> Faithful(events[e])
    ensures var s := Exec(config, INIT, events[..n]);
            && SysInv(s) && SysInv(Next(config, s, events[n]))
            && Exec(config, INIT, events) == Exec(config, Next(config, s, events[n]), events[n + 1..])
            && Extends(s.t.h, Exec(config, INIT, events).t.h)
            && Extends(Next(config, s, events[n]).t.h, Exec(config, INIT, events).t.h)
  {
    hide SysInv, Extends, Next, Faithful;
    var s := Exec(config, INIT, events[..n]);
    StartIsOk();
    assert events == events[..n] + events[n..];
    ExecAppends(config, INIT, events[..n], events[n..]);
    RunKeepsInv(config, INIT, events[..n]);
    NextKeepsInv(config, s, events[n]);
    RunExtends(config, s, events[n..]);
    RunExtends(config, Next(config, s, events[n]), events[n + 1..]);
    assert events[n..][1..] == events[n + 1..];
  }

  lemma StartIsOk()
    ensures SysInv(INIT)
  {}

  /** Every recipient of every ring call of a run has its ring in the history, and keeps it. */
  lemma RecipientsAreLogged(config: Config, events: seq<Event>, n: nat, j: nat) returns (i: nat)
    requires forall e :: 0 <= e < |events| ==> Faithful(events[e])
    requires n < |events| && events[n].RingCall? && j < |events[n].recipients| && events[n].recipients[j] != ""
    ensures var rings := Exec(config, INIT, events).t.h.rings;
            i < |rings| && IsRingOf(config, events, i, rings[i], n, j)
  {
    hide SysInv, Next, Faithful;
    var s := Exec(config, INIT, events[..n]);
    RunSplits(config, events, n);
    FramedByInv(s);
    CallLogsEach(config, s, events[n]);
    i := |s.t.h.rings| + Named(events[n].recipients[..j]);
    var after := Next(config, s, events[n]).t.h.rings;
    assert after[i] == after[|s.t.h.rings|..][Named(events[n].recipients[..j])];
  }

  lemma FramedByInv(s: System)
    requires SysInv(s)
    ensures LogOk(s.t) && s.t.st.seqNo == |s.t.h.rings|
  {}

  /** A ring that is new is one of the call that was made. */
  lemma NewRingIsOfCall(config: Config, s: System, e: Event, i: nat) returns (j: nat)
    requires LogOk(s.t) && |s.t.h.rings| <= i < |Next(config, s, e).t.h.rings|
    ensures e.RingCall? && j < |e.recipients| && e.recipients[j] != ""
    ensures i == |s.t.h.rings| + Named(e.recipients[..j])
    ensures Next(config, s, e).t.h.rings[i] == Logged(i + 1, e.recipients[j], e.origin, e.now)
  {
    hide Next;
    if !e.RingCall? { OnlyCallsLog(config, s, e); }
    CallLogsEach(config, s, e);
    var before, after := s.t.h.rings, Next(config, s, e).t.h.rings;
    j := NamedAt(e.recipients, i - |before|);
    assert after[i] == after[|before|..][i - |before|];
  }

  lemma RingOfLonger(config: Config, events: seq<Event>, m: nat, i: nat, ring: Ring, n: nat, j: nat)
    requires m <= |events| && IsRingOf(config, events[..m], i, ring, n, j)
    ensures IsRingOf(config, events, i, ring, n, j)
  {
    hide Exec;
    assert events[..m][..n] == events[..n];
  }

  /** And each ring of the history is that of one recipient of one ring call. */
  lemma {:induction false} RingsComeFromCalls(config: Config, events: seq<Event>, i: nat) returns (n: nat, j: nat)
    requires forall e :: 0 <= e < |events| ==> Faithful(events[e])
    requires i < |Exec(config, INIT, events).t.h.rings|
    ensures IsRingOf(config, events, i, Exec(config, INIT, events).t.h.rings[i], n, j)
    decreases |events|
  {
    hide SysInv, Next, Faithful, Extends, Exec;
    if events == [] {
      NoRingsYet(config);
    } else {
      var m := |events| - 1;
      var s := Exec(config, INIT, events[..m]);
      RunSplits(config, events, m);
      LastStep(config, Next(config, s, events[m]), events[m + 1..]);
      FramedByInv(s);
      if i < |s.t.h.rings| {
        KeepsRings(s.t.h, Exec(config, INIT, events).t.h);
        n, j := RingsComeFromCalls(config, events[..m], i);
        RingOfLonger(config, events, m, i, s.t.h.rings[i], n, j);
      } else {
        n := m;
        j := NewRingIsOfCall(config, s, events[m], i);
      }
    }
  }

  lemma NoRingsYet(config: Config)
    ensures Exec(config, INIT, []).t.h.rings == []
  {}

  lemma LastStep(config: Config, s: System, events: seq<Event>)
    requires events == []
    ensures Exec(config, s, events) == s
  {}

  lemma KeepsRings(a: History, b: History)
    requires Extends(a, b)
    ensures a.rings <= b.rings
  {}

  lemma {:induction false} NamedAt(ids: seq<string>, p: nat) returns (j: nat)
    requires p < Named(ids)
    ensures j < |ids| && ids[j] != "" && Named(ids[..j]) == p
  {
    var n := |ids| - 1;
    if p < Named(ids[..n]) {
      j := NamedAt(ids[..n], p);
      assert ids[..n][..j] == ids[..j];
    } else {
      j := n;
    }
  }

  /** Nothing missed, nothing delivered twice, from the caller's side: when a ring call of a
      run names a recipient that a registered reader list sees, the ring of that recipient is,
      in every later state, in exactly one place for these readers. */
  lemma EveryNamedRecipientHasOnePlace(config: Config, events: seq<Event>, n: nat, j: nat, readers: seq<string>)
    returns (i: nat, place: Place)
    requires forall e :: 0 <= e < |events| ==> Faithful(events[e])
    requires n < |events| && events[n].RingCall? && j < |events[n].recipients| && events[n].recipients[j] != ""
    requires KeyFaithful(readers) && AnySees(readers, events[n].recipients[j])
    requires Key(readers) in Exec(config, INIT, events[..n]).t.h.registered
    ensures var t := Exec(config, INIT, events).t;
            && SysInv(Exec(config, INIT, events))
            && i < |t.h.rings| && IsRingOf(config, events, i, t.h.rings[i], n, j)
            && Key(readers) in t.st.cursors
            && At(t, Key(readers), i, place)
            && (forall other :: At(t, Key(readers), i, other) ==> other == place)
  {
    hide Next, Exec;
    var key := Key(readers);
    i := RecipientsAreLogged(config, events, n, j);
    RunSplits(config, events, n);
    RegisteredBefore(Exec(config, INIT, events[..n]), key);
    RunKeepsInv(config, INIT, events);
    place := EveryRingHasOnePlace(config, events, key, i);
  }

  lemma RegisteredBefore(s: System, key: string)
    requires SysInv(s) && key in s.t.h.registered
    ensures s.t.h.registered[key] <= |s.t.h.rings|
  {
    assert KeyOk(s.t, key);
  }

  // ---------------------------------------------------------------- from wait to answer

  /** A waiter that was notified while there is news for it, left alone, is answered in five
      steps of its own: with Mail or with Resync. */
  lemma WokenWaiterIsServed(config: Config, s: System, id: nat)
    requires SysInv(s) && id in s.waiters && HasNews(s.t.st, s.waiters[id].readers)
    requires s.waiters[id].pc == Parked && s.waiters[id].notified
    ensures var step := Advance(id, false);
            var s' := Exec(config, s, [step, step, step, step, step]);
            && id in s'.waiters && s'.waiters[id].readers == s.waiters[id].readers
            && s'.waiters[id].pc.Done? && !s'.waiters[id].pc.answer.Timeout?
  {
    hide HasNews, SysInv;
    var step := Advance(id, false);
    var s1 := Next(config, s, step);
    var s2 := Next(config, s1, step);
    var s3 := Next(config, s2, step);
    var s4 := Next(config, s3, step);
    var s5 := Next(config, s4, step);
    FiveSteps(config, s, step);
    ServedFromEnabled(config, s2, id);
  }

  lemma FiveSteps(config: Config, s: System, e: Event)
    ensures Exec(config, s, [e, e, e, e, e])
         == Next(config, Next(config, Next(config, Next(config, Next(config, s, e), e), e), e), e)
  {
    hide Next, Exec;
    ExecOne(config, s, e);
    ExecAppends(config, s, [e], [e]);
    ExecAppends(config, s, [e] + [e], [e]);
    ExecAppends(config, s, [e] + [e] + [e], [e]);
    ExecAppends(config, s, [e] + [e] + [e] + [e], [e]);
    forall s' ensures Exec(config, s', [e]) == Next(config, s', e) { ExecOne(config, s', e); }
    assert [e] + [e] + [e] + [e] + [e] == [e, e, e, e, e];
  }

  lemma ServedFromEnabled(config: Config, s: System, id: nat)
    requires id in s.waiters && HasNews(s.t.st, s.waiters[id].readers) && s.waiters[id].pc == Enabled
    ensures var step := Advance(id, false);
            var s' := Next(config, Next(config, Next(config, s, step), step), step);
            && id in s'.waiters && s'.waiters[id].readers == s.waiters[id].readers
            && s'.waiters[id].pc.Done? && !s'.waiters[id].pc.answer.Timeout?
  {
    hide Matching, Recipients, Origins, Record, Key;
  }

  /** How many more turns a wait has before it, once its deadline has passed. */
  function TurnsLeft(pc: Pc): nat
  {
    match pc
    case AtTop => 4
    case Enabled => 3
    case LossChecked => 2
    case Done(_) => 0
    case _ => 1
  }

  function Turns(events: seq<Event>, id: nat): nat
  {
    if events == [] then 0
    else (if events[0].Advance? && events[0].id == id then 1 else 0) + Turns(events[1..], id)
  }

  /** Whatever else goes on, a wait whose deadline has passed is answered after at most four
      turns of its own. */
  lemma {:induction false} WaitsEnd(config: Config, s: System, events: seq<Event>, id: nat)
    requires id in s.waiters
    requires forall i :: 0 <= i < |events| && events[i].Advance? && events[i].id == id ==> events[i].expired
    ensures var s' := Exec(config, s, events);
            && id in s'.waiters
            && (Turns(events, id) >= TurnsLeft(s.waiters[id].pc) ==> s'.waiters[id].pc.Done?)
            && (s.waiters[id].pc.Done? ==> s'.waiters[id].pc == s.waiters[id].pc)
    decreases |events|
  {
    if events != [] {
      var s1 := Next(config, s, events[0]);
      TurnTaken(config, s, events[0], id);
      WaitsEnd(config, s1, events[1..], id);
    }
  }

  lemma TurnTaken(config: Config, s: System, e: Event, id: nat)
    requires id in s.waiters
    ensures id in Next(config, s, e).waiters
    ensures s.waiters[id].pc.Done? || !(e.Advance? && e.id == id) ==>
              Next(config, s, e).waiters[id].pc == s.waiters[id].pc
    ensures e.Advance? && e.id == id && e.expired ==>
              TurnsLeft(Next(config, s, e).waiters[id].pc) + 1 <= TurnsLeft(s.waiters[id].pc)
              || s.waiters[id].pc.Done?
  {
    hide TracedResync, TracedTake, TracedRing, TracedEnter;
  }

  // ---------------------------------------------------------------- from answer to books

  predicate HasAnswer(s: System, id: nat)
  {
    id in s.waiters && s.waiters[id].pc.Done?
  }

  /** The step from `s` to `s'` tells wait `id` an answer and enters that answer, and no other,
      in the books of its reader set. A first answer opens the books. */
  ghost predicate Tells(s: System, s': System, id: nat, key: string)
  {
    && !HasAnswer(s, id) && HasAnswer(s', id) && Key(s'.waiters[id].readers) == key
    && key in s'.t.h.deliveries && key in s'.t.st.cursors
    && var answer := s'.waiters[id].pc.answer;
       && answer != Timeout
       && if key in s.t.h.deliveries then
            key in s.t.st.cursors
            && s'.t.h.deliveries[key]
            == s.t.h.deliveries[key] + [Delivery(answer, s.t.st.cursors[key], s'.t.st.cursors[key])]
          else answer == Resync && s'.t.h.deliveries[key] == []
  }

  ghost predicate SameBooks(h: History, h': History, key: string)
  {
    && (key in h.deliveries <==> key in h'.deliveries)
    && (key in h.deliveries ==> h'.deliveries[key] == h.deliveries[key])
  }

  /** Who hears something new, and whose books change. */
  ghost predicate TellsOne(s: System, s': System, who: Option<nat>)
  {
    && (forall id: nat :: HasAnswer(s, id) ==> HasAnswer(s', id) && s'.waiters[id] == s.waiters[id])
    && (forall id: nat :: HasAnswer(s', id) && !HasAnswer(s, id) ==> who == Some(id))
    && match who
       case None => forall key :: SameBooks(s.t.h, s'.t.h, key)
       case Some(id) =>
         HasAnswer(s', id) && !HasAnswer(s, id) &&
         if s'.waiters[id].pc.answer == Timeout then forall key :: SameBooks(s.t.h, s'.t.h, key)
         else Tells(s, s', id, Key(s'.waiters[id].readers))
              && forall key :: key != Key(s'.waiters[id].readers) ==> SameBooks(s.t.h, s'.t.h, key)
  }

  /** The wait that an event answers, if it answers one. */
  function NewlyAnswered(s: System, s': System, e: Event): Option<nat>
  {
    if (e.Arrive? || e.Advance?) && HasAnswer(s', e.id) && !HasAnswer(s, e.id) then Some(e.id) else None
  }

  /** An answer laid on the books of `key`, and on no other. */
  ghost predicate Booked(t: Traced, t': Traced, key: string, answer: Wake)
  {
    && answer != Timeout && key in t.h.deliveries && key in t.st.cursors && key in t'.st.cursors
    && t'.h.deliveries
       == t.h.deliveries[key := t.h.deliveries[key] + [Delivery(answer, t.st.cursors[key], t'.st.cursors[key])]]
  }

  /** The books of `key` opened, and no others changed. */
  ghost predicate Opened(t: Traced, t': Traced, key: string, answer: Wake)
  {
    && answer == Resync && key !in t.h.deliveries && key in t'.st.cursors
    && t'.h.deliveries == t.h.deliveries[key := []]
  }

  lemma EnterIsBooked(t: Traced, readers: seq<string>)
    requires Frame(t)
    ensures var (t', answer) := TracedEnter(t, readers);
            if answer.None? || answer == Some(Timeout) then t'.h == t.h
            else Booked(t, t', Key(readers), answer.value) || Opened(t, t', Key(readers), answer.value)
  {
    hide Key;
  }

  lemma ResyncIsBooked(t: Traced, key: string)
    requires Frame(t)
    ensures var (t', resync) := TracedResync(t, key);
            if resync then Booked(t, t', key, Resync) else t' == t
  {}

  lemma TakeIsBooked(t: Traced, readers: seq<string>)
    requires Frame(t) && Key(readers) in t.st.cursors
    ensures var (t', answer) := TracedTake(t, readers);
            if answer == Timeout then t'.h == t.h else Booked(t, t', Key(readers), answer)
  {
    hide Matching, Recipients, Origins, Key;
  }

  lemma FramedWaiter(s: System, id: nat)
    requires SysInv(s) && id in s.waiters
    ensures Frame(s.t) && (!s.waiters[id].pc.Done? ==> Key(s.waiters[id].readers) in s.t.st.cursors)
  {
    assert WaiterOk(s.t, s.waiters[id]);
  }

  /** The wait `id` hears what is entered in its books. */
  lemma BookedTells(s: System, s': System, id: nat, w: Waiter, answer: Wake)
    requires !HasAnswer(s, id) && w.pc == Done(answer) && s'.waiters == s.waiters[id := w]
    requires Booked(s.t, s'.t, Key(w.readers), answer) || Opened(s.t, s'.t, Key(w.readers), answer)
    ensures TellsOne(s, s', Some(id))
  {
    hide Key;
  }

  /** The wait `id` moves, and no books change. */
  lemma QuietTells(s: System, s': System, id: nat, w: Waiter)
    requires s'.t.h == s.t.h && s'.waiters == s.waiters[id := w]
    requires HasAnswer(s, id) ==> w == s.waiters[id]
    requires !HasAnswer(s, id) && w.pc.Done? ==> w.pc.answer == Timeout
    ensures TellsOne(s, s', if w.pc.Done? && !HasAnswer(s, id) then Some(id) else None)
  {
    hide Key;
  }

  lemma ArriveTellsOne(config: Config, s: System, e: Event)
    requires SysInv(s) && e.Arrive?
    ensures TellsOne(s, Next(config, s, e), NewlyAnswered(s, Next(config, s, e), e))
  {
    hide SysInv, Key, TracedEnter, TellsOne, Booked, Opened;
    var s' := Next(config, s, e);
    if e.id in s.waiters {
      NothingTells(s);
    } else {
      FramedStart(s);
      EnterIsBooked(s.t, e.readers);
      var answer := TracedEnter(s.t, e.readers).1;
      if answer.None? || answer == Some(Timeout) {
        QuietTells(s, s', e.id, s'.waiters[e.id]);
      } else {
        BookedTells(s, s', e.id, s'.waiters[e.id], answer.value);
      }
    }
  }

  lemma FramedStart(s: System)
    requires SysInv(s)
    ensures Frame(s.t)
  {}

  lemma AdvanceTellsOne(config: Config, s: System, e: Event)
    requires SysInv(s) && e.Advance?
    ensures TellsOne(s, Next(config, s, e), NewlyAnswered(s, Next(config, s, e), e))
  {
    hide SysInv, Key, Matching, TracedResync, TracedTake, TellsOne, Booked, Opened;
    var s' := Next(config, s, e);
    if e.id in s.waiters {
      var w := s.waiters[e.id];
      FramedWaiter(s, e.id);
      ResyncIsBooked(s.t, Key(w.readers));
      if !w.pc.Done? { TakeIsBooked(s.t, w.readers); }
      if w.pc.Enabled? && TracedResync(s.t, Key(w.readers)).1 {
        BookedTells(s, s', e.id, s'.waiters[e.id], Resync);
      } else if w.pc.Sleeping? && TracedTake(s.t, w.readers).1 != Timeout {
        BookedTells(s, s', e.id, s'.waiters[e.id], TracedTake(s.t, w.readers).1);
      } else {
        QuietTells(s, s', e.id, s'.waiters[e.id]);
      }
    } else {
      NothingTells(s);
    }
  }

  lemma NothingTells(s: System)
    ensures TellsOne(s, s, None)
  {}

  lemma NextTellsOne(config: Config, s: System, e: Event)
    requires SysInv(s)
    ensures TellsOne(s, Next(config, s, e), NewlyAnswered(s, Next(config, s, e), e))
  {
    match e
    case Arrive(_, _) => ArriveTellsOne(config, s, e);
    case Advance(_, _) => AdvanceTellsOne(config, s, e);
    case _ =>
  }

  lemma ExecNext(config: Config, events: seq<Event>, n: nat)
    requires n < |events|
    ensures Exec(config, INIT, events[..n + 1]) == Next(config, Exec(config, INIT, events[..n]), events[n])
  {
    hide Exec, Next;
    assert events[..n + 1] == events[..n] + [events[n]];
    ExecAppends(config, INIT, events[..n], [events[n]]);
    ExecOne(config, Exec(config, INIT, events[..n]), events[n]);
  }

  /** Event `n` of the run tells wait `id` an answer, and enters it in the books of `key`. */
  ghost predicate TellsAt(config: Config, events: seq<Event>, n: nat, id: nat, key: string)
  {
    && n < |events| && (events[n].Arrive? || events[n].Advance?) && events[n].id == id
    && Tells(Exec(config, INIT, events[..n]), Exec(config, INIT, events[..n + 1]), id, key)
  }

  lemma TellsAtLonger(config: Config, events: seq<Event>, m: nat, n: nat, id: nat, key: string)
    requires m <= |events| && TellsAt(config, events[..m], n, id, key)
    ensures TellsAt(config, events, n, id, key)
    ensures n < m && events[..m][..n] == events[..n] && events[..m][..n + 1] == events[..n + 1]
  {
    hide Tells, Exec;
    assert events[..m][..n] == events[..n] && events[..m][..n + 1] == events[..n + 1];
  }

  /** One step on: whoever it answers it answers truly, and nobody's books change otherwise. */
  lemma LastTells(config: Config, events: seq<Event>)
    requires events != [] && forall e :: 0 <= e < |events| ==> Faithful(events[e])
    ensures var m := |events| - 1;
            var s, s' := Exec(config, INIT, events[..m]), Exec(config, INIT, events);
            && TellsOne(s, s', NewlyAnswered(s, s', events[m]))
            && Extends(s.t.h, s'.t.h)
            && events[..m + 1] == events
  {
    hide SysInv, Next, Faithful, Extends, TellsOne, Exec;
    var m := |events| - 1;
    assert events[..m + 1] == events;
    RunSplits(config, events, m);
    ExecNext(config, events, m);
    NextTellsOne(config, Exec(config, INIT, events[..m]), events[m]);
  }

  lemma BooksGrow(h: History, h': History, key: string)
    requires Extends(h, h') && key in h.deliveries
    ensures key in h'.deliveries && h.deliveries[key] <= h'.deliveries[key]
  {}

  /** Every entry in the books was told: answer number `d` of a reader set is what some event of
      the run told a wait with that key, when `d` answers stood in its books. */
  lemma {:induction false} EveryEntryWasTold(config: Config, events: seq<Event>, key: string, d: nat)
    returns (n: nat, id: nat)
    requires forall e :: 0 <= e < |events| ==> Faithful(events[e])
    requires key in Exec(config, INIT, events).t.h.deliveries && d < |Exec(config, INIT, events).t.h.deliveries[key]|
    ensures TellsAt(config, events, n, id, key)
    ensures var before, after := Exec(config, INIT, events[..n]), Exec(config, INIT, events[..n + 1]);
            && key in before.t.h.deliveries && |before.t.h.deliveries[key]| == d
            && after.waiters[id].pc == Done(Exec(config, INIT, events).t.h.deliveries[key][d].answer)
    decreases |events|
  {
    hide Exec, Faithful, Extends, Next;
    if events == [] {
      NoBooksYet(config, key);
    } else {
      var m := |events| - 1;
      var s, s' := Exec(config, INIT, events[..m]), Exec(config, INIT, events);
      LastTells(config, events);
      if key in s.t.h.deliveries && d < |s.t.h.deliveries[key]| {
        n, id := EveryEntryWasTold(config, events[..m], key, d);
        TellsAtLonger(config, events, m, n, id, key);
        BooksGrow(s.t.h, s'.t.h, key);
      } else {
        assert !SameBooks(s.t.h, s'.t.h, key);
        n, id := m, events[m].id;
      }
    }
  }

  lemma NoBooksYet(config: Config, key: string)
    ensures key !in Exec(config, INIT, []).t.h.deliveries && Exec(config, INIT, []).waiters == map[]
  {}

  /** And every Mail and every Resync that a wait was told is in the books of its reader set. */
  lemma {:induction false} EveryAnswerIsBooked(config: Config, events: seq<Event>, id: nat) returns (n: nat)
    requires forall e :: 0 <= e < |events| ==> Faithful(events[e])
    requires HasAnswer(Exec(config, INIT, events), id)
    requires Exec(config, INIT, events).waiters[id].pc.answer != Timeout
    ensures TellsAt(config, events, n, id, Key(Exec(config, INIT, events).waiters[id].readers))
    ensures Exec(config, INIT, events[..n + 1]).waiters[id] == Exec(config, INIT, events).waiters[id]
    decreases |events|
  {
    hide Exec, Faithful, Extends, Next;
    if events == [] {
      NoBooksYet(config, "");
    } else {
      var m := |events| - 1;
      var s, s' := Exec(config, INIT, events[..m]), Exec(config, INIT, events);
      LastTells(config, events);
      if HasAnswer(s, id) {
        n := EveryAnswerIsBooked(config, events[..m], id);
        TellsAtLonger(config, events, m, n, id, Key(s'.waiters[id].readers));
      } else {
        n := m;
      }
    }
  }

  /** Why a wait is answered `Timeout`: it names no reader; or its deadline has passed while it
      had found nothing; or what it had found was collected while it slept. */
  ghost predicate TimesOut(s: System, e: Event, id: nat)
  {
    || (e.Arrive? && e.id == id && forall i :: 0 <= i < |e.readers| ==> e.readers[i] == "")
    || (e == Advance(id, true) && id in s.waiters && (s.waiters[id].pc == NoMatch || s.waiters[id].pc == Parked))
    || (e.Advance? && e.id == id && id in s.waiters && s.waiters[id].pc == Sleeping
        && !HasNews(s.t.st, s.waiters[id].readers))
  }

  lemma ArriveTimesOut(config: Config, s: System, e: Event)
    requires SysInv(s) && e.Arrive? && !HasAnswer(s, e.id)
    requires HasAnswer(Next(config, s, e), e.id) && Next(config, s, e).waiters[e.id].pc.answer == Timeout
    ensures TimesOut(s, e, e.id)
  {
    hide SysInv, Key, Resynced, Record;
    EmptyKeyIff(e.readers);
  }

  lemma AdvanceTimesOut(config: Config, s: System, e: Event)
    requires SysInv(s) && e.Advance? && !HasAnswer(s, e.id)
    requires HasAnswer(Next(config, s, e), e.id) && Next(config, s, e).waiters[e.id].pc.answer == Timeout
    ensures TimesOut(s, e, e.id)
  {
    hide SysInv, Key, HasNews, Matching, TracedTake, TracedResync;
    FramedWaiter(s, e.id);
    if s.waiters[e.id].pc == Sleeping { TimeoutIffNoNews(s.t, s.waiters[e.id].readers); }
  }

  lemma NextTimesOut(config: Config, s: System, e: Event, id: nat)
    requires SysInv(s) && !HasAnswer(s, id)
    requires HasAnswer(Next(config, s, e), id) && Next(config, s, e).waiters[id].pc.answer == Timeout
    ensures TimesOut(s, e, id)
  {
    hide SysInv, Next, TimesOut;
    NextTellsOne(config, s, e);
    if e.Arrive? { ArriveTimesOut(config, s, e); }
    if e.Advance? { AdvanceTimesOut(config, s, e); }
  }

  /** Every `Timeout` of a run has one of these reasons, at the event that gave it. */
  lemma {:induction false} EveryTimeoutHasItsReason(config: Config, events: seq<Event>, id: nat) returns (n: nat)
    requires forall e :: 0 <= e < |events| ==> Faithful(events[e])
    requires HasAnswer(Exec(config, INIT, events), id)
    requires Exec(config, INIT, events).waiters[id].pc.answer == Timeout
    ensures n < |events| && !HasAnswer(Exec(config, INIT, events[..n]), id)
    ensures TimesOut(Exec(config, INIT, events[..n]), events[n], id)
    decreases |events|
  {
    hide Exec, Faithful, Extends, Next, TimesOut, SysInv;
    if events == [] {
      NoBooksYet(config, "");
    } else {
      var m := |events| - 1;
      var s := Exec(config, INIT, events[..m]);
      LastTells(config, events);
      if HasAnswer(s, id) {
        n := EveryTimeoutHasItsReason(config, events[..m], id);
        assert events[..m][..n] == events[..n];
      } else {
        n := m;
        RunSplits(config, events, m);
        ExecNext(config, events, m);
        NextTimesOut(config, s, events[m], id);
      }
    }
  }
}
