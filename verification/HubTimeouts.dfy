/** When a waiter that was woken finds nothing (`Hub::take` answering `Timeout`): some other
    wait with its key has collected in the meantime. */
module HubTimeouts {
  import opened Options
  import opened Addressing
  import opened ReaderSets
  import opened Arithmetic
  import opened Hub
  import opened HubHistory
  import opened HubRuns

  /** There is news for a reader set exactly when it sees a ring above its cursor. */
  lemma NewsIsSeen(t: Traced, readers: seq<string>)
    requires Inv(t) && Key(readers) in t.st.cursors && KeyFaithful(readers)
    ensures t.st.cursors[Key(readers)] <= |t.h.rings|
    ensures HasNews(t.st, readers) <==> Seen(t.h.rings, Key(readers), t.st.cursors[Key(readers)], |t.h.rings|) != []
  {
    hide Watches, AnySees, Matching, Tiles, KeyFaithful;
    var key := Key(readers);
    assert KeyOk(t, key);
    if key in t.st.lost {
      LossIsSeen(t, key);
    } else {
      var found := UncollectedIsSeen(t, readers);
    }
  }

  lemma LossIsSeen(t: Traced, key: string)
    requires Frame(t) && key in t.st.lost && KeyOk(t, key)
    ensures Seen(t.h.rings, key, t.st.cursors[key], |t.h.rings|) != []
  {
    var cursor, gone := t.st.cursors[key], Gone(t);
    assert |Seen(t.h.rings, key, cursor, gone)| > 0;
    if gone >= cursor { SeenSplits(t.h.rings, key, cursor, gone, |t.h.rings|); }
  }

  /** What every event keeps of the history: rings, registrations and answers only grow. */
  ghost predicate Extends(before: History, after: History)
  {
    && before.rings <= after.rings
    && (forall key :: key in before.registered ==>
          key in after.registered && after.registered[key] == before.registered[key])
    && (forall key :: key in before.deliveries ==>
          key in after.deliveries && before.deliveries[key] <= after.deliveries[key])
  }

  lemma RecordExtends(t: Traced, key: string, answer: Wake, after: State)
    requires Frame(t) && (answer != Timeout ==> key in after.cursors)
    ensures Extends(t.h, Record(t.h, key, answer, t.st, after))
  {}

  lemma AdvanceExtends(t: Traced, w: Waiter, expired: bool)
    requires Inv(t) && WaiterOk(t, w)
    ensures Extends(t.h, Advanced(t, w, expired).0.h)
  {
    hide KeyOk, KeyFaithful, Record, Extends;
    ExtendsItself(t.h);
    match w.pc
    case Enabled =>
      if Key(w.readers) in t.st.lost { RecordExtends(t, Key(w.readers), Resync, Resynced(t.st, Key(w.readers))); }
    case Sleeping =>
      var (after, answer) := Taken(t.st, w.readers);
      RecordExtends(t, Key(w.readers), answer, after);
    case _ =>
  }

  lemma ExtendsItself(h: History)
    ensures Extends(h, h)
  {}

  lemma EnterExtends(t: Traced, readers: seq<string>)
    requires Inv(t)
    ensures Extends(t.h, TracedEnter(t, readers).0.h)
  {
    hide KeyOk, Record, Extends;
    ExtendsItself(t.h);
    var (after, answer) := Entered(t.st, readers);
    if answer.Some? { RecordExtends(t, Key(readers), answer.value, after); }
  }

  lemma NextExtends(config: Config, s: System, e: Event)
    requires SysInv(s) && Faithful(e)
    ensures Extends(s.t.h, Next(config, s, e).t.h)
  {
    match e
    case RingCall(recipients, origin, now) =>
    case Notify =>
    case Arrive(id, readers) =>
      EnterExtends(s.t, readers);
    case Advance(id, expired) =>
      if id in s.waiters { AdvanceExtends(s.t, s.waiters[id], expired); }
  }

  lemma ExtendsOn(a: History, b: History, c: History)
    requires Extends(a, b) && Extends(b, c)
    ensures Extends(a, c)
  {}

  lemma {:induction false} RunExtends(config: Config, s: System, events: seq<Event>)
    requires SysInv(s) && forall i :: 0 <= i < |events| ==> Faithful(events[i])
    ensures Extends(s.t.h, Exec(config, s, events).t.h)
    decreases |events|
  {
    hide Extends, SysInv, Next;
    if events == [] {
      ExtendsItself(s.t.h);
    } else {
      NextKeepsInv(config, s, events[0]);
      NextExtends(config, s, events[0]);
      RunExtends(config, Next(config, s, events[0]), events[1..]);
      ExtendsOn(s.t.h, Next(config, s, events[0]).t.h, Exec(config, s, events).t.h);
    }
  }

  /** Registration and answers fix the cursor. */
  lemma AnswersFixCursor(a: Traced, b: Traced, key: string)
    requires Inv(a) && Inv(b) && Extends(a.h, b.h) && key in a.st.cursors
    ensures key in b.st.cursors && key in a.h.deliveries && key in b.h.deliveries
    ensures a.h.deliveries[key] == b.h.deliveries[key] ==> a.st.cursors[key] == b.st.cursors[key]
  {
    assert KeyOk(a, key) && KeyOk(b, key);
  }

  lemma SeenGrows(rings: seq<Ring>, more: seq<Ring>, key: string, lo: nat)
    requires rings <= more
    ensures |Seen(rings, key, lo, |rings|)| <= |Seen(more, key, lo, |more|)|
  {
    assert more == rings + more[|rings|..];
    SeenStable(rings, more[|rings|..], key, lo, |rings|);
    if lo <= |rings| {
      SeenSplits(more, key, lo, |rings|, |more|);
    }
  }

  /** News goes away only by an answer to a wait with its key. */
  lemma NewsGoesByAnswer(a: Traced, b: Traced, readers: seq<string>)
    requires Inv(a) && Inv(b) && Extends(a.h, b.h) && Key(readers) in a.st.cursors && KeyFaithful(readers)
    requires HasNews(a.st, readers) && !HasNews(b.st, readers)
    ensures Key(readers) in a.h.deliveries && Key(readers) in b.h.deliveries
    ensures |a.h.deliveries[Key(readers)]| < |b.h.deliveries[Key(readers)]|
  {
    hide Inv, KeyFaithful, HasNews, Seen;
    var key := Key(readers);
    AnswersFixCursor(a, b, key);
    NewsIsSeen(a, readers);
    NewsIsSeen(b, readers);
    SeenGrows(a.h.rings, b.h.rings, key, a.st.cursors[key]);
  }

  lemma {:induction false} ReadersStay(config: Config, s: System, events: seq<Event>, id: nat)
    requires id in s.waiters
    ensures var s' := Exec(config, s, events);
            id in s'.waiters && s'.waiters[id].readers == s.waiters[id].readers
    decreases |events|
  {
    if events != [] { ReadersStay(config, Next(config, s, events[0]), events[1..], id); }
  }

  /** A waiter that found a ring and slept through its window is answered `Timeout` only if,
      while it slept, another wait with its key was answered: with Mail, or with Resync. */
  lemma TimeoutMeansCollected(config: Config, s: System, id: nat, expired: bool, events: seq<Event>)
    requires SysInv(s) && id in s.waiters && s.waiters[id].pc == LossChecked
    requires forall i :: 0 <= i < |events| ==> Faithful(events[i])
    requires var asleep := Next(config, s, Advance(id, expired));
             var awake := Exec(config, asleep, events);
             && id in asleep.waiters && asleep.waiters[id].pc == Sleeping
             && id in awake.waiters && awake.waiters[id].pc == Sleeping
             && TracedTake(awake.t, s.waiters[id].readers).1 == Timeout
    ensures var key := Key(s.waiters[id].readers);
            var asleep := Next(config, s, Advance(id, expired));
            var awake := Exec(config, asleep, events);
            && key in asleep.t.h.deliveries && key in awake.t.h.deliveries
            && asleep.t.h.deliveries[key] < awake.t.h.deliveries[key]
            && forall d :: |asleep.t.h.deliveries[key]| <= d < |awake.t.h.deliveries[key]| ==>
                 !awake.t.h.deliveries[key][d].answer.Timeout?
  {
    var readers := s.waiters[id].readers;
    var asleep := Next(config, s, Advance(id, expired));
    var awake := Exec(config, asleep, events);
    NextKeepsInv(config, s, Advance(id, expired));
    RunKeepsInv(config, asleep, events);
    RunExtends(config, asleep, events);
    TimeoutIffNoNews(awake.t, readers);
    NewsGoesByAnswer(asleep.t, awake.t, readers);
    AnswersAreReal(awake.t, Key(readers));
  }

  /** A take answers `Timeout` exactly when there is no news. */
  lemma TimeoutIffNoNews(t: Traced, readers: seq<string>)
    requires Key(readers) in t.st.cursors
    ensures TracedTake(t, readers).1 == Timeout <==> !HasNews(t.st, readers)
  {}

  lemma AnswersAreReal(t: Traced, key: string)
    requires Inv(t) && key in t.st.cursors
    ensures key in t.h.deliveries
    ensures forall d :: 0 <= d < |t.h.deliveries[key]| ==> !t.h.deliveries[key][d].answer.Timeout?
  {
    assert KeyOk(t, key);
    var ds := t.h.deliveries[key];
    forall d | 0 <= d < |ds| ensures !ds[d].answer.Timeout? {
      TilesBounds(t.h.rings, key, ds, t.h.registered[key], t.st.cursors[key], d);
    }
  }
}
