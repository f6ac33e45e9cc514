/** The doorbell hub (`hub.rs`): rings in, wakes out. Every method is one section under
    the hub's lock; `Model()` is the locked record, and each method is proved against a
    function on it. */
module Hub {
  import opened Options
  import opened Addressing
  import opened ReaderSets

  /** `at` is an instant on the clock the hub reads before taking its lock. */
  datatype Ring = Logged(seqNo: nat, recipient: string, origin: Option<string>, at: int)

  datatype Config = Config(window: nat, keep: nat, maxLog: nat)

  datatype State = State(
    seqNo: nat,
    log: seq<Ring>,
    cursors: map<string, nat>,
    wakes: map<string, nat>,
    lost: map<string, nat>)

  datatype Wake =
    | Mail(count: nat, recipients: seq<string>, origins: seq<string>)
    | Resync
    | Timeout

  const EMPTY := State(0, [], map[], map[], map[])

  function Get(m: map<string, nat>, key: string): nat
  {
    if key in m then m[key] else 0
  }

  // ---------------------------------------------------------------- ring

  function NonEmpty(ids: seq<string>): (r: seq<string>)
    ensures forall x :: x in r <==> x in ids && x != ""
  {
    if ids == [] then []
    else
      var init, last := ids[..|ids| - 1], ids[|ids| - 1];
      assert ids == init + [last];
      NonEmpty(init) + if last == "" then [] else [last]
  }

  /** How many of some ids are not empty. */
  function Named(ids: seq<string>): nat
  {
    if ids == [] then 0 else Named(ids[..|ids| - 1]) + if ids[|ids| - 1] == "" then 0 else 1
  }

  /** `rings` are one ring for each non-empty recipient, in the order of the call, numbered on
      from `seqNo`, each with the call's origin and its one instant. */
  ghost predicate LogsEach(rings: seq<Ring>, seqNo: nat, recipients: seq<string>, origin: Option<string>, now: int)
  {
    && |rings| == Named(recipients)
    && forall i :: 0 <= i < |recipients| && recipients[i] != "" ==>
         && Named(recipients[..i]) < |rings|
         && rings[Named(recipients[..i])] == Logged(seqNo + Named(recipients[..i]) + 1, recipients[i], origin, now)
  }

  /** One new ring per non-empty recipient, in order, with the next sequence numbers. */
  function Pushed(st: State, recipients: seq<string>, origin: Option<string>, now: int): State
  {
    var ids := NonEmpty(recipients);
    st.(seqNo := st.seqNo + |ids|,
        log := st.log + seq(|ids|, i requires 0 <= i < |ids| => Logged(st.seqNo + i + 1, ids[i], origin, now)))
  }

  /** The key of a registered reader set watches a recipient: the test of the trim. */
  predicate Watches(key: string, recipient: string)
  {
    AnySees(SplitLines(key), recipient)
  }

  function Affected(cursors: map<string, nat>, gone: Ring): set<string>
  {
    set key | key in cursors && gone.seqNo > cursors[key] && Watches(key, gone.recipient)
  }

  function MarkLost(lost: map<string, nat>, keys: set<string>): map<string, nat>
  {
    map key | key in lost.Keys + keys :: Get(lost, key) + if key in keys then 1 else 0
  }

  predicate MustTrim(config: Config, log: seq<Ring>, now: int)
  {
    |log| > config.maxLog || (log != [] && now - log[0].at > config.keep)
  }

  function TrimOne(st: State): State
    requires st.log != []
  {
    st.(log := st.log[1..], lost := MarkLost(st.lost, Affected(st.cursors, st.log[0])))
  }

  function Trimmed(config: Config, st: State, now: int): State
    decreases |st.log|
  {
    if MustTrim(config, st.log, now) then Trimmed(config, TrimOne(st), now) else st
  }

  function Rung(config: Config, st: State, recipients: seq<string>, origin: Option<string>, now: int): State
  {
    Trimmed(config, Pushed(st, recipients, origin, now), now)
  }

  // ---------------------------------------------------------------- wait

  function Resynced(st: State, key: string): State
    requires key in st.lost
  {
    st.(lost := st.lost - {key}, cursors := st.cursors[key := st.seqNo])
  }

  /** The first section of a wait: an answer, or `None` to go on waiting. */
  function Entered(st: State, readers: seq<string>): (State, Option<Wake>)
  {
    var key := Key(readers);
    if key == "" then (st, Some(Timeout))
    else if key !in st.cursors then (st.(cursors := st.cursors[key := st.seqNo]), Some(Resync))
    else if key in st.lost then (Resynced(st, key), Some(Resync))
    else (st, None)
  }

  predicate Matches(ring: Ring, readers: seq<string>, cursor: nat)
  {
    ring.seqNo > cursor && AnySees(readers, ring.recipient)
  }

  /** The rings of `log` a reader list has not collected, oldest first. */
  function Matching(log: seq<Ring>, readers: seq<string>, cursor: nat): (r: seq<Ring>)
    ensures forall ring :: ring in r <==> ring in log && Matches(ring, readers, cursor)
  {
    if log == [] then []
    else
      var init, last := log[..|log| - 1], log[|log| - 1];
      assert log == init + [last];
      Matching(init, readers, cursor) + if Matches(last, readers, cursor) then [last] else []
  }

  /** The distinct recipients of some rings, in order. */
  function Recipients(rings: seq<Ring>): (ids: seq<string>)
    ensures Increasing(ids)
  {
    if rings == [] then [] else Insert(Recipients(rings[..|rings| - 1]), rings[|rings| - 1].recipient)
  }

  /** The distinct origins of some rings, in order. */
  function Origins(rings: seq<Ring>): (ids: seq<string>)
    ensures Increasing(ids)
  {
    if rings == [] then []
    else
      var before, last := Origins(rings[..|rings| - 1]), rings[|rings| - 1];
      if last.origin.Some? then Insert(before, last.origin.value) else before
  }

  function Taken(st: State, readers: seq<string>): (State, Wake)
  {
    var key := Key(readers);
    if key in st.lost then (Resynced(st, key), Resync)
    else
      var found := Matching(st.log, readers, Get(st.cursors, key));
      if found == [] then (st, Timeout)
      else
        (st.(cursors := st.cursors[key := found[|found| - 1].seqNo],
             wakes := st.wakes[key := Get(st.wakes, key) + 1]),
         Mail(|found|, Recipients(found), Origins(found)))
  }

  // ---------------------------------------------------------------- the object

  class Hub {
    const config: Config
    var seqNo: nat
    var log: seq<Ring>
    var cursors: map<string, nat>
    var wakes: map<string, nat>
    var lost: map<string, nat>

    ghost function Model(): State
      reads this
    {
      State(seqNo, log, cursors, wakes, lost)
    }

    constructor (window: nat, keep: nat)
      ensures config == Config(window, keep, 100_000)
      ensures Model() == EMPTY
    {
      config := Config(window, keep, 100_000);
      seqNo, log, cursors, wakes, lost := 0, [], map[], map[], map[];
    }

    /** Push and trim, under one lock. The caller notifies the waiters iff `n > 0`. */
    method Ring(recipients: seq<string>, origin: Option<string>, now: int)
      returns (n: nat, ghost more: seq<Ring>, ghost gone: nat)
      modifies this
      ensures Model() == Rung(config, old(Model()), recipients, origin, now)
      ensures n == Named(recipients)
      ensures LogsEach(more, old(seqNo), recipients, origin, now)
      ensures gone <= |old(log) + more| && log == (old(log) + more)[gone..] && seqNo == old(seqNo) + n
      ensures |log| <= config.maxLog && (log != [] ==> now - log[0].at <= config.keep)
      ensures forall m :: 0 <= m < gone ==>
                |old(log) + more| - m > config.maxLog || now - (old(log) + more)[m].at > config.keep
      ensures cursors == old(cursors) && wakes == old(wakes)
    {
      n := Push(recipients, origin, now);
      more, gone := RungMeaning(config, old(Model()), recipients, origin, now);
      ghost var pushed := Model();
      while MustTrim(config, log, now)
        invariant Trimmed(config, Model(), now) == Trimmed(config, pushed, now)
        decreases |log|
      {
        DropOldest();
      }
    }

    method Push(recipients: seq<string>, origin: Option<string>, now: int) returns (n: nat)
      modifies this
      ensures Model() == Pushed(old(Model()), recipients, origin, now)
      ensures n == Named(recipients) && seqNo == old(seqNo) + n
      ensures old(log) <= log && LogsEach(log[|old(log)|..], old(seqNo), recipients, origin, now)
    {
      n := 0;
      for i := 0 to |recipients|
        invariant n == Named(recipients[..i]) == |NonEmpty(recipients[..i])|
        invariant Model() == Pushed(old(Model()), recipients[..i], origin, now)
      {
        assert recipients[..i + 1][..i] == recipients[..i];
        if recipients[i] != "" {
          seqNo := seqNo + 1;
          log := log + [Logged(seqNo, recipients[i], origin, now)];
          n := n + 1;
        }
      }
      assert recipients[..|recipients|] == recipients;
      PushLogsEach(old(Model()), recipients, origin, now);
    }

    /** Pop the oldest ring and mark every reader set that had not collected it. */
    method DropOldest()
      requires log != []
      modifies this
      ensures Model() == TrimOne(old(Model()))
    {
      hide Watches, MarkLost;
      var gone := log[0];
      log := log[1..];
      var keys := cursors.Keys;
      NothingMarked(lost);
      ghost var affected := Affected(cursors, gone);
      assert affected - keys == {};
      while keys != {}
        invariant keys <= cursors.Keys
        invariant Model() == old(Model()).(log := old(log)[1..], lost := MarkLost(old(lost), affected - keys))
        decreases keys
      {
        var key :| key in keys;
        MarkLostNext(old(lost), affected, keys, key);
        if gone.seqNo > cursors[key] && Watches(key, gone.recipient) {
          lost := lost[key := Get(lost, key) + 1];
        }
        keys := keys - {key};
      }
      assert affected - {} == affected;
    }

    /** The first lock section of `wait`. */
    method Enter(readers: seq<string>) returns (answer: Option<Wake>)
      modifies this
      ensures (Model(), answer) == Entered(old(Model()), readers)
    {
      var key := Key(readers);
      if key == "" {
        return Some(Timeout);
      }
      if key !in cursors {
        cursors := cursors[key := seqNo];
        return Some(Resync);
      }
      var resync := ResyncIfLost(key);
      answer := if resync then Some(Resync) else None;
    }

    method ResyncIfLost(key: string) returns (resync: bool)
      modifies this
      ensures resync == (key in old(lost))
      ensures Model() == if resync then Resynced(old(Model()), key) else old(Model())
    {
      if key !in lost {
        return false;
      }
      lost := lost - {key};
      cursors := cursors[key := seqNo];
      return true;
    }

    /** When the oldest uncollected ring these readers see was rung. */
    method FirstMatch(key: string, readers: seq<string>) returns (at: Option<int>)
      ensures var found := Matching(log, readers, Get(cursors, key));
              at == if found == [] then None else Some(found[0].at)
    {
      var cursor := Get(cursors, key);
      for i := 0 to |log|
        invariant Matching(log[..i], readers, cursor) == []
      {
        assert log[..i + 1][..i] == log[..i];
        if Matches(log[i], readers, cursor) {
          MatchingPrefix(log, readers, cursor, i + 1);
          return Some(log[i].at);
        }
      }
      assert log[..|log|] == log;
      return None;
    }

    method Take(readers: seq<string>) returns (wake: Wake)
      modifies this
      ensures (Model(), wake) == Taken(old(Model()), readers)
    {
      var key := Key(readers);
      var resync := ResyncIfLost(key);
      if resync {
        return Resync;
      }
      var count, last, recipients, origins := Collect(log, readers, Get(cursors, key));
      if count == 0 {
        return Timeout;
      }
      cursors := cursors[key := last];
      wakes := wakes[key := Get(wakes, key) + 1];
      return Mail(count, recipients, origins);
    }

    /** The scan of `take`: what the uncollected rings of these readers come to. */
    static method Collect(rings: seq<Ring>, readers: seq<string>, cursor: nat)
      returns (count: nat, last: nat, recipients: seq<string>, origins: seq<string>)
      ensures var found := Matching(rings, readers, cursor);
              && count == |found|
              && last == (if found == [] then cursor else found[|found| - 1].seqNo)
              && recipients == Recipients(found) && origins == Origins(found)
    {
      count, last, recipients, origins := 0, cursor, [], [];
      for i := 0 to |rings|
        invariant var found := Matching(rings[..i], readers, cursor);
                  && count == |found|
                  && last == (if found == [] then cursor else found[|found| - 1].seqNo)
                  && recipients == Recipients(found) && origins == Origins(found)
      {
        assert rings[..i + 1][..i] == rings[..i];
        if Matches(rings[i], readers, cursor) {
          ghost var found := Matching(rings[..i], readers, cursor);
          assert Matching(rings[..i + 1], readers, cursor) == found + [rings[i]];
          assert (found + [rings[i]])[..|found|] == found;
          count, last := count + 1, rings[i].seqNo;
          recipients := Insert(recipients, rings[i].recipient);
          if rings[i].origin.Some? {
            origins := Insert(origins, rings[i].origin.value);
          }
        } else {
          assert Matching(rings[..i + 1], readers, cursor) == Matching(rings[..i], readers, cursor);
        }
      }
      assert rings[..|rings|] == rings;
    }
  }

  /** The non-empty ids keep their order: each stands behind those that came before it. */
  lemma {:induction false} NonEmptyAt(ids: seq<string>, i: nat)
    requires i < |ids|
    ensures |NonEmpty(ids)| == Named(ids)
    ensures ids[i] != "" ==> Named(ids[..i]) < Named(ids) && NonEmpty(ids)[Named(ids[..i])] == ids[i]
    decreases |ids|
  {
    var init := ids[..|ids| - 1];
    CountIsNamed(init);
    if i < |init| {
      NonEmptyAt(init, i);
      assert init[..i] == ids[..i];
    }
  }

  lemma {:induction false} CountIsNamed(ids: seq<string>)
    ensures |NonEmpty(ids)| == Named(ids)
  {
    if ids != [] { CountIsNamed(ids[..|ids| - 1]); }
  }

  lemma PushLogsEach(st: State, recipients: seq<string>, origin: Option<string>, now: int)
    ensures var pushed := Pushed(st, recipients, origin, now);
            && st.log <= pushed.log
            && LogsEach(pushed.log[|st.log|..], st.seqNo, recipients, origin, now)
            && pushed == st.(seqNo := st.seqNo + Named(recipients), log := pushed.log)
  {
    CountIsNamed(recipients);
    var more := Pushed(st, recipients, origin, now).log[|st.log|..];
    forall i | 0 <= i < |recipients| && recipients[i] != ""
      ensures Named(recipients[..i]) < |more|
      ensures more[Named(recipients[..i])]
           == Logged(st.seqNo + Named(recipients[..i]) + 1, recipients[i], origin, now)
    {
      NonEmptyAt(recipients, i);
    }
  }

  /** What a ring call leaves: the log with its own rings at the end and the shortest prefix
      gone that leaves it short and young enough. */
  lemma RungMeaning(config: Config, st: State, recipients: seq<string>, origin: Option<string>, now: int)
    returns (more: seq<Ring>, gone: nat)
    ensures LogsEach(more, st.seqNo, recipients, origin, now)
    ensures var log, after := st.log + more, Rung(config, st, recipients, origin, now);
            && gone <= |log| && after.log == log[gone..]
            && |after.log| <= config.maxLog && (after.log != [] ==> now - after.log[0].at <= config.keep)
            && (forall m :: 0 <= m < gone ==> |log| - m > config.maxLog || now - log[m].at > config.keep)
            && after == st.(seqNo := st.seqNo + Named(recipients), log := after.log, lost := after.lost)
  {
    var pushed := Pushed(st, recipients, origin, now);
    PushLogsEach(st, recipients, origin, now);
    more := pushed.log[|st.log|..];
    gone := TrimIsLeast(config, pushed, now);
    forall m | 0 <= m < gone ensures |pushed.log| - m > config.maxLog || now - pushed.log[m].at > config.keep {
      assert MustTrim(config, pushed.log[m..], now);
    }
  }

  lemma NothingMarked(lost: map<string, nat>)
    ensures MarkLost(lost, {}) == lost
  {}

  /** The marks with one key fewer left to look at. */
  lemma MarkLostNext(lost: map<string, nat>, affected: set<string>, keys: set<string>, key: string)
    requires key in keys
    ensures MarkLost(lost, affected - (keys - {key})) ==
            var before := MarkLost(lost, affected - keys);
            if key in affected then before[key := Get(before, key) + 1] else before
  {
    if key in affected {
      MarkLostOneMore(lost, affected - keys, key);
      assert affected - (keys - {key}) == affected - keys + {key};
    } else {
      assert affected - (keys - {key}) == affected - keys;
    }
  }

  lemma MarkLostOneMore(lost: map<string, nat>, keys: set<string>, key: string)
    requires key !in keys
    ensures MarkLost(lost, keys + {key}) ==
            MarkLost(lost, keys)[key := Get(MarkLost(lost, keys), key) + 1]
  {}

  lemma {:induction false} RecipientsHave(rings: seq<Ring>, id: string)
    ensures id in Recipients(rings) <==> exists i :: 0 <= i < |rings| && rings[i].recipient == id
  {
    hide Increasing, Insert;
    if rings != [] {
      var n := |rings| - 1;
      RecipientsHave(rings[..n], id);
      if i :| 0 <= i < n && rings[i].recipient == id { assert rings[..n][i].recipient == id; }
    }
  }

  lemma {:induction false} OriginsHave(rings: seq<Ring>, id: string)
    ensures id in Origins(rings) <==> exists i :: 0 <= i < |rings| && rings[i].origin == Some(id)
  {
    hide Increasing, Insert;
    if rings != [] {
      var n := |rings| - 1;
      OriginsHave(rings[..n], id);
      if i :| 0 <= i < n && rings[i].origin == Some(id) { assert rings[..n][i].origin == Some(id); }
    }
  }

  /** A Mail names exactly the recipients and the origins of the rings it counts, each once
      and in order. */
  lemma MailNames(rings: seq<Ring>, id: string)
    ensures Increasing(Recipients(rings)) && Increasing(Origins(rings))
    ensures id in Recipients(rings) <==> exists i :: 0 <= i < |rings| && rings[i].recipient == id
    ensures id in Origins(rings) <==> exists i :: 0 <= i < |rings| && rings[i].origin == Some(id)
  {
    RecipientsHave(rings, id);
    OriginsHave(rings, id);
  }

  lemma {:induction false} MatchingPrefix(log: seq<Ring>, readers: seq<string>, cursor: nat, n: nat)
    requires n <= |log|
    ensures Matching(log[..n], readers, cursor) <= Matching(log, readers, cursor)
  {
    if n < |log| {
      MatchingPrefix(log[..|log| - 1], readers, cursor, n);
      assert log[..|log| - 1][..n] == log[..n];
    } else {
      assert log[..n] == log;
    }
  }

  // ---------------------------------------------------------------- what the trim does

  /** The trim stops at the first point where the log is short enough and its oldest ring
      is young enough, and trims nothing it need not. */
  lemma {:induction false} TrimIsLeast(config: Config, st: State, now: int) returns (n: nat)
    ensures n <= |st.log| && Trimmed(config, st, now).log == st.log[n..]
    ensures !MustTrim(config, st.log[n..], now)
    ensures forall m :: 0 <= m < n ==> MustTrim(config, st.log[m..], now)
    ensures Trimmed(config, st, now).(log := st.log, lost := st.lost) == st
    decreases |st.log|
  {
    if MustTrim(config, st.log, now) {
      var rest := TrimIsLeast(config, TrimOne(st), now);
      n := rest + 1;
      forall m | 0 <= m < n ensures MustTrim(config, st.log[m..], now) {
        if m > 0 { assert st.log[m..] == st.log[1..][m - 1..]; }
      }
      assert st.log[n..] == st.log[1..][rest..];
    } else {
      n := 0;
    }
  }
}
