/** What the hub's answers add up to. The hub keeps only a trimmed log and one cursor per
    reader set; here its state is paired with the full history of rings and of answers, and
    the two are shown to agree after every lock section: nothing missed, nothing delivered
    twice. */
module HubHistory {
  import opened Arithmetic
  import opened Options
  import opened Addressing
  import opened ReaderSets
  import opened Hub

  /** One answer that moved a reader set's cursor, from `lo` to `hi`. Ring number `i` of
      the history has sequence number `i + 1`, so the answer spans rings `lo..hi`. */
  datatype Delivery = Delivery(answer: Wake, lo: nat, hi: nat)

  datatype History = History(
    rings: seq<Ring>,
    registered: map<string, nat>,
    deliveries: map<string, seq<Delivery>>)

  datatype Traced = Traced(st: State, h: History)

  const START := Traced(EMPTY, History([], map[], map[]))

  /** The rings numbered `lo..hi` that a reader set sees, oldest first. */
  function Seen(rings: seq<Ring>, key: string, lo: nat, hi: nat): seq<Ring>
    requires hi <= |rings|
  {
    if hi <= lo then []
    else Seen(rings, key, lo, hi - 1) + if Watches(key, rings[hi - 1].recipient) then [rings[hi - 1]] else []
  }

  // ---------------------------------------------------------------- lock sections, traced

  /** Writes down an answer given to `key`. A first answer registers the reader set. */
  function Record(h: History, key: string, answer: Wake, before: State, after: State): History
    requires answer != Timeout ==> key in after.cursors
  {
    if answer == Timeout then h
    else if key !in before.cursors || key !in h.deliveries then
      h.(registered := h.registered[key := after.cursors[key]], deliveries := h.deliveries[key := []])
    else
      h.(deliveries := h.deliveries[key :=
           h.deliveries[key] + [Delivery(answer, before.cursors[key], after.cursors[key])]])
  }

  function TracedRing(config: Config, t: Traced, recipients: seq<string>, origin: Option<string>, now: int): Traced
  {
    Traced(Rung(config, t.st, recipients, origin, now),
           t.h.(rings := t.h.rings + Pushed(t.st, recipients, origin, now).log[|t.st.log|..]))
  }

  function TracedEnter(t: Traced, readers: seq<string>): (Traced, Option<Wake>)
  {
    var (after, answer) := Entered(t.st, readers);
    (Traced(after, if answer.None? then t.h else Record(t.h, Key(readers), answer.value, t.st, after)), answer)
  }

  /** `resync_if_lost` for a reader set that is already waiting. */
  function TracedResync(t: Traced, key: string): (Traced, bool)
  {
    if key in t.st.lost then
      var after := Resynced(t.st, key);
      (Traced(after, Record(t.h, key, Resync, t.st, after)), true)
    else (t, false)
  }

  function TracedTake(t: Traced, readers: seq<string>): (Traced, Wake)
  {
    var (after, answer) := Taken(t.st, readers);
    (Traced(after, Record(t.h, Key(readers), answer, t.st, after)), answer)
  }

  // ---------------------------------------------------------------- the invariant

  ghost predicate DeliveryOk(rings: seq<Ring>, key: string, d: Delivery)
  {
    && d.lo <= d.hi <= |rings|
    && match d.answer
       case Mail(count, recipients, origins) =>
         var seen := Seen(rings, key, d.lo, d.hi);
         count == |seen| > 0 && recipients == Recipients(seen) && origins == Origins(seen)
       case Resync => true
       case Timeout => false
  }

  /** The answers tile the rings from `from` to `cursor`: no gap, no overlap. */
  ghost predicate Tiles(rings: seq<Ring>, key: string, ds: seq<Delivery>, from: nat, cursor: nat)
  {
    if ds == [] then from == cursor
    else
      var last := ds[|ds| - 1];
      last.hi == cursor && DeliveryOk(rings, key, last) && Tiles(rings, key, ds[..|ds| - 1], from, last.lo)
  }

  function Mails(ds: seq<Delivery>): nat
  {
    if ds == [] then 0 else Mails(ds[..|ds| - 1]) + if ds[|ds| - 1].answer.Mail? then 1 else 0
  }

  ghost predicate LogOk(t: Traced)
  {
    && t.st.seqNo == |t.h.rings|
    && |t.st.log| <= |t.h.rings|
    && t.st.log == t.h.rings[|t.h.rings| - |t.st.log|..]
    && forall i :: 0 <= i < |t.h.rings| ==> t.h.rings[i].seqNo == i + 1
  }

  /** How many rings the hub has trimmed from its log. */
  function Gone(t: Traced): nat
    requires |t.st.log| <= |t.h.rings|
  {
    |t.h.rings| - |t.st.log|
  }

  /** One reader set's entries: `gone` rings are trimmed, `lost` of them it had not collected. */
  ghost predicate Accounted(rings: seq<Ring>, gone: nat, key: string, from: nat, ds: seq<Delivery>,
                            cursor: nat, lost: nat, wakes: nat)
  {
    && gone <= |rings|
    && from <= cursor <= |rings|
    && lost == |Seen(rings, key, cursor, gone)|
    && Tiles(rings, key, ds, from, cursor)
    && wakes == Mails(ds)
  }

  ghost predicate KeyOk(t: Traced, key: string)
    requires LogOk(t)
    requires key in t.st.cursors && key in t.h.registered && key in t.h.deliveries
  {
    Accounted(t.h.rings, Gone(t), key, t.h.registered[key], t.h.deliveries[key],
              t.st.cursors[key], Get(t.st.lost, key), Get(t.st.wakes, key))
  }

  ghost predicate Frame(t: Traced)
  {
    && LogOk(t)
    && t.h.registered.Keys == t.st.cursors.Keys
    && t.h.deliveries.Keys == t.st.cursors.Keys
    && t.st.lost.Keys <= t.st.cursors.Keys
    && t.st.wakes.Keys <= t.st.cursors.Keys
    && forall key :: key in t.st.lost ==> t.st.lost[key] > 0
  }

  ghost predicate Inv(t: Traced)
  {
    Frame(t) && forall key :: key in t.st.cursors ==> KeyOk(t, key)
  }

  // ---------------------------------------------------------------- counting

  lemma {:induction false} SeenSplits(rings: seq<Ring>, key: string, lo: nat, mid: nat, hi: nat)
    requires lo <= mid <= hi <= |rings|
    ensures Seen(rings, key, lo, hi) == Seen(rings, key, lo, mid) + Seen(rings, key, mid, hi)
  {
    if mid < hi { SeenSplits(rings, key, lo, mid, hi - 1); }
  }

  lemma {:induction false} SeenStable(rings: seq<Ring>, more: seq<Ring>, key: string, lo: nat, hi: nat)
    requires hi <= |rings|
    ensures Seen(rings + more, key, lo, hi) == Seen(rings, key, lo, hi)
  {
    if lo < hi { SeenStable(rings, more, key, lo, hi - 1); }
  }

  lemma {:induction false} TilesStable(rings: seq<Ring>, more: seq<Ring>, key: string, ds: seq<Delivery>, from: nat,
                                       cursor: nat)
    requires Tiles(rings, key, ds, from, cursor)
    ensures Tiles(rings + more, key, ds, from, cursor)
  {
    if ds != [] {
      var last := ds[|ds| - 1];
      SeenStable(rings, more, key, last.lo, last.hi);
      TilesStable(rings, more, key, ds[..|ds| - 1], from, last.lo);
    }
  }

  // ---------------------------------------------------------------- every section keeps it

  lemma PushKeepsAccount(rings: seq<Ring>, more: seq<Ring>, gone: nat, key: string, from: nat, ds: seq<Delivery>,
                         cursor: nat, lost: nat, wakes: nat)
    requires Accounted(rings, gone, key, from, ds, cursor, lost, wakes)
    ensures Accounted(rings + more, gone, key, from, ds, cursor, lost, wakes)
  {
    SeenStable(rings, more, key, cursor, gone);
    TilesStable(rings, more, key, ds, from, cursor);
  }

  lemma PushKeepsInv(t: Traced, recipients: seq<string>, origin: Option<string>, now: int)
    requires Inv(t)
    ensures var pushed := Pushed(t.st, recipients, origin, now);
            Inv(Traced(pushed, t.h.(rings := t.h.rings + pushed.log[|t.st.log|..])))
  {
    var pushed := Pushed(t.st, recipients, origin, now);
    var more := pushed.log[|t.st.log|..];
    var t' := Traced(pushed, t.h.(rings := t.h.rings + more));
    assert t'.st.log == t'.h.rings[Gone(t')..];
    forall key | key in t'.st.cursors ensures KeyOk(t', key) {
      assert KeyOk(t, key);
      PushKeepsAccount(t.h.rings, more, Gone(t), key, t.h.registered[key], t.h.deliveries[key],
                       t.st.cursors[key], Get(t.st.lost, key), Get(t.st.wakes, key));
    }
  }

  /** Ring number `gone` leaves the log: it is lost to a reader set that sees it and
      whose cursor has not passed it. */
  lemma TrimKeepsAccount(rings: seq<Ring>, gone: nat, key: string, from: nat, ds: seq<Delivery>,
                         cursor: nat, lost: nat, wakes: nat)
    requires Accounted(rings, gone, key, from, ds, cursor, lost, wakes) && gone < |rings|
    ensures Accounted(rings, gone + 1, key, from, ds, cursor,
                      lost + (if gone + 1 > cursor && Watches(key, rings[gone].recipient) then 1 else 0), wakes)
  {}

  lemma TrimOneKeepsFrame(t: Traced)
    requires Frame(t) && t.st.log != []
    ensures var t' := t.(st := TrimOne(t.st));
            Frame(t') && Gone(t') == Gone(t) + 1 && t.st.log[0] == t.h.rings[Gone(t)]
  {
    var t' := t.(st := TrimOne(t.st));
    assert t'.st.log == t'.h.rings[Gone(t')..];
  }

  lemma TrimOneKeepsKey(t: Traced, key: string)
    requires Frame(t) && t.st.log != [] && key in t.st.cursors && KeyOk(t, key)
    requires Frame(t.(st := TrimOne(t.st)))
    ensures KeyOk(t.(st := TrimOne(t.st)), key)
  {
    hide Watches, Accounted;
    var gone := t.h.rings[Gone(t)];
    assert t.st.log[0] == gone;
    TrimKeepsAccount(t.h.rings, Gone(t), key, t.h.registered[key], t.h.deliveries[key],
                     t.st.cursors[key], Get(t.st.lost, key), Get(t.st.wakes, key));
    assert key in Affected(t.st.cursors, gone) <==>
           (gone.seqNo > t.st.cursors[key] && Watches(key, gone.recipient));
  }

  lemma TrimOneKeepsInv(t: Traced)
    requires Inv(t) && t.st.log != []
    ensures Inv(t.(st := TrimOne(t.st)))
  {
    TrimOneKeepsFrame(t);
    forall key | key in t.st.cursors ensures KeyOk(t.(st := TrimOne(t.st)), key) {
      TrimOneKeepsKey(t, key);
    }
  }

  lemma {:induction false} TrimKeepsInv(config: Config, t: Traced, now: int)
    requires Inv(t)
    ensures Inv(t.(st := Trimmed(config, t.st, now)))
    decreases |t.st.log|
  {
    if MustTrim(config, t.st.log, now) {
      TrimOneKeepsInv(t);
      TrimKeepsInv(config, t.(st := TrimOne(t.st)), now);
    }
  }

  lemma RingKeepsInv(config: Config, t: Traced, recipients: seq<string>, origin: Option<string>, now: int)
    requires Inv(t)
    ensures Inv(TracedRing(config, t, recipients, origin, now))
  {
    PushKeepsInv(t, recipients, origin, now);
    var pushed := Pushed(t.st, recipients, origin, now);
    TrimKeepsInv(config, Traced(pushed, t.h.(rings := t.h.rings + pushed.log[|t.st.log|..])), now);
  }

  ghost function Answered(st: State, key: string, answer: Wake, cursor: nat): State
  {
    st.(cursors := st.cursors[key := cursor],
        lost := st.lost - {key},
        wakes := if answer.Mail? then st.wakes[key := Get(st.wakes, key) + 1] else st.wakes)
  }

  /** A new answer laid after the others moves the cursor and clears the loss. */
  lemma AnswerExtends(rings: seq<Ring>, gone: nat, key: string, from: nat, ds: seq<Delivery>,
                      cursor: nat, lost: nat, wakes: nat, answer: Wake, next: nat)
    requires Accounted(rings, gone, key, from, ds, cursor, lost, wakes)
    requires cursor <= next <= |rings|
    requires DeliveryOk(rings, key, Delivery(answer, cursor, next))
    requires Seen(rings, key, next, gone) == []
    ensures Accounted(rings, gone, key, from, ds + [Delivery(answer, cursor, next)],
                      next, 0, wakes + if answer.Mail? then 1 else 0)
  {
    assert (ds + [Delivery(answer, cursor, next)])[..|ds|] == ds;
  }

  lemma AnswerKeepsKey(t: Traced, key: string, answer: Wake, cursor: nat)
    requires Frame(t) && key in t.st.cursors && KeyOk(t, key) && answer != Timeout
    requires t.st.cursors[key] <= cursor <= t.st.seqNo
    requires DeliveryOk(t.h.rings, key, Delivery(answer, t.st.cursors[key], cursor))
    requires Seen(t.h.rings, key, cursor, Gone(t)) == []
    ensures var after := Answered(t.st, key, answer, cursor);
            KeyOk(Traced(after, Record(t.h, key, answer, t.st, after)), key)
  {
    AnswerExtends(t.h.rings, Gone(t), key, t.h.registered[key], t.h.deliveries[key],
                  t.st.cursors[key], Get(t.st.lost, key), Get(t.st.wakes, key), answer, cursor);
  }

  /** An answer to one reader set leaves the entries of every other as they were. */
  lemma AnswerKeepsOther(t: Traced, key: string, answer: Wake, cursor: nat, other: string)
    requires Frame(t) && key in t.st.cursors && answer != Timeout
    requires other in t.st.cursors && other != key && KeyOk(t, other)
    ensures var after := Answered(t.st, key, answer, cursor);
            KeyOk(Traced(after, Record(t.h, key, answer, t.st, after)), other)
  {}

  lemma AnswerKeepsFrame(t: Traced, key: string, answer: Wake, cursor: nat)
    requires Frame(t) && key in t.st.cursors && answer != Timeout
    ensures var after := Answered(t.st, key, answer, cursor);
            Frame(Traced(after, Record(t.h, key, answer, t.st, after)))
  {}

  lemma AnswerKeepsInv(t: Traced, key: string, answer: Wake, cursor: nat)
    requires Inv(t) && key in t.st.cursors && answer != Timeout
    requires t.st.cursors[key] <= cursor <= t.st.seqNo
    requires DeliveryOk(t.h.rings, key, Delivery(answer, t.st.cursors[key], cursor))
    requires Seen(t.h.rings, key, cursor, Gone(t)) == []
    ensures var after := Answered(t.st, key, answer, cursor);
            Inv(Traced(after, Record(t.h, key, answer, t.st, after)))
  {
    var after := Answered(t.st, key, answer, cursor);
    var t' := Traced(after, Record(t.h, key, answer, t.st, after));
    AnswerKeepsFrame(t, key, answer, cursor);
    forall other | other in t'.st.cursors ensures KeyOk(t', other) {
      if other == key {
        AnswerKeepsKey(t, key, answer, cursor);
      } else {
        AnswerKeepsOther(t, key, answer, cursor, other);
      }
    }
  }

  lemma ResyncKeepsInv(t: Traced, key: string)
    requires Inv(t)
    ensures Inv(TracedResync(t, key).0)
  {
    if key in t.st.lost {
      assert KeyOk(t, key);
      AnswerKeepsInv(t, key, Resync, t.st.seqNo);
    }
  }

  /** Registration opens an empty account at the newest ring. */
  lemma RegisterKeepsInv(t: Traced, key: string, after: State)
    requires Inv(t) && key !in t.st.cursors
    requires after == t.st.(cursors := t.st.cursors[key := t.st.seqNo])
    ensures Inv(Traced(after, Record(t.h, key, Resync, t.st, after)))
  {
    var t' := Traced(after, Record(t.h, key, Resync, t.st, after));
    assert Frame(t');
    forall other | other in t'.st.cursors ensures KeyOk(t', other) {
      if other != key {
        assert KeyOk(t, other);
      } else {
        NewAccount(t.h.rings, Gone(t), key);
      }
    }
  }

  lemma NewAccount(rings: seq<Ring>, gone: nat, key: string)
    requires gone <= |rings|
    ensures Accounted(rings, gone, key, |rings|, [], |rings|, 0, 0)
  {}

  lemma EnterKeepsInv(t: Traced, readers: seq<string>)
    requires Inv(t)
    ensures Inv(TracedEnter(t, readers).0)
  {
    var key := Key(readers);
    if key != "" && key !in t.st.cursors {
      RegisterKeepsInv(t, key, Entered(t.st, readers).0);
    } else {
      ResyncKeepsInv(t, key);
    }
  }

  /** The trim and the waiter agree on what this reader list sees. */
  ghost predicate KeyFaithful(readers: seq<string>)
  {
    forall recipient :: Watches(Key(readers), recipient) == AnySees(readers, recipient)
  }

  lemma NewlineFreeIsFaithful(readers: seq<string>)
    requires NewlineFree(readers)
    ensures KeyFaithful(readers)
  {
    forall recipient ensures Watches(Key(readers), recipient) == AnySees(readers, recipient) {
      KeyKeepsVisibility(readers, recipient);
    }
  }

  /** The waiter's scan of what is left of the log finds the rings its key sees. */
  lemma {:induction false} MatchingIsSeen(rings: seq<Ring>, readers: seq<string>, key: string, cursor: nat, from: nat,
                                          hi: nat)
    requires from <= hi <= |rings|
    requires forall i :: 0 <= i < hi ==> rings[i].seqNo == i + 1
    requires forall i :: 0 <= i < hi ==> Watches(key, rings[i].recipient) == AnySees(readers, rings[i].recipient)
    ensures Matching(rings[from..hi], readers, cursor) == Seen(rings, key, Max(cursor, from), hi)
  {
    hide Watches, AnySees, Matching;
    if from < hi {
      MatchingIsSeen(rings, readers, key, cursor, from, hi - 1);
      MatchingOneMore(rings[from..hi - 1], readers, cursor, rings[hi - 1]);
      assert rings[from..hi] == rings[from..hi - 1] + [rings[hi - 1]];
      if hi <= cursor {
        NothingSeen(rings, key, Max(cursor, from), hi);
        NothingSeen(rings, key, Max(cursor, from), hi - 1);
      }
    } else {
      NothingMatches(readers, cursor);
      NothingSeen(rings, key, Max(cursor, from), hi);
      assert rings[from..hi] == [];
    }
  }

  lemma NothingMatches(readers: seq<string>, cursor: nat)
    ensures Matching([], readers, cursor) == []
  {}

  lemma MatchingOneMore(log: seq<Ring>, readers: seq<string>, cursor: nat, ring: Ring)
    ensures Matching(log + [ring], readers, cursor)
      == Matching(log, readers, cursor) + if Matches(ring, readers, cursor) then [ring] else []
  {
    assert (log + [ring])[..|log|] == log;
  }

  lemma NothingSeen(rings: seq<Ring>, key: string, lo: nat, hi: nat)
    requires hi <= lo && hi <= |rings|
    ensures Seen(rings, key, lo, hi) == []
  {}

  lemma {:induction false} LastSeen(rings: seq<Ring>, key: string, lo: nat, hi: nat)
    requires hi <= |rings| && Seen(rings, key, lo, hi) != []
    requires forall i :: 0 <= i < |rings| ==> rings[i].seqNo == i + 1
    ensures var seen := Seen(rings, key, lo, hi);
            var last := seen[|seen| - 1].seqNo;
            lo < last <= hi && Seen(rings, key, last, hi) == []
  {
    if !Watches(key, rings[hi - 1].recipient) { LastSeen(rings, key, lo, hi - 1); }
  }

  lemma TakenIsAnswered(st: State, readers: seq<string>)
    requires Key(readers) in st.cursors && Key(readers) !in st.lost
    ensures var found := Matching(st.log, readers, st.cursors[Key(readers)]);
            found != [] ==>
            var mail := Mail(|found|, Recipients(found), Origins(found));
            Taken(st, readers) == (Answered(st, Key(readers), mail, found[|found| - 1].seqNo), mail)
  {
    hide Recipients, Origins;
    assert st.lost - {Key(readers)} == st.lost;
  }

  /** Mail for all that is seen and uncollected spans exactly those rings. */
  lemma MailCovers(rings: seq<Ring>, gone: nat, key: string, cursor: nat) returns (last: nat)
    requires gone <= |rings| && cursor <= |rings|
    requires forall i :: 0 <= i < |rings| ==> rings[i].seqNo == i + 1
    requires Seen(rings, key, cursor, |rings|) != []
    ensures var found := Seen(rings, key, cursor, |rings|);
            && last == found[|found| - 1].seqNo
            && cursor <= last <= |rings|
            && DeliveryOk(rings, key, Delivery(Mail(|found|, Recipients(found), Origins(found)), cursor, last))
            && Seen(rings, key, last, gone) == []
  {
    hide Recipients, Origins;
    var found := Seen(rings, key, cursor, |rings|);
    LastSeen(rings, key, cursor, |rings|);
    last := found[|found| - 1].seqNo;
    SeenSplits(rings, key, cursor, last, |rings|);
    assert Seen(rings, key, cursor, last) == found;
    SeenSplits(rings, key, last, Max(last, gone), |rings|);
  }

  lemma TakeKeepsInv(t: Traced, readers: seq<string>)
    requires Inv(t) && Key(readers) in t.st.cursors && KeyFaithful(readers)
    ensures Inv(TracedTake(t, readers).0)
  {
    hide Recipients, Origins;
    var key := Key(readers);
    if key in t.st.lost {
      ResyncKeepsInv(t, key);
    } else {
      var found := UncollectedIsSeen(t, readers);
      TakenIsAnswered(t.st, readers);
      if found != [] {
        var last := MailCovers(t.h.rings, Gone(t), key, t.st.cursors[key]);
        AnswerKeepsInv(t, key, Mail(|found|, Recipients(found), Origins(found)), last);
      }
    }
  }

  /** With no loss marked, what the log still holds is all the reader set has not collected. */
  lemma UncollectedIsSeen(t: Traced, readers: seq<string>) returns (found: seq<Ring>)
    requires Inv(t) && Key(readers) in t.st.cursors && KeyFaithful(readers)
    requires Key(readers) !in t.st.lost
    ensures found == Matching(t.st.log, readers, t.st.cursors[Key(readers)])
    ensures found == Seen(t.h.rings, Key(readers), t.st.cursors[Key(readers)], |t.h.rings|)
  {
    var key := Key(readers);
    var rings, cursor, gone := t.h.rings, t.st.cursors[key], Gone(t);
    assert KeyOk(t, key);
    assert rings[gone..] == rings[gone..|rings|];
    MatchingIsSeen(rings, readers, key, cursor, gone, |rings|);
    SeenSplits(rings, key, cursor, Max(cursor, gone), |rings|);
    found := Matching(t.st.log, readers, cursor);
  }
}
