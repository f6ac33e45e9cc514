/** The task that runs one coalesced batch (`scheduler_loop`'s spawned task): one backend
    call for all jobs; an over-long text the backend names by index is answered and removed,
    and the rest run again. The backend is an adversary that may answer anything. */
module BatchTask {
  import opened Options

  type Row = seq<real>

  datatype Error = InputTooLong(tokens: nat, nCtx: nat, index: Option<nat>) | Backend(message: string)

  /** What the backend may return; `Failed` holds any error, client error or fault. */
  datatype Answer = Rows(rows: seq<Row>) | Failed(error: Error)

  datatype Reply = Ok(row: Row) | Err(error: Error)

  datatype BreakerOp = RecordSuccess | RecordFailure(why: Error)

  /** A job in the task: its text, and whose reply channel it is. */
  datatype Entry = Entry(id: nat, text: string)

  datatype Call = Call(ids: seq<nat>, texts: seq<string>, answer: Answer)

  datatype Outcome = Outcome(calls: seq<Call>, replies: seq<(nat, Reply)>, breaker: seq<BreakerOp>)

  const NOTHING := Outcome([], [], [])

  /** A short or long reply is an error: it must not be zipped against the callers. */
  function CheckedRows(answer: Answer, sent: nat): Answer
  {
    if answer.Rows? && |answer.rows| != sent
    then Failed(Backend("backend returned a wrong number of embedding rows"))
    else answer
  }

  function Ids(jobs: seq<Entry>): seq<nat>
  {
    seq(|jobs|, i requires 0 <= i < |jobs| => jobs[i].id)
  }

  function Texts(jobs: seq<Entry>): seq<string>
  {
    seq(|jobs|, i requires 0 <= i < |jobs| => jobs[i].text)
  }

  function Remove<T>(s: seq<T>, i: nat): seq<T>
    requires i < |s|
  {
    s[..i] + s[i + 1..]
  }

  /** The error that peels one job off: it names one of several. */
  predicate Peels(answer: Answer, sent: nat)
  {
    && answer.Failed? && answer.error.InputTooLong? && answer.error.index.Some?
    && sent > 1 && answer.error.index.value < sent
  }

  /** What a caller hears of the call that ends the task. */
  function ReplyAt(answer: Answer, i: nat): Reply
    requires answer.Rows? ==> i < |answer.rows|
  {
    match answer
    case Rows(rows) => Ok(rows[i])
    case Failed(error) => Err(error)
  }

  function Replies(jobs: seq<Entry>, answer: Answer): seq<(nat, Reply)>
    requires answer.Rows? ==> |answer.rows| == |jobs|
  {
    seq(|jobs|, i requires 0 <= i < |jobs| => (jobs[i].id, ReplyAt(answer, i)))
  }

  function Recorded(answer: Answer): seq<BreakerOp>
  {
    match answer
    case Rows(_) => [RecordSuccess]
    case Failed(error) => if error.InputTooLong? then [] else [RecordFailure(error)]
  }

  function Then(first: Outcome, rest: Outcome): Outcome
  {
    Outcome(first.calls + rest.calls, first.replies + rest.replies, first.breaker + rest.breaker)
  }

  /** The whole task, from call number `k` of the backend on. */
  function Serve(backend: (nat, seq<string>) -> Answer, k: nat, jobs: seq<Entry>): Outcome
    decreases |jobs|
  {
    if jobs == [] then NOTHING
    else
      var answer := CheckedRows(backend(k, Texts(jobs)), |jobs|);
      var call := Call(Ids(jobs), Texts(jobs), answer);
      if Peels(answer, |jobs|) then
        var i := answer.error.index.value;
        Then(Outcome([call], [(jobs[i].id, Err(answer.error.(index := Some(0))))], []),
             Serve(backend, k + 1, Remove(jobs, i)))
      else
        Outcome([call], Replies(jobs, answer), Recorded(answer))
  }

  /** The loop as the source has it: a lone job's text is moved out, not copied, so its
      entry is left with the empty text. */
  method Run(backend: (nat, seq<string>) -> Answer, batch: seq<Entry>) returns (outcome: Outcome)
    ensures outcome == Serve(backend, 0, batch)
    ensures batch != [] ==> StepByStep(backend, 0, batch, outcome)
  {
    hide StepByStep;
    if batch != [] { ServeStepByStep(backend, 0, batch); }
    var jobs := batch;
    var k := 0;
    outcome := NOTHING;
    NothingThen(Serve(backend, 0, batch));
    while jobs != []
      invariant Then(outcome, Serve(backend, k, jobs)) == Serve(backend, 0, batch)
      decreases |jobs|
    {
      ghost var before := jobs;
      var texts;
      if |jobs| == 1 {
        texts := [jobs[0].text];
        jobs := [jobs[0].(text := "")];
      } else {
        texts := Texts(jobs);
      }
      assert texts == Texts(before) && Ids(jobs) == Ids(before);
      var sent := |texts|;
      var answer := CheckedRows(backend(k, texts), sent);
      var call := Call(Ids(jobs), texts, answer);
      if Peels(answer, |jobs|) {
        var i := answer.error.index.value;
        var step := Outcome([call], [(jobs[i].id, Err(answer.error.(index := Some(0))))], []);
        jobs := Remove(jobs, i);
        k := k + 1;
        ThenThen(outcome, step, Serve(backend, k, jobs));
        outcome := Then(outcome, step);
      } else {
        RepliesByIds(jobs, before, answer);
        outcome := Then(outcome, Outcome([call], Replies(jobs, answer), Recorded(answer)));
        return;
      }
    }
    ThenNothing(outcome);
  }

  lemma NothingThen(o: Outcome)
    ensures Then(NOTHING, o) == o
  {}

  lemma ThenNothing(o: Outcome)
    ensures Then(o, NOTHING) == o
  {}

  lemma ThenThen(a: Outcome, b: Outcome, c: Outcome)
    ensures Then(a, Then(b, c)) == Then(Then(a, b), c)
  {}

  /** Replies depend on whose jobs these are, not on their texts. */
  lemma RepliesByIds(jobs: seq<Entry>, others: seq<Entry>, answer: Answer)
    requires Ids(jobs) == Ids(others) && (answer.Rows? ==> |answer.rows| == |jobs|)
    ensures |jobs| == |others| && Replies(jobs, answer) == Replies(others, answer)
  {
    assert |jobs| == |Ids(jobs)| && |others| == |Ids(others)|;
    forall i | 0 <= i < |jobs| ensures jobs[i].id == others[i].id {
      assert Ids(jobs)[i] == Ids(others)[i];
    }
  }

  // ---------------------------------------------------------------- what the task promises

  /** `less` is `all` with position `i` taken out: the rest keep their order. */
  ghost predicate WithoutOne<T(!new)>(all: seq<T>, i: nat, less: seq<T>)
  {
    && i < |all| && |less| == |all| - 1
    && forall p :: 0 <= p < |less| ==> less[p] == all[if p < i then p else p + 1]
  }

  /** Call `c`, whose answer names one over-long text of several, is followed by one without
      that text's job, and by that job's reply, which tells it of its one text. */
  ghost predicate PeeledAt(o: Outcome, c: nat)
    requires c + 1 < |o.calls| && c < |o.replies|
  {
    var call, next := o.calls[c], o.calls[c + 1];
    match call.answer
    case Failed(InputTooLong(tokens, nCtx, Some(i))) =>
      && |call.ids| > 1 && i < |call.ids| == |call.texts|
      && WithoutOne(call.ids, i, next.ids) && WithoutOne(call.texts, i, next.texts)
      && o.replies[c] == (call.ids[i], Err(InputTooLong(tokens, nCtx, Some(0))))
    case _ => false
  }

  /** What a caller at position `p` hears when the call ends the task: its row, or the error. */
  ghost predicate Hears(answer: Answer, p: nat, reply: Reply)
  {
    match answer
    case Rows(rows) => p < |rows| && reply == Ok(rows[p])
    case Failed(error) => reply == Err(error)
  }

  /** The last call names no text of several; it answers everyone it was made for, each at its
      own position, and the breaker hears of it: rows are a success, a client error is no news,
      anything else is a failure. */
  ghost predicate EndsAt(o: Outcome, c: nat)
    requires c < |o.calls|
  {
    var last := o.calls[c];
    && |last.texts| == |last.ids|
    && |o.replies| == c + |last.ids|
    && (forall p :: 0 <= p < |last.ids| ==>
          o.replies[c + p].0 == last.ids[p] && Hears(last.answer, p, o.replies[c + p].1))
    && match last.answer
       case Rows(rows) => |rows| == |last.ids| && o.breaker == [RecordSuccess]
       case Failed(InputTooLong(_, _, index)) =>
         (index.None? || |last.ids| <= 1 || index.value >= |last.ids|) && o.breaker == []
       case Failed(error) => o.breaker == [RecordFailure(error)]
  }

  /** The backend's answer, save that a wrong number of rows counts as a backend fault. */
  ghost predicate LengthChecked(given: Answer, sent: nat, answer: Answer)
  {
    if given.Rows? && |given.rows| != sent then answer.Failed? && answer.error.Backend? else answer == given
  }

  /** Call number `k + c` of the backend is call `c` here, length-checked. */
  ghost predicate AnsweredBy(backend: (nat, seq<string>) -> Answer, k: nat, calls: seq<Call>)
  {
    forall c :: 0 <= c < |calls| ==>
      LengthChecked(backend(k + c, calls[c].texts), |calls[c].texts|, calls[c].answer)
  }

  /** Every call but the last peels one job. As the last does not, a call is followed by
      another exactly when its answer names one text of several. */
  ghost predicate PeelsThrough(o: Outcome)
  {
    |o.calls| <= |o.replies| + 1 && forall c :: 0 <= c < |o.calls| - 1 ==> PeeledAt(o, c)
  }

  /** The first call sends every job its own text; each call but the last peels one job; the
      last answers the rest. */
  ghost predicate StepByStep(backend: (nat, seq<string>) -> Answer, k: nat, jobs: seq<Entry>, o: Outcome)
  {
    && 1 <= |o.calls| <= |jobs|
    && o.calls[0].ids == Ids(jobs) && o.calls[0].texts == Texts(jobs)
    && AnsweredBy(backend, k, o.calls)
    && PeelsThrough(o)
    && EndsAt(o, |o.calls| - 1)
  }

  lemma PeelStep(backend: (nat, seq<string>) -> Answer, k: nat, jobs: seq<Entry>, i: nat, rest: Outcome)
    requires jobs != [] && Peels(CheckedRows(backend(k, Texts(jobs)), |jobs|), |jobs|)
    requires i == CheckedRows(backend(k, Texts(jobs)), |jobs|).error.index.value
    requires rest == Serve(backend, k + 1, Remove(jobs, i)) && StepByStep(backend, k + 1, Remove(jobs, i), rest)
    ensures StepByStep(backend, k, jobs, Serve(backend, k, jobs))
  {
    var answer := CheckedRows(backend(k, Texts(jobs)), |jobs|);
    var call := Call(Ids(jobs), Texts(jobs), answer);
    var reply := (jobs[i].id, Err(answer.error.(index := Some(0))));
    RemoveParts(jobs, i);
    RemoveMeaning(Ids(jobs), i);
    RemoveMeaning(Texts(jobs), i);
    PeelFirst(call, reply, rest);
    AnsweredLater(backend, k, call, rest.calls);
    EndsLater(Then(Outcome([call], [reply], []), rest), rest);
  }

  lemma EndStep(backend: (nat, seq<string>) -> Answer, k: nat, jobs: seq<Entry>)
    requires jobs != [] && !Peels(CheckedRows(backend(k, Texts(jobs)), |jobs|), |jobs|)
    ensures StepByStep(backend, k, jobs, Serve(backend, k, jobs))
  {
    hide EndsAt, AnsweredBy, PeelsThrough;
    var answer := CheckedRows(backend(k, Texts(jobs)), |jobs|);
    var call := Call(Ids(jobs), Texts(jobs), answer);
    var o := Outcome([call], Replies(jobs, answer), Recorded(answer));
    OneCall(backend, k, call, o);
    EndsAtOnce(o, jobs);
  }

  lemma OneCall(backend: (nat, seq<string>) -> Answer, k: nat, call: Call, o: Outcome)
    requires o.calls == [call] && call.answer == CheckedRows(backend(k, call.texts), |call.texts|)
    ensures AnsweredBy(backend, k, o.calls) && PeelsThrough(o)
  {}

  /** The task, call by call: the first call sends every job its own text; a call is followed by
      another exactly when its answer names one over-long text of several, and then by one for
      all but that job; the last answers all that are left, and only it reports to the breaker. */
  lemma {:induction false} ServeStepByStep(backend: (nat, seq<string>) -> Answer, k: nat, jobs: seq<Entry>)
    requires jobs != []
    ensures StepByStep(backend, k, jobs, Serve(backend, k, jobs))
    decreases |jobs|
  {
    hide Serve, StepByStep;
    var answer := CheckedRows(backend(k, Texts(jobs)), |jobs|);
    if Peels(answer, |jobs|) {
      var i := answer.error.index.value;
      ServeStepByStep(backend, k + 1, Remove(jobs, i));
      PeelStep(backend, k, jobs, i, Serve(backend, k + 1, Remove(jobs, i)));
    } else {
      EndStep(backend, k, jobs);
    }
  }

  lemma RemoveParts(jobs: seq<Entry>, i: nat)
    requires i < |jobs|
    ensures Ids(Remove(jobs, i)) == Remove(Ids(jobs), i) && Texts(Remove(jobs, i)) == Remove(Texts(jobs), i)
  {}

  lemma RemoveMeaning<T(!new)>(s: seq<T>, i: nat)
    requires i < |s|
    ensures WithoutOne(s, i, Remove(s, i))
  {}

  lemma AnsweredLater(backend: (nat, seq<string>) -> Answer, k: nat, call: Call, calls: seq<Call>)
    requires LengthChecked(backend(k, call.texts), |call.texts|, call.answer)
    requires AnsweredBy(backend, k + 1, calls)
    ensures AnsweredBy(backend, k, [call] + calls)
  {
    forall c | 0 <= c < |calls| + 1
      ensures var call' := ([call] + calls)[c];
              LengthChecked(backend(k + c, call'.texts), |call'.texts|, call'.answer)
    {
      if c > 0 {
        assert ([call] + calls)[c] == calls[c - 1];
        assert k + c == k + 1 + (c - 1);
      }
    }
  }

  lemma PeelFirst(call: Call, reply: (nat, Reply), rest: Outcome)
    requires PeelsThrough(rest) && rest.calls != []
    requires PeeledAt(Outcome([call, rest.calls[0]], [reply], []), 0)
    ensures PeelsThrough(Then(Outcome([call], [reply], []), rest))
  {
    var o := Then(Outcome([call], [reply], []), rest);
    forall c | 0 <= c < |o.calls| - 1 ensures PeeledAt(o, c) {
      if c > 0 {
        assert PeeledAt(rest, c - 1);
        assert o.calls[c] == rest.calls[c - 1] && o.calls[c + 1] == rest.calls[c];
        assert o.replies[c] == rest.replies[c - 1];
      }
    }
  }

  lemma EndsAtOnce(o: Outcome, jobs: seq<Entry>)
    requires |o.calls| == 1 && jobs != []
    requires var call := o.calls[0];
             && call.ids == Ids(jobs) && call.texts == Texts(jobs)
             && (call.answer.Rows? ==> |call.answer.rows| == |jobs|)
             && !Peels(call.answer, |jobs|)
             && o.replies == Replies(jobs, call.answer) && o.breaker == Recorded(call.answer)
    ensures EndsAt(o, 0)
  {}

  lemma EndsLater(o: Outcome, rest: Outcome)
    requires |o.calls| == |rest.calls| + 1 && |o.replies| == |rest.replies| + 1 && rest.calls != []
    requires o.calls[1..] == rest.calls && o.replies[1..] == rest.replies && o.breaker == rest.breaker
    requires EndsAt(rest, |rest.calls| - 1)
    ensures EndsAt(o, |o.calls| - 1)
  {
    var c := |rest.calls| - 1;
    var last := rest.calls[c];
    assert o.calls[c + 1] == last;
    forall p | 0 <= p < |last.ids|
      ensures o.replies[c + 1 + p].0 == last.ids[p] && Hears(last.answer, p, o.replies[c + 1 + p].1)
    {
      assert o.replies[c + 1 + p] == rest.replies[c + p];
    }
  }

  function ReplyIds(replies: seq<(nat, Reply)>): seq<nat>
  {
    seq(|replies|, i requires 0 <= i < |replies| => replies[i].0)
  }

  /** Every job is answered exactly once. */
  lemma {:induction false} ServeAnswersEachOnce(backend: (nat, seq<string>) -> Answer, k: nat, jobs: seq<Entry>)
    ensures multiset(ReplyIds(Serve(backend, k, jobs).replies)) == multiset(Ids(jobs))
    decreases |jobs|
  {
    if jobs != [] {
      var answer := CheckedRows(backend(k, Texts(jobs)), |jobs|);
      if Peels(answer, |jobs|) {
        var i := answer.error.index.value;
        var rest := Serve(backend, k + 1, Remove(jobs, i));
        ServeAnswersEachOnce(backend, k + 1, Remove(jobs, i));
        FirstReply((jobs[i].id, Err(answer.error.(index := Some(0)))), rest.replies);
        RemoveOne(Ids(jobs), i);
        RemoveParts(jobs, i);
      } else {
        assert ReplyIds(Replies(jobs, answer)) == Ids(jobs);
      }
    }
  }

  lemma FirstReply(reply: (nat, Reply), rest: seq<(nat, Reply)>)
    ensures multiset(ReplyIds([reply] + rest)) == multiset{reply.0} + multiset(ReplyIds(rest))
  {
    assert ReplyIds([reply] + rest) == [reply.0] + ReplyIds(rest);
  }

  lemma RemoveOne(ids: seq<nat>, i: nat)
    requires i < |ids|
    ensures multiset(ids) == multiset(Remove(ids, i)) + multiset{ids[i]}
  {
    assert ids == ids[..i] + [ids[i]] + ids[i + 1..];
  }

  /** Every call sends jobs of the batch, each with its own text: no text that was moved
      out, and none of another job. */
  lemma {:induction false} CallsSendOwnTexts(backend: (nat, seq<string>) -> Answer, k: nat, jobs: seq<Entry>, c: nat,
                                             p: nat)
    requires var o := Serve(backend, k, jobs);
             c < |o.calls| && p < |o.calls[c].ids|
    ensures var call := Serve(backend, k, jobs).calls[c];
            |call.texts| == |call.ids| && Entry(call.ids[p], call.texts[p]) in jobs
    decreases |jobs|
  {
    var answer := CheckedRows(backend(k, Texts(jobs)), |jobs|);
    if c == 0 {
      assert jobs[p] in jobs;
    } else {
      var rest := Remove(jobs, answer.error.index.value);
      CallsSendOwnTexts(backend, k + 1, rest, c - 1, p);
      assert forall e :: e in rest ==> e in jobs;
    }
  }

  /** A row among the replies comes from the last call, where its receiver stood. */
  lemma RowIsFromLastCall(o: Outcome, r: nat)
    requires o.calls != [] && PeelsThrough(o) && EndsAt(o, |o.calls| - 1)
    requires r < |o.replies| && o.replies[r].1.Ok?
    ensures var c := |o.calls| - 1;
            && c <= r && r - c < |o.calls[c].ids| == |o.calls[c].texts|
            && o.replies[r].0 == o.calls[c].ids[r - c] && Hears(o.calls[c].answer, r - c, o.replies[r].1)
  {
    var c := |o.calls| - 1;
    forall i | 0 <= i < c && i < |o.replies| ensures o.replies[i].1.Err? {
      assert PeeledAt(o, i);
    }
    assert r >= c ==> o.replies[c + (r - c)] == o.replies[r];
  }

  /** A row reaches a caller only from the position of a call where that caller's own
      original text stood. */
  lemma RowsGoToTheirTexts(backend: (nat, seq<string>) -> Answer, k: nat, jobs: seq<Entry>, r: nat)
    returns (c: nat, p: nat)
    requires var o := Serve(backend, k, jobs);
             r < |o.replies| && o.replies[r].1.Ok?
    ensures var o := Serve(backend, k, jobs);
            && c < |o.calls| && p < |o.calls[c].ids| && p < |o.calls[c].texts|
            && o.calls[c].ids[p] == o.replies[r].0
            && Entry(o.replies[r].0, o.calls[c].texts[p]) in jobs
            && backend(k + c, o.calls[c].texts).Rows?
            && p < |backend(k + c, o.calls[c].texts).rows| == |o.calls[c].texts|
            && backend(k + c, o.calls[c].texts).rows[p] == o.replies[r].1.row
  {
    hide PeelsThrough, EndsAt;
    var o := Serve(backend, k, jobs);
    ServeStepByStep(backend, k, jobs);
    RowIsFromLastCall(o, r);
    c := |o.calls| - 1;
    p := r - c;
    CallsSendOwnTexts(backend, k, jobs, c, p);
  }

  /** One breaker outcome at most, and a client error records none. */
  lemma BreakerHearsAtMostOnce(backend: (nat, seq<string>) -> Answer, k: nat, jobs: seq<Entry>)
    requires jobs != []
    ensures var o := Serve(backend, k, jobs);
            && o.calls != []
            && (var last := o.calls[|o.calls| - 1];
                && |o.breaker| <= 1
                && (o.breaker == [RecordSuccess] <==> last.answer.Rows?)
                && (o.breaker == [] <==> last.answer.Failed? && last.answer.error.InputTooLong?)
                && (last.answer.Failed? && last.answer.error.Backend? ==>
                      o.breaker == [RecordFailure(last.answer.error)]))
  {
    ServeStepByStep(backend, k, jobs);
  }
}
