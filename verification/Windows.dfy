/** Token-exact sliding windows over a text (`windows.rs`). The counter is an adversary: its
    answer may depend on when it is asked, not only on the slice, and it may fail. Every
    claim about a window is therefore a claim about an answer it really gave. */
module Windows {
  import opened Arithmetic

  const MAX_CHARS_PER_TOKEN: nat := 32

  datatype Answer = Tokens(count: nat) | Failed(error: string)

  /** What the counter answers to call number `tick` on the slice `[start, end)`. */
  type Counter = (nat, nat, nat) -> Answer

  datatype Call = Call(start: nat, end: nat, answer: Answer)

  datatype Window = Window(start: nat, end: nat)

  datatype Outcome<+T> = Ok(value: T) | Err(error: string)

  // ---------------------------------------------------------------- what was asked

  ghost predicate Honest(count: Counter, log: seq<Call>)
  {
    forall i :: 0 <= i < |log| ==> log[i].answer == count(i, log[i].start, log[i].end)
  }

  /** `after` continues `before`, and every answer in it is the counter's. */
  ghost predicate Continues(count: Counter, before: seq<Call>, after: seq<Call>)
  {
    |before| <= |after| && before == after[..|before|] && Honest(count, after)
  }

  /** Since `before` no call failed. */
  ghost predicate AllAnswered(before: seq<Call>, after: seq<Call>)
  {
    forall i :: |before| <= i < |after| ==> after[i].answer.Tokens?
  }

  /** Since `before` the last call failed, with this error. */
  ghost predicate JustFailed(before: seq<Call>, after: seq<Call>, error: string)
  {
    |before| < |after| && after[|after| - 1].answer == Failed(error)
  }

  predicate IsCall(call: Call, start: nat, end: nat)
  {
    call.start == start && call.end == end && call.answer.Tokens?
  }

  /** The counter was asked about this slice and charged at most `limit`. */
  ghost predicate Fits(log: seq<Call>, start: nat, end: nat, limit: nat)
  {
    exists i :: 0 <= i < |log| && IsCall(log[i], start, end) && log[i].answer.count <= limit
  }

  /** The counter was asked about this slice and charged more than `limit`. */
  ghost predicate Exceeds(log: seq<Call>, start: nat, end: nat, limit: nat)
  {
    exists i :: 0 <= i < |log| && IsCall(log[i], start, end) && log[i].answer.count > limit
  }

  lemma StillKnown(count: Counter, before: seq<Call>, after: seq<Call>, start: nat, end: nat, limit: nat)
    requires Continues(count, before, after)
    ensures Fits(before, start, end, limit) ==> Fits(after, start, end, limit)
    ensures Exceeds(before, start, end, limit) ==> Exceeds(after, start, end, limit)
  {
    assert forall i :: 0 <= i < |before| ==> before[i] == after[i];
  }

  /** One call of the counter. */
  method Ask(count: Counter, log: seq<Call>, start: nat, end: nat, ghost limit: nat)
      returns (answer: Answer, log': seq<Call>)
    requires Honest(count, log)
    ensures answer == count(|log|, start, end)
    ensures log' == log + [Call(start, end, answer)] && Continues(count, log, log')
    ensures answer.Tokens? && answer.count <= limit ==> Fits(log', start, end, limit)
    ensures answer.Tokens? && answer.count > limit ==> Exceeds(log', start, end, limit)
  {
    answer := count(|log|, start, end);
    log' := log + [Call(start, end, answer)];
    assert IsCall(log'[|log|], start, end) <==> answer.Tokens?;
  }

  // ---------------------------------------------------------------- one window

  /** The farthest end a search looks at. */
  function Cap(start: nat, n: nat, budget: nat): nat
  {
    if start + budget * MAX_CHARS_PER_TOKEN < n then start + budget * MAX_CHARS_PER_TOKEN else n
  }

  /** A window's end: the counter was seen to accept it, and to refuse one character more
      unless the end is the cap; or the window is one character and was seen not to fit (at
      budget 0: even the empty slice was). */
  ghost predicate EndOk(log: seq<Call>, start: nat, end: nat, n: nat, budget: nat)
  {
    var cap := Cap(start, n, budget);
    && start <= end <= n
    && ((Fits(log, start, end, budget) && (end == cap || (start < end < cap && Exceeds(log, start, end + 1, budget))))
        || (end == start + 1 && Exceeds(log, start, if budget == 0 then start else end, budget)))
  }

  /** The next window's start: what is repeated was seen to hold at most `overlap` tokens,
      and one character more to hold more. */
  ghost predicate StartOk(log: seq<Call>, w: Window, next: nat, overlap: nat)
  {
    && w.start < next <= w.end
    && (overlap == 0 ==> next == w.end)
    && (next < w.end ==> Fits(log, next, w.end, overlap))
    && (overlap > 0 && w.start + 1 < next ==> Exceeds(log, next - 1, w.end, overlap))
  }

  /** At budget 0 a search asks once, about the empty slice: refused, it takes one character. */
  function AtZero(count: Counter, tick: nat, start: nat): Outcome<nat>
  {
    match count(tick, start, start)
    case Failed(error) => Err(error)
    case Tokens(charge) => Ok(if charge == 0 then start else start + 1)
  }

  method LargestFittingEnd(count: Counter, log: seq<Call>, start: nat, n: nat, budget: nat)
      returns (r: Outcome<nat>, log': seq<Call>)
    requires Honest(count, log) && start < n
    ensures Continues(count, log, log')
    ensures r.Err? ==> JustFailed(log, log', r.error)
    ensures r.Ok? ==> AllAnswered(log, log') && EndOk(log', start, r.value, n, budget)
    ensures r.Ok? ==> (r.value == start <==> budget == 0 && count(|log|, start, start) == Tokens(0))
    ensures budget == 0 ==> r == AtZero(count, |log|, start) && |log'| == |log| + 1
  {
    var cap := Cap(start, n, budget);
    var answer;
    answer, log' := Ask(count, log, start, cap, budget);
    if answer.Failed? { return Err(answer.error), log'; }
    if answer.count <= budget { return Ok(cap), log'; }
    var lo, hi := start, cap;
    while hi - lo > 1
      invariant start <= lo <= hi <= cap && (lo == hi ==> budget == 0)
      invariant budget == 0 ==> lo == hi == start && |log'| == |log| + 1
      invariant Continues(count, log, log') && AllAnswered(log, log')
      invariant lo > start ==> Fits(log', start, lo, budget)
      invariant Exceeds(log', start, hi, budget)
    {
      var mid := lo + (hi - lo) / 2;
      ghost var before := log';
      answer, log' := Ask(count, log', start, mid, budget);
      if answer.Failed? { return Err(answer.error), log'; }
      StillKnown(count, before, log', start, lo, budget);
      StillKnown(count, before, log', start, hi, budget);
      if answer.count <= budget { lo := mid; } else { hi := mid; }
    }
    r := Ok(if lo > start then lo else start + 1);
  }

  method SmallestOverlapStart(count: Counter, log: seq<Call>, start: nat, end: nat, overlap: nat)
      returns (r: Outcome<nat>, log': seq<Call>)
    requires Honest(count, log) && start <= end
    ensures Continues(count, log, log')
    ensures r.Err? ==> JustFailed(log, log', r.error)
    ensures r.Ok? ==> AllAnswered(log, log')
    ensures r.Ok? && start < end ==> StartOk(log', Window(start, end), r.value, overlap)
    ensures start == end || overlap == 0 ==> r == Ok(end) && log' == log
  {
    log' := log;
    if overlap == 0 { return Ok(end), log'; }
    var lo, hi := start, end;
    while hi - lo > 1
      invariant start <= lo <= hi <= end && (lo == hi ==> start == end)
      invariant Continues(count, log, log') && AllAnswered(log, log')
      invariant hi < end ==> Fits(log', hi, end, overlap)
      invariant lo > start ==> Exceeds(log', lo, end, overlap)
      invariant start == end ==> log' == log
    {
      var mid := lo + (hi - lo) / 2;
      ghost var before := log';
      var answer;
      answer, log' := Ask(count, log', mid, end, overlap);
      if answer.Failed? { return Err(answer.error), log'; }
      StillKnown(count, before, log', lo, end, overlap);
      StillKnown(count, before, log', hi, end, overlap);
      if answer.count <= overlap { hi := mid; } else { lo := mid; }
    }
    r := Ok(hi);
  }

  /** One iteration of the planner: the window from `start`, and where the next one starts
      unless this is the last. The start stands still exactly when the budget is 0 and the
      counter charges the empty slice nothing. */
  method Iterate(count: Counter, log: seq<Call>, start: nat, n: nat, budget: nat, overlap: nat)
      returns (r: Outcome<(nat, nat)>, log': seq<Call>)
    requires Honest(count, log) && start < n && (budget == 0 ==> overlap == 0)
    ensures Continues(count, log, log')
    ensures r.Err? ==> JustFailed(log, log', r.error)
    ensures r.Ok? ==> var (end, next) := r.value;
      && AllAnswered(log, log') && EndOk(log', start, end, n, budget)
      && (start < end < n ==> StartOk(log', Window(start, end), next, overlap))
      && (end < n ==> (next == start <==> budget == 0 && count(|log|, start, start) == Tokens(0)))
      && (end == start ==> next == start)
      && (end >= n ==> next == n)
      && (budget == 0 ==> next == end)
    ensures r.Ok? && Advances(count, n, budget) ==> start < r.value.0
    ensures budget == 0 ==> |log'| == |log| + 1
    ensures budget == 0 ==> (r.Ok? <==> AtZero(count, |log|, start).Ok?)
    ensures budget == 0 && r.Ok? ==> r.value.0 == AtZero(count, |log|, start).value
    ensures budget == 0 && r.Err? ==> r.error == AtZero(count, |log|, start).error
  {
    var got;
    got, log' := LargestFittingEnd(count, log, start, n, budget);
    if got.Err? { return Err(got.error), log'; }
    var end := got.value;
    if end >= n { return Ok((end, n)), log'; }
    ghost var before := log';
    got, log' := SmallestOverlapStart(count, log', start, end, overlap);
    if got.Err? { return Err(got.error), log'; }
    EndStillOk(count, before, log', start, end, n, budget);
    r := Ok((end, got.value));
  }

  lemma EndStillOk(count: Counter, before: seq<Call>, after: seq<Call>, start: nat, end: nat, n: nat, budget: nat)
    requires Continues(count, before, after) && EndOk(before, start, end, n, budget)
    ensures EndOk(after, start, end, n, budget)
  {
    StillKnown(count, before, after, start, start, budget);
    StillKnown(count, before, after, start, end, budget);
    StillKnown(count, before, after, start, end + 1, budget);
  }

  lemma StartStillOk(count: Counter, before: seq<Call>, after: seq<Call>, w: Window, next: nat, overlap: nat)
    requires Continues(count, before, after) && StartOk(before, w, next, overlap)
    ensures StartOk(after, w, next, overlap)
  {
    StillKnown(count, before, after, next, w.end, overlap);
    StillKnown(count, before, after, next - 1, w.end, overlap);
  }

  // ---------------------------------------------------------------- the plan

  /** Where the window after number `i` starts, `next` standing for the one not yet cut. */
  function StartAfter(out: seq<Window>, i: nat, next: nat): nat
    requires i < |out|
  {
    if i + 1 < |out| then out[i + 1].start else next
  }

  /** The windows cut so far; the next starts at `next`. */
  ghost predicate CutTo(log: seq<Call>, out: seq<Window>, next: nat, n: nat, budget: nat, overlap: nat)
  {
    && (if out == [] then next == 0 else out[0].start == 0)
    && (forall i :: 0 <= i < |out| ==>
          EndOk(log, out[i].start, out[i].end, n, budget) && i <= out[i].start < out[i].end)
    && (forall i :: 0 <= i < |out| ==> out[i].end < n && StartOk(log, out[i], StartAfter(out, i, next), overlap))
    && |out| <= next
  }

  /** A finished plan: the windows start at 0, each next one inside or right after the one
      before, and only the last reaches the end of the text. */
  ghost predicate Planned(log: seq<Call>, out: seq<Window>, n: nat, budget: nat, overlap: nat)
  {
    && 0 < |out| <= n
    && var last := out[|out| - 1];
    && last.start < last.end == n && EndOk(log, last.start, n, n, budget)
    && CutTo(log, out[..|out| - 1], last.start, n, budget, overlap)
  }

  lemma CutStillOk(count: Counter, before: seq<Call>, after: seq<Call>, out: seq<Window>, next: nat, n: nat,
                   budget: nat,
                   overlap: nat)
    requires Continues(count, before, after) && CutTo(before, out, next, n, budget, overlap)
    ensures CutTo(after, out, next, n, budget, overlap)
  {
    forall i | 0 <= i < |out|
      ensures EndOk(after, out[i].start, out[i].end, n, budget)
      ensures StartOk(after, out[i], StartAfter(out, i, next), overlap) {
      EndStillOk(count, before, after, out[i].start, out[i].end, n, budget);
      StartStillOk(count, before, after, out[i], StartAfter(out, i, next), overlap);
    }
  }

  lemma CutOneMore(log: seq<Call>, out: seq<Window>, w: Window, next: nat, n: nat, budget: nat, overlap: nat)
    requires CutTo(log, out, w.start, n, budget, overlap)
    requires EndOk(log, w.start, w.end, n, budget) && w.end < n && StartOk(log, w, next, overlap)
    ensures CutTo(log, out + [w], next, n, budget, overlap)
  {
    forall i | 0 <= i < |out| ensures StartAfter(out + [w], i, next) == StartAfter(out, i, w.start) {}
  }

  /** The overlap really used: as much as is asked for, but less than the budget. */
  function Kept(overlap: nat, budget: nat): (kept: nat)
    ensures kept <= overlap && (budget > 0 ==> kept < budget) && (budget == 0 ==> kept == 0)
    ensures kept < overlap ==> kept + 1 >= budget
  {
    Min(overlap, if budget == 0 then 0 else budget - 1)
  }

  /** Each window advances: the budget is positive, or the counter charges every empty slice. */
  ghost predicate Advances(count: Counter, n: nat, budget: nat)
  {
    budget >= 1 || forall tick, s :: 0 <= s < n ==> count(tick, s, s) != Tokens(0)
  }

  /** How far the loop of the planner has come. */
  datatype Progress = Ended(windows: seq<Window>) | Broken(error: string) | Running(windows: seq<Window>, start: nat)

  /** The loop at budget 0 after `i` iterations, the first of them asking call number `tick`:
      a free empty slice makes an empty window and no progress. */
  function ZeroBudget(count: Counter, n: nat, tick: nat, i: nat): (p: Progress)
    requires n > 0
    ensures p.Running? ==> p.start < n
  {
    if i == 0 then Running([], 0)
    else
      var before := ZeroBudget(count, n, tick, i - 1);
      if !before.Running? then before
      else
        match AtZero(count, tick + i - 1, before.start)
        case Err(error) => Broken(error)
        case Ok(end) =>
          var windows := before.windows + [Window(before.start, end)];
          if end >= n then Ended(windows) else Running(windows, end)
  }

  /** The loop of the planner, watched for `steps` iterations. */
  method CutAll(count: Counter, log: seq<Call>, n: nat, budget: nat, kept: nat, steps: nat)
      returns (r: Progress, log': seq<Call>)
    requires Honest(count, log) && n > 0 && (budget == 0 ==> kept == 0)
    ensures Continues(count, log, log')
    ensures if r.Broken? then JustFailed(log, log', r.error) else AllAnswered(log, log')
    ensures Advances(count, n, budget) && r.Ended? ==> Planned(log', r.windows, n, budget, kept)
    ensures Advances(count, n, budget) && r.Running? ==> steps < n && CutTo(log', r.windows, r.start, n, budget, kept)
    ensures budget == 0 ==> r == ZeroBudget(count, n, |log|, steps)
  {
    hide Planned, EndOk, StartOk, Advances, Continues, AllAnswered, JustFailed, Honest;
    log' := log;
    var out, start, k := [], 0, 0;
    ContinuesItself(count, log);
    while k < steps
      invariant k <= steps && start < n && Honest(count, log')
      invariant Continues(count, log, log') && AllAnswered(log, log')
      invariant Advances(count, n, budget) ==> CutTo(log', out, start, n, budget, kept) && k <= start
      invariant budget == 0 ==> |log'| == |log| + k && ZeroBudget(count, n, |log|, k) == Running(out, start)
    {
      ghost var before := log';
      var got;
      got, log' := Iterate(count, log', start, n, budget, kept);
      ContinuesOn(count, log, before, log');
      ZeroBudgetStays(count, n, |log|, k + 1, steps);
      if got.Err? { return Broken(got.error), log'; }
      var (end, next) := got.value;
      var w := Window(start, end);
      if Advances(count, n, budget) { CutStep(count, before, log', out, w, next, n, budget, kept); }
      if end >= n { return Ended(out + [w]), log'; }
      out, start, k := out + [w], next, k + 1;
    }
    r := Running(out, start);
  }

  /** Once ended the loop stays ended. */
  lemma {:induction false} ZeroBudgetStays(count: Counter, n: nat, tick: nat, i: nat, j: nat)
    requires n > 0 && i <= j
    ensures !ZeroBudget(count, n, tick, i).Running? ==> ZeroBudget(count, n, tick, j) == ZeroBudget(count, n, tick, i)
  {
    if i < j { ZeroBudgetStays(count, n, tick, i, j - 1); }
  }

  lemma ContinuesItself(count: Counter, log: seq<Call>)
    requires Honest(count, log)
    ensures Continues(count, log, log) && AllAnswered(log, log)
  {}

  lemma ContinuesOn(count: Counter, a: seq<Call>, b: seq<Call>, c: seq<Call>)
    requires Continues(count, a, b) && Continues(count, b, c)
    ensures Continues(count, a, c) && Honest(count, c)
    ensures AllAnswered(a, b) && AllAnswered(b, c) ==> AllAnswered(a, c)
    ensures forall error :: JustFailed(b, c, error) ==> JustFailed(a, c, error)
  {
    assert c[..|a|] == c[..|b|][..|a|];
    forall i | |a| <= i < |b| ensures c[i] == b[i] {}
  }

  lemma CutLast(log: seq<Call>, out: seq<Window>, w: Window, n: nat, budget: nat, overlap: nat)
    requires CutTo(log, out, w.start, n, budget, overlap) && w.start < w.end == n
    requires EndOk(log, w.start, n, n, budget)
    ensures Planned(log, out + [w], n, budget, overlap)
  {
    assert (out + [w])[..|out|] == out;
  }

  lemma CutStep(count: Counter, before: seq<Call>, log: seq<Call>, out: seq<Window>, w: Window, next: nat, n: nat,
                budget: nat, overlap: nat)
    requires Continues(count, before, log) && CutTo(before, out, w.start, n, budget, overlap)
    requires EndOk(log, w.start, w.end, n, budget) && w.start < w.end
    requires w.end < n ==> StartOk(log, w, next, overlap)
    ensures w.end < n ==> CutTo(log, out + [w], next, n, budget, overlap)
    ensures w.end >= n ==> Planned(log, out + [w], n, budget, overlap)
  {
    CutStillOk(count, before, log, out, w.start, n, budget, overlap);
    if w.end < n {
      CutOneMore(log, out, w, next, n, budget, overlap);
    } else {
      CutLast(log, out, w, n, budget, overlap);
    }
  }

  /** Cuts `[0, n)` into windows. The source sets no limit to its loop; `steps` is for how
      many iterations the model watches it, and `n` of them are enough wherever it advances. */
  method PlanWindows(count: Counter, n: nat, budget: nat, overlap: nat, steps: nat)
      returns (r: Progress, log: seq<Call>)
    ensures Honest(count, log)
    ensures if r.Broken? then JustFailed([], log, r.error) else AllAnswered([], log)
    ensures n == 0 ==> r == Ended([Window(0, 0)]) && log == []
    ensures n > 0 ==> log != [] && log[0] == Call(0, n, count(0, 0, n))
    ensures n > 0 && log[0].answer.Failed? ==> r == Broken(log[0].answer.error)
    ensures n > 0 && log[0].answer.Tokens? && log[0].answer.count <= budget ==> r == Ended([Window(0, n)])
    ensures n > 0 && log[0].answer.Tokens? && log[0].answer.count > budget ==>
      && (Advances(count, n, budget) && r.Ended? ==> Planned(log, r.windows, n, budget, Kept(overlap, budget)))
      && (Advances(count, n, budget) && r.Running? ==> steps < n)
      && (budget == 0 ==> r == ZeroBudget(count, n, 1, steps))
  {
    hide Planned, ZeroBudget, Advances, CutTo;
    log := [];
    if n == 0 { return Ended([Window(0, 0)]), log; }
    var answer;
    answer, log := Ask(count, log, 0, n, budget);
    ghost var first := log;
    assert first[0] == Call(0, n, answer);
    if answer.Failed? { return Broken(answer.error), log; }
    if answer.count <= budget { return Ended([Window(0, n)]), log; }
    r, log := CutAll(count, log, n, budget, Kept(overlap, budget), steps);
    ContinuesOn(count, [], first, log);
    assert log[0] == log[..|first|][0];
  }

  // ---------------------------------------------------------------- what a plan means

  lemma {:induction false} CutCovers(log: seq<Call>, out: seq<Window>, next: nat, n: nat, budget: nat, overlap: nat,
                                     p: nat)
      returns (i: nat)
    requires CutTo(log, out, next, n, budget, overlap) && p < next
    ensures i < |out| && out[i].start <= p < out[i].end
  {
    var last := out[|out| - 1];
    if p >= last.start {
      i := |out| - 1;
    } else {
      CutShorter(log, out, next, n, budget, overlap);
      i := CutCovers(log, out[..|out| - 1], last.start, n, budget, overlap, p);
    }
  }

  lemma CutShorter(log: seq<Call>, out: seq<Window>, next: nat, n: nat, budget: nat, overlap: nat)
    requires CutTo(log, out, next, n, budget, overlap) && out != []
    ensures CutTo(log, out[..|out| - 1], out[|out| - 1].start, n, budget, overlap)
  {
    var init, last := out[..|out| - 1], out[|out| - 1];
    forall i | 0 <= i < |init| ensures StartAfter(init, i, last.start) == StartAfter(out, i, next) {}
  }

  /** The windows cover the text. */
  lemma PlanCovers(log: seq<Call>, out: seq<Window>, n: nat, budget: nat, overlap: nat, p: nat) returns (i: nat)
    requires Planned(log, out, n, budget, overlap) && p < n
    ensures i < |out| && out[i].start <= p < out[i].end
  {
    var last := out[|out| - 1];
    if p >= last.start {
      i := |out| - 1;
    } else {
      i := CutCovers(log, out[..|out| - 1], last.start, n, budget, overlap, p);
    }
  }

  lemma PlanEndsOk(log: seq<Call>, out: seq<Window>, n: nat, budget: nat, overlap: nat)
    requires Planned(log, out, n, budget, overlap)
    ensures forall i :: 0 <= i < |out| ==>
      EndOk(log, out[i].start, out[i].end, n, budget) && out[i].start < out[i].end
  {
    var init := out[..|out| - 1];
    forall i | 0 <= i < |out| ensures EndOk(log, out[i].start, out[i].end, n, budget) && out[i].start < out[i].end {
      if i < |init| { assert init[i] == out[i]; }
    }
  }

  /** Starts strictly increase, with no gap, from the start of the text to its end; there are
      at most as many windows as characters. */
  lemma PlanAdvances(log: seq<Call>, out: seq<Window>, n: nat, budget: nat, overlap: nat)
    requires Planned(log, out, n, budget, overlap)
    ensures |out| <= n && out[0].start == 0 && out[|out| - 1].end == n
    ensures forall i :: 0 <= i < |out| - 1 ==> out[i].start < out[i + 1].start <= out[i].end
  {
    var init, last := out[..|out| - 1], out[|out| - 1];
    forall i | 0 <= i < |out| - 1 ensures out[i].start < out[i + 1].start <= out[i].end {
      assert StartOk(log, init[i], StartAfter(init, i, last.start), overlap);
    }
  }

  /** Every window was seen to fit, and one character more not to, unless the end is that of
      the text or the cap of a search; or it is one character, and was seen not to fit (at
      budget 0: not even the empty slice was). */
  lemma PlanIsTight(log: seq<Call>, out: seq<Window>, n: nat, budget: nat, overlap: nat)
    requires Planned(log, out, n, budget, overlap)
    ensures forall i :: 0 <= i < |out| ==>
      out[i].start < out[i].end <= n
      && (|| (&& Fits(log, out[i].start, out[i].end, budget)
              && (|| out[i].end == n || out[i].end == out[i].start + budget * MAX_CHARS_PER_TOKEN
                  || Exceeds(log, out[i].start, out[i].end + 1, budget)))
          || (out[i].end == out[i].start + 1
              && Exceeds(log, out[i].start, if budget == 0 then out[i].start else out[i].end, budget)))
  {
    PlanEndsOk(log, out, n, budget, overlap);
  }

  // ---------------------------------------------------------------- a steady counter

  /** The counter charges a slice the same whenever it is asked. */
  ghost predicate Steady(count: Counter, size: (nat, nat) -> nat)
  {
    forall tick, s, e :: count(tick, s, e) == Tokens(size(s, e))
  }

  /** A slice costs no more than any slice it lies in. */
  ghost predicate Monotone(size: (nat, nat) -> nat)
  {
    forall s, e, s', e' :: s <= s' <= e' <= e ==> size(s', e') <= size(s, e)
  }

  lemma SteadyEvidence(count: Counter, size: (nat, nat) -> nat, log: seq<Call>, s: nat, e: nat, limit: nat)
    requires Honest(count, log) && Steady(count, size)
    ensures Fits(log, s, e, limit) ==> size(s, e) <= limit
    ensures Exceeds(log, s, e, limit) ==> size(s, e) > limit
  {}

  lemma Grows(size: (nat, nat) -> nat, s: nat, e: nat, s': nat, e': nat)
    requires Monotone(size)
    ensures s <= s' <= e' <= e ==> size(s', e') <= size(s, e)
  {}

  /** Under a steady monotone counter each end is the largest that fits below the cap. */
  lemma EndIsLargest(count: Counter, size: (nat, nat) -> nat, log: seq<Call>, start: nat, end: nat, n: nat, budget: nat,
                     e: nat)
    requires Honest(count, log) && Steady(count, size) && Monotone(size)
    requires EndOk(log, start, end, n, budget) && start < e <= Cap(start, n, budget) && size(start, e) <= budget
    ensures e <= end && size(start, end) <= budget
  {
    SteadyEvidence(count, size, log, start, end, budget);
    SteadyEvidence(count, size, log, start, end + 1, budget);
    Grows(size, start, e, start, end + 1);
    Grows(size, start, e, start, start + 1);
  }

  /** And each next start is the smallest whose repeated slice is within the overlap. */
  lemma StartIsSmallest(count: Counter, size: (nat, nat) -> nat, log: seq<Call>, w: Window, next: nat, overlap: nat,
                        s: nat)
    requires Honest(count, log) && Steady(count, size) && Monotone(size) && overlap > 0
    requires StartOk(log, w, next, overlap) && w.start < s < w.end && size(s, w.end) <= overlap
    ensures next <= s && (next < w.end ==> size(next, w.end) <= overlap)
  {
    SteadyEvidence(count, size, log, next, w.end, overlap);
    SteadyEvidence(count, size, log, next - 1, w.end, overlap);
    Grows(size, s, w.end, next - 1, w.end);
  }

  // ---------------------------------------------------------------- budget 0

  /** The counter answers a slice the same whenever it is asked, be it with an error. */
  ghost predicate Repeats(count: Counter)
  {
    forall tick, s, e :: count(tick, s, e) == count(0, s, e)
  }

  /** The loop can pass, or stop at, every place: before any free empty slice one fails. */
  ghost predicate NoStall(count: Counter, n: nat)
  {
    forall s :: 0 <= s < n && count(0, s, s) == Tokens(0) ==> FailsBefore(count, s)
  }

  ghost predicate FailsBefore(count: Counter, s: nat)
  {
    exists earlier :: 0 <= earlier < s && count(0, earlier, earlier).Failed?
  }

  lemma {:induction false} FreeSliceStalls(count: Counter, n: nat, tick: nat, s: nat, i: nat)
    requires Repeats(count) && s < n && count(0, s, s) == Tokens(0) && !FailsBefore(count, s)
    ensures ZeroBudget(count, n, tick, i).Running? && ZeroBudget(count, n, tick, i).start <= s
  {
    if i > 0 {
      FreeSliceStalls(count, n, tick, s, i - 1);
      var at := ZeroBudget(count, n, tick, i - 1).start;
      assert count(tick + i - 1, at, at) == count(0, at, at);
    }
  }

  lemma {:induction false} NoStallAdvances(count: Counter, n: nat, tick: nat, i: nat)
    requires Repeats(count) && n > 0 && NoStall(count, n)
    ensures ZeroBudget(count, n, tick, i).Running? ==>
      ZeroBudget(count, n, tick, i).start == i && !FailsBefore(count, i)
  {
    if i > 0 {
      NoStallAdvances(count, n, tick, i - 1);
      var before := ZeroBudget(count, n, tick, i - 1);
      if before.Running? {
        assert count(tick + i - 1, i - 1, i - 1) == count(0, i - 1, i - 1);
      }
    }
  }

  /** At budget 0 the loop ends, with a plan or with an error, exactly when no free empty
      slice stands before every failing one. */
  lemma ZeroBudgetEndsIff(count: Counter, n: nat, tick: nat)
    requires Repeats(count) && n > 0
    ensures (exists i :: !ZeroBudget(count, n, tick, i).Running?) <==> NoStall(count, n)
  {
    if NoStall(count, n) {
      NoStallAdvances(count, n, tick, n);
      assert !ZeroBudget(count, n, tick, n).Running?;
    } else {
      var s :| 0 <= s < n && count(0, s, s) == Tokens(0) && !FailsBefore(count, s);
      forall i ensures ZeroBudget(count, n, tick, i).Running? {
        FreeSliceStalls(count, n, tick, s, i);
      }
    }
  }
}
