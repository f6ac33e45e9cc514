/** Pending jobs bucketed by token length (`LengthBucketQueue`). */
module BucketQueue {
  import opened Arithmetic
  import opened Options

  /** One caller's text. `id` stands for the caller's reply channel. */
  datatype Job = Job(id: nat, text: string, tokenLen: nat, deadline: Option<int>)

  // ---------------------------------------------------------------- ceilings

  ghost predicate Sorted(xs: seq<nat>)
  {
    forall i, j :: 0 <= i < j < |xs| ==> xs[i] <= xs[j]
  }

  function Insert(xs: seq<nat>, x: nat): seq<nat>
  {
    if xs == [] || x <= xs[0] then [x] + xs else [xs[0]] + Insert(xs[1..], x)
  }

  function Sort(xs: seq<nat>): (r: seq<nat>)
    ensures |r| == |xs|
  {
    if xs == [] then []
    else
      InsertAdds(Sort(xs[1..]), xs[0]);
      Insert(Sort(xs[1..]), xs[0])
  }

  lemma {:induction false} InsertAdds(xs: seq<nat>, x: nat)
    ensures |Insert(xs, x)| == |xs| + 1
    ensures multiset(Insert(xs, x)) == multiset(xs) + multiset{x}
  {
    if xs != [] && x > xs[0] {
      InsertAdds(xs[1..], x);
      assert xs == [xs[0]] + xs[1..];
    }
  }

  lemma {:induction false} InsertSorts(xs: seq<nat>, x: nat)
    requires Sorted(xs)
    ensures Sorted(Insert(xs, x))
    ensures Insert(xs, x)[0] == x || (xs != [] && Insert(xs, x)[0] == xs[0])
  {
    if xs != [] && x > xs[0] {
      InsertSorts(xs[1..], x);
      var r := Insert(xs[1..], x);
      forall i | 0 <= i < |r| ensures xs[0] <= r[i] {
        assert xs[0] <= r[0];
        if i > 0 { assert r[0] <= r[i]; }
      }
    } else if xs != [] {
      forall i | 0 <= i < |xs| ensures x <= xs[i] {
        if i > 0 { assert xs[0] <= xs[i]; }
      }
    }
  }

  lemma {:induction false} SortSorts(xs: seq<nat>)
    ensures Sorted(Sort(xs)) && multiset(Sort(xs)) == multiset(xs)
  {
    if xs != [] {
      SortSorts(xs[1..]);
      InsertAdds(Sort(xs[1..]), xs[0]);
      InsertSorts(Sort(xs[1..]), xs[0]);
      assert xs == [xs[0]] + xs[1..];
    }
  }

  /** The first ceiling that holds `len`, else the last bucket. */
  function BucketFor(ceilings: seq<nat>, len: nat): (b: nat)
    requires ceilings != [] && Sorted(ceilings)
    ensures b < |ceilings|
    ensures forall i :: 0 <= i < b ==> ceilings[i] < len
    ensures len <= ceilings[b] || b == |ceilings| - 1
  {
    if len <= ceilings[0] || |ceilings| == 1 then 0 else 1 + BucketFor(ceilings[1..], len)
  }

  // ---------------------------------------------------------------- batches

  function Tokens(jobs: seq<Job>): nat
  {
    if jobs == [] then 0 else Tokens(jobs[..|jobs| - 1]) + jobs[|jobs| - 1].tokenLen
  }

  /** `n` jobs are one flush of a non-empty bucket: its longest prefix under the cap, or its
      first job alone when that job is over the cap by itself. */
  ghost predicate IsDrain(bucket: seq<Job>, cap: nat, n: nat)
  {
    && 1 <= n <= |bucket|
    && (n == 1 || Tokens(bucket[..n]) <= cap)
    && (n < |bucket| ==> Tokens(bucket[..n + 1]) > cap)
  }

  lemma {:induction false} TokensMonotone(jobs: seq<Job>, m: nat, n: nat)
    requires m <= n <= |jobs|
    ensures Tokens(jobs[..m]) <= Tokens(jobs[..n])
  {
    if m < n {
      TokensMonotone(jobs, m, n - 1);
      assert jobs[..n][..n - 1] == jobs[..n - 1];
    }
  }

  /** A bucket and a cap leave no choice of drain, and no longer prefix would do. */
  lemma DrainIsUnique(bucket: seq<Job>, cap: nat, n: nat, m: nat)
    requires IsDrain(bucket, cap, n) && 1 <= m <= |bucket|
    ensures IsDrain(bucket, cap, m) ==> m == n
    ensures m > n ==> Tokens(bucket[..m]) > cap
  {
    if m > n { TokensMonotone(bucket, n + 1, m); }
    if m < n { TokensMonotone(bucket, m + 1, n); }
  }

  lemma {:induction false} TokensConcat(a: seq<Job>, b: seq<Job>)
    ensures Tokens(a + b) == Tokens(a) + Tokens(b)
  {
    if b == [] {
      assert a + b == a;
    } else {
      TokensConcat(a, b[..|b| - 1]);
      assert (a + b)[..|a + b| - 1] == a + b[..|b| - 1];
    }
  }

  function Concat(buckets: seq<seq<Job>>): seq<Job>
  {
    if buckets == [] then [] else buckets[0] + Concat(buckets[1..])
  }

  function Filter(jobs: seq<Job>, ceilings: seq<nat>, b: nat): seq<Job>
    requires ceilings != [] && Sorted(ceilings)
  {
    if jobs == [] then []
    else
      var last := jobs[|jobs| - 1];
      Filter(jobs[..|jobs| - 1], ceilings, b) + if BucketFor(ceilings, last.tokenLen) == b then [last] else []
  }

  lemma {:induction false} ConcatAt(buckets: seq<seq<Job>>, b: nat)
    requires b < |buckets|
    ensures Concat(buckets) == Concat(buckets[..b]) + buckets[b] + Concat(buckets[b + 1..])
  {
    if b > 0 {
      ConcatAt(buckets[1..], b - 1);
      assert buckets[..b][1..] == buckets[1..][..b - 1];
      assert buckets[1..][b..] == buckets[b + 1..];
    }
  }

  lemma ConcatUpdate(buckets: seq<seq<Job>>, b: nat, bucket: seq<Job>)
    requires b < |buckets|
    ensures Concat(buckets) == Concat(buckets[..b]) + buckets[b] + Concat(buckets[b + 1..])
    ensures Concat(buckets[b := bucket]) == Concat(buckets[..b]) + bucket + Concat(buckets[b + 1..])
  {
    ConcatAt(buckets, b);
    ConcatAt(buckets[b := bucket], b);
    assert buckets[b := bucket][..b] == buckets[..b] && buckets[b := bucket][b + 1..] == buckets[b + 1..];
  }

  lemma {:induction false} ConcatEmpty(buckets: seq<seq<Job>>)
    ensures Concat(buckets) == [] <==> forall i :: 0 <= i < |buckets| ==> buckets[i] == []
  {
    if buckets != [] {
      ConcatEmpty(buckets[1..]);
      assert buckets == [buckets[0]] + buckets[1..];
    }
  }

  // ---------------------------------------------------------------- push and drain, as functions

  function PushInto(ceilings: seq<nat>, pending: seq<seq<Job>>, job: Job): seq<seq<Job>>
    requires ceilings != [] && Sorted(ceilings) && |pending| == |ceilings|
  {
    var b := BucketFor(ceilings, job.tokenLen);
    pending[b := pending[b] + [job]]
  }

  function FirstNonEmpty(pending: seq<seq<Job>>): (b: nat)
    ensures b <= |pending| && forall a :: 0 <= a < b ==> pending[a] == []
    ensures b < |pending| ==> pending[b] != []
  {
    if pending == [] || pending[0] != [] then 0 else 1 + FirstNonEmpty(pending[1..])
  }

  /** How far the scan of a bucket goes from its first `n` jobs on. */
  function ScanFrom(bucket: seq<Job>, cap: nat, n: nat): (take: nat)
    requires n <= |bucket|
    ensures n <= take <= |bucket|
    decreases |bucket| - n
  {
    if n < |bucket| && !(n > 0 && Tokens(bucket[..n]) + bucket[n].tokenLen > cap)
    then ScanFrom(bucket, cap, n + 1) else n
  }

  function Drained(pending: seq<seq<Job>>, cap: nat): Option<(seq<Job>, seq<seq<Job>>)>
  {
    var b := FirstNonEmpty(pending);
    if b == |pending| then None
    else
      var take := ScanFrom(pending[b], cap, 0);
      Some((pending[b][..take], pending[b := pending[b][take..]]))
  }

  ghost predicate AllFor(ceilings: seq<nat>, jobs: seq<Job>, b: nat)
    requires ceilings != [] && Sorted(ceilings)
  {
    forall i :: 0 <= i < |jobs| ==> BucketFor(ceilings, jobs[i].tokenLen) == b
  }

  ghost predicate InBuckets(ceilings: seq<nat>, pending: seq<seq<Job>>)
  {
    && ceilings != [] && Sorted(ceilings) && |pending| == |ceilings|
    && forall b :: 0 <= b < |pending| ==> AllFor(ceilings, pending[b], b)
  }

  lemma {:induction false} ScanIsDrain(bucket: seq<Job>, cap: nat, n: nat)
    requires n <= |bucket| && bucket != []
    requires n <= 1 || Tokens(bucket[..n]) <= cap
    ensures IsDrain(bucket, cap, ScanFrom(bucket, cap, n))
    decreases |bucket| - n
  {
    if n < |bucket| {
      assert bucket[..n + 1][..n] == bucket[..n];
      if !(n > 0 && Tokens(bucket[..n]) + bucket[n].tokenLen > cap) {
        ScanIsDrain(bucket, cap, n + 1);
      }
    }
  }

  /** A flush to the backend: non-empty, within the cap or a single job, and all of one
      length class. */
  ghost predicate GoodBatch(ceilings: seq<nat>, cap: nat, batch: seq<Job>)
    requires ceilings != [] && Sorted(ceilings)
  {
    && batch != []
    && (|batch| == 1 || Tokens(batch) <= cap)
    && exists b :: 0 <= b < |ceilings| && AllFor(ceilings, batch, b)
  }

  /** One drain splits the pending jobs at the end of the batch. */
  lemma DrainSplits(pending: seq<seq<Job>>, b: nat, take: nat)
    requires b < |pending| && take <= |pending[b]|
    requires forall a :: 0 <= a < b ==> pending[a] == []
    ensures var rest := pending[b := pending[b][take..]];
            && Concat(pending) == pending[b][..take] + Concat(rest)
            && Tokens(Concat(pending)) == Tokens(pending[b][..take]) + Tokens(Concat(rest))
  {
    var batch, left, tail := pending[b][..take], pending[b][take..], Concat(pending[b + 1..]);
    ConcatUpdate(pending, b, left);
    ConcatEmpty(pending[..b]);
    assert pending[b] == batch + left;
    assert Concat(pending) == batch + (left + tail);
    assert Concat(pending[b := left]) == left + tail;
    TokensConcat(batch, left + tail);
  }

  /** What one drain takes: the longest batch the cap allows from the head of the first
      bucket that has work, and nothing else moves. */
  lemma DrainedMeaning(pending: seq<seq<Job>>, cap: nat)
    ensures Drained(pending, cap) == None <==> Concat(pending) == []
    ensures Drained(pending, cap).Some? ==>
              var (batch, rest) := Drained(pending, cap).value;
              var b := FirstNonEmpty(pending);
              && b < |pending| && IsDrain(pending[b], cap, |batch|)
              && batch == pending[b][..|batch|]
              && rest == pending[b := pending[b][|batch|..]]
              && Concat(pending) == batch + Concat(rest)
              && Tokens(Concat(pending)) == Tokens(batch) + Tokens(Concat(rest))
  {
    ConcatEmpty(pending);
    var b := FirstNonEmpty(pending);
    if b < |pending| {
      ScanIsDrain(pending[b], cap, 0);
      DrainSplits(pending, b, ScanFrom(pending[b], cap, 0));
    }
  }

  /** A drain takes a whole bucket exactly when the bucket fits under the cap or is one job. */
  lemma DrainsWholeIff(bucket: seq<Job>, cap: nat, n: nat)
    requires IsDrain(bucket, cap, n)
    ensures n == |bucket| <==> |bucket| == 1 || Tokens(bucket) <= cap
  {
    assert bucket[..|bucket|] == bucket;
    if n < |bucket| { TokensMonotone(bucket, n + 1, |bucket|); }
  }

  /** The next drain moves on to another bucket exactly when this one empties its bucket: when
      the bucket fits under the cap or is one job. Otherwise it serves the same bucket again,
      whoever waits in the others. */
  lemma DrainMovesOnIff(pending: seq<seq<Job>>, cap: nat)
    requires Drained(pending, cap).Some?
    ensures var b := FirstNonEmpty(pending);
            b < |pending| && (FirstNonEmpty(Drained(pending, cap).value.1) != b
                              <==> |pending[b]| == 1 || Tokens(pending[b]) <= cap)
  {
    DrainedMeaning(pending, cap);
    var b := FirstNonEmpty(pending);
    var (batch, rest) := Drained(pending, cap).value;
    DrainsWholeIff(pending[b], cap, |batch|);
    FirstStays(pending, rest, b);
  }

  lemma FirstStays(pending: seq<seq<Job>>, rest: seq<seq<Job>>, b: nat)
    requires b < |pending| == |rest| && (forall a :: 0 <= a < b ==> pending[a] == rest[a] == [])
    ensures FirstNonEmpty(rest) == b <==> rest[b] != []
  {}

  /** So a bucket can be served twice running while another waits. */
  lemma SameBucketTwice(a: Job, c: Job, other: Job, cap: nat)
    requires a.tokenLen + c.tokenLen > cap
    ensures Drained([[a, c], [other]], cap) == Some(([a], [[c], [other]]))
    ensures Drained([[c], [other]], cap) == Some(([c], [[], [other]]))
  {
    assert Tokens([a]) == a.tokenLen by { assert [a][..0] == []; }
    assert [a, c][..1] == [a] && [a, c][1..] == [c] && [c][..1] == [c] && [c][1..] == [];
    assert ScanFrom([a, c], cap, 1) == 1 && ScanFrom([a, c], cap, 0) == 1;
    assert ScanFrom([c], cap, 1) == 1 && ScanFrom([c], cap, 0) == 1;
    assert [[a, c], [other]][0 := [c]] == [[c], [other]] && [[c], [other]][0 := []] == [[], [other]];
  }

  lemma DrainKeepsBuckets(ceilings: seq<nat>, pending: seq<seq<Job>>, cap: nat)
    requires InBuckets(ceilings, pending) && Drained(pending, cap).Some?
    ensures var (batch, rest) := Drained(pending, cap).value;
            InBuckets(ceilings, rest) && GoodBatch(ceilings, cap, batch)
  {
    DrainedMeaning(pending, cap);
    var (batch, rest) := Drained(pending, cap).value;
    var b := FirstNonEmpty(pending);
    assert AllFor(ceilings, pending[b], b);
    assert AllFor(ceilings, rest[b], b);
    assert AllFor(ceilings, batch, b);
    forall a | 0 <= a < |rest| ensures AllFor(ceilings, rest[a], a) {
      if a != b { assert rest[a] == pending[a]; }
    }
  }

  lemma PushKeepsBuckets(ceilings: seq<nat>, pending: seq<seq<Job>>, job: Job)
    requires InBuckets(ceilings, pending)
    ensures InBuckets(ceilings, PushInto(ceilings, pending, job))
  {
    var b := BucketFor(ceilings, job.tokenLen);
    var pushed := PushInto(ceilings, pending, job);
    assert AllFor(ceilings, pending[b], b);
    forall a | 0 <= a < |pushed| ensures AllFor(ceilings, pushed[a], a) {
      if a != b { assert pushed[a] == pending[a]; }
    }
  }

  lemma PushAdds(ceilings: seq<nat>, pending: seq<seq<Job>>, job: Job)
    requires ceilings != [] && Sorted(ceilings) && |pending| == |ceilings|
    ensures Tokens(Concat(PushInto(ceilings, pending, job))) == Tokens(Concat(pending)) + job.tokenLen
    ensures multiset(Concat(PushInto(ceilings, pending, job))) == multiset(Concat(pending)) + multiset{job}
  {
    var b := BucketFor(ceilings, job.tokenLen);
    ConcatUpdate(pending, b, pending[b] + [job]);
    PushTokens(Concat(pending[..b]), pending[b], job, Concat(pending[b + 1..]));
  }

  // ---------------------------------------------------------------- whole queues

  function PushAll(ceilings: seq<nat>, pending: seq<seq<Job>>, jobs: seq<Job>): (r: seq<seq<Job>>)
    requires ceilings != [] && Sorted(ceilings) && |pending| == |ceilings|
    ensures |r| == |ceilings|
  {
    if jobs == [] then pending
    else PushInto(ceilings, PushAll(ceilings, pending, jobs[..|jobs| - 1]), jobs[|jobs| - 1])
  }

  function NoJobs(n: nat): seq<seq<Job>>
  {
    seq(n, _ => [])
  }

  /** Each bucket holds the jobs pushed for it, in the order they were pushed, and together
      the buckets hold each pushed job exactly once. */
  lemma {:induction false} PushedByBucket(ceilings: seq<nat>, jobs: seq<Job>)
    requires ceilings != [] && Sorted(ceilings)
    ensures var pending := PushAll(ceilings, NoJobs(|ceilings|), jobs);
            && InBuckets(ceilings, pending)
            && (forall b :: 0 <= b < |pending| ==> pending[b] == Filter(jobs, ceilings, b))
  {
    if jobs != [] {
      PushedByBucket(ceilings, jobs[..|jobs| - 1]);
      PushKeepsBuckets(ceilings, PushAll(ceilings, NoJobs(|ceilings|), jobs[..|jobs| - 1]), jobs[|jobs| - 1]);
    }
  }

  lemma {:induction false} PushAllAdds(ceilings: seq<nat>, pending: seq<seq<Job>>, jobs: seq<Job>)
    requires ceilings != [] && Sorted(ceilings) && |pending| == |ceilings|
    ensures var pushed := Concat(PushAll(ceilings, pending, jobs));
            && multiset(pushed) == multiset(Concat(pending)) + multiset(jobs)
            && Tokens(pushed) == Tokens(Concat(pending)) + Tokens(jobs)
  {
    if jobs != [] {
      var init, last := jobs[..|jobs| - 1], jobs[|jobs| - 1];
      PushAllAdds(ceilings, pending, init);
      PushAdds(ceilings, PushAll(ceilings, pending, init), last);
      SplitLast(jobs);
    }
  }

  lemma SplitLast(jobs: seq<Job>)
    requires jobs != []
    ensures multiset(jobs) == multiset(jobs[..|jobs| - 1]) + multiset{jobs[|jobs| - 1]}
    ensures Tokens(jobs) == Tokens(jobs[..|jobs| - 1]) + jobs[|jobs| - 1].tokenLen
  {
    assert jobs == jobs[..|jobs| - 1] + [jobs[|jobs| - 1]];
  }

  /** All the batches of a flush, in order. */
  function Flushed(pending: seq<seq<Job>>, cap: nat): seq<seq<Job>>
    decreases |Concat(pending)|
  {
    match Drained(pending, cap)
    case None => []
    case Some((batch, rest)) =>
      if |Concat(rest)| < |Concat(pending)| then [batch] + Flushed(rest, cap) else []
  }

  /** A flush serves the buckets in order and leaves nothing: its batches, laid end to end,
      are the buckets laid end to end. */
  lemma {:induction false} FlushedIsPending(ceilings: seq<nat>, pending: seq<seq<Job>>, cap: nat)
    requires InBuckets(ceilings, pending)
    ensures Concat(Flushed(pending, cap)) == Concat(pending)
    ensures forall i :: 0 <= i < |Flushed(pending, cap)| ==> GoodBatch(ceilings, cap, Flushed(pending, cap)[i])
    decreases |Concat(pending)|
  {
    DrainedMeaning(pending, cap);
    if Drained(pending, cap).Some? {
      DrainKeepsBuckets(ceilings, pending, cap);
      FlushedIsPending(ceilings, Drained(pending, cap).value.1, cap);
    }
  }

  lemma NothingPushed(ceilings: seq<nat>, jobs: seq<Job>)
    requires ceilings != [] && Sorted(ceilings)
    ensures multiset(Concat(PushAll(ceilings, NoJobs(|ceilings|), jobs))) == multiset(jobs)
  {
    PushAllAdds(ceilings, NoJobs(|ceilings|), jobs);
    ConcatEmpty(NoJobs(|ceilings|));
  }

  /** Push then flush: a permutation of the pushed jobs, grouped by bucket, each bucket in
      arrival order. */
  lemma PushThenFlush(ceilings: seq<nat>, jobs: seq<Job>, cap: nat)
    requires ceilings != [] && Sorted(ceilings)
    ensures var batches := Flushed(PushAll(ceilings, NoJobs(|ceilings|), jobs), cap);
            && multiset(Concat(batches)) == multiset(jobs)
            && Concat(batches) == Concat(seq(|ceilings|, b requires 0 <= b < |ceilings| => Filter(jobs, ceilings, b)))
  {
    var pending := PushAll(ceilings, NoJobs(|ceilings|), jobs);
    PushedByBucket(ceilings, jobs);
    NothingPushed(ceilings, jobs);
    FlushedIsPending(ceilings, pending, cap);
    assert pending == seq(|ceilings|, b requires 0 <= b < |ceilings| => Filter(jobs, ceilings, b));
  }

  // ---------------------------------------------------------------- the queue

  class LengthBucketQueue {
    var buckets: seq<nat>
    var pending: seq<seq<Job>>
    var totalTokens: nat

    /** The running total is the sum of what is pending, and every job is in its bucket. */
    ghost predicate Valid()
      reads this
    {
      InBuckets(buckets, pending) && totalTokens == Tokens(Concat(pending))
    }

    constructor (ceilings: seq<nat>)
      ensures Valid() && pending == NoJobs(|buckets|)
      ensures multiset(buckets) == if ceilings == [] then multiset{USIZE_MAX} else multiset(ceilings)
    {
      var cs := if ceilings == [] then [USIZE_MAX] else ceilings;
      SortSorts(cs);
      buckets := Sort(cs);
      pending := NoJobs(|cs|);
      totalTokens := 0;
      new;
      ConcatEmpty(pending);
    }

    method Push(job: Job)
      requires Valid()
      modifies this
      ensures Valid() && buckets == old(buckets)
      ensures totalTokens == old(totalTokens) + job.tokenLen
      ensures pending == PushInto(buckets, old(pending), job)
    {
      PushKeepsBuckets(buckets, pending, job);
      PushAdds(buckets, pending, job);
      var b := BucketFor(buckets, job.tokenLen);
      totalTokens := totalTokens + job.tokenLen;
      pending := pending[b := pending[b] + [job]];
    }

    /** One batch, from the first bucket that has work. */
    method DrainOne(maxBatchTokens: nat) returns (batch: Option<seq<Job>>)
      requires Valid()
      modifies this
      ensures Valid() && buckets == old(buckets)
      ensures match Drained(old(pending), maxBatchTokens)
              case None => batch == None && pending == old(pending) && totalTokens == old(totalTokens)
              case Some((jobs, rest)) =>
                batch == Some(jobs) && pending == rest && totalTokens == old(totalTokens) - Tokens(jobs)
    {
      hide Concat, Tokens, InBuckets, IsDrain, GoodBatch, FirstNonEmpty, ScanFrom;
      DrainedMeaning(pending, maxBatchTokens);
      if Drained(pending, maxBatchTokens).Some? {
        DrainKeepsBuckets(buckets, pending, maxBatchTokens);
      }
      var b := 0;
      while b < |pending| && pending[b] == []
        invariant b <= |pending|
        invariant b <= FirstNonEmpty(pending)
      {
        b := b + 1;
      }
      if b == |pending| {
        return None;
      }
      var bucket := pending[b];
      var take, tokens := ScanBucket(bucket, maxBatchTokens);
      totalTokens := totalTokens - tokens;
      pending := pending[b := bucket[take..]];
      batch := Some(bucket[..take]);
    }

    /** The first pass of a drain: how many jobs fit under the cap. */
    static method ScanBucket(bucket: seq<Job>, cap: nat) returns (take: nat, tokens: nat)
      requires bucket != []
      ensures take == ScanFrom(bucket, cap, 0) && tokens == Tokens(bucket[..take])
    {
      take, tokens := 0, 0;
      while take < |bucket| && !(take > 0 && tokens + bucket[take].tokenLen > cap)
        invariant take <= |bucket| && tokens == Tokens(bucket[..take])
        invariant ScanFrom(bucket, cap, take) == ScanFrom(bucket, cap, 0)
      {
        assert bucket[..take + 1][..take] == bucket[..take];
        tokens := tokens + bucket[take].tokenLen;
        take := take + 1;
      }
    }

    /** The scheduler's flush: drain until nothing is pending. */
    method Flush(maxBatchTokens: nat) returns (batches: seq<seq<Job>>)
      requires Valid()
      modifies this
      ensures Valid() && buckets == old(buckets)
      ensures Concat(pending) == [] && totalTokens == 0
      ensures batches == Flushed(old(pending), maxBatchTokens)
    {
      batches := [];
      while true
        invariant Valid() && buckets == old(buckets)
        invariant batches + Flushed(pending, maxBatchTokens) == Flushed(old(pending), maxBatchTokens)
        decreases |Concat(pending)|
      {
        DrainedMeaning(pending, maxBatchTokens);
        var batch := DrainOne(maxBatchTokens);
        if batch == None {
          return;
        }
        batches := batches + [batch.value];
      }
    }
  }

  lemma PushTokens(a: seq<Job>, bucket: seq<Job>, job: Job, c: seq<Job>)
    ensures Tokens(a + (bucket + [job]) + c) == Tokens(a + bucket + c) + job.tokenLen
  {
    TokensConcat(a + (bucket + [job]), c);
    TokensConcat(a + bucket, c);
    assert a + (bucket + [job]) == (a + bucket) + [job];
  }
}
