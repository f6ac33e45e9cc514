/** Greedy span decoding (`decode_spans`): the scores above the threshold, strongest first,
    each kept unless it overlaps one already kept. */
module Spans {
  import opened Arithmetic
  import opened Options

  /** A labelled, scored `[start, end)` token range. */
  datatype Span = Span(start: nat, end: nat, labelId: nat, score: real)

  datatype Shape = Shape(maxSpans: nat, spanWidth: nat, numLabels: nat)

  datatype Outcome<+T> = Ok(value: T) | WrongShape

  // ---------------------------------------------------------------- the tensor

  /** A product of machine words, unless it overflows. */
  function CheckedMul(a: nat, b: nat): Option<nat>
  {
    if Times(a, b) <= USIZE_MAX then Some(Times(a, b)) else None
  }

  function Expected(shape: Shape): Option<nat>
  {
    match CheckedMul(shape.maxSpans, shape.spanWidth)
    case None => None
    case Some(n) => CheckedMul(n, shape.numLabels)
  }

  function Size(shape: Shape): nat
  {
    Times(Times(shape.maxSpans, shape.spanWidth), shape.numLabels)
  }

  function Index(shape: Shape, s: nat, w: nat, l: nat): nat
  {
    Times(Times(s, shape.spanWidth) + w, shape.numLabels) + l
  }

  lemma IndexFits(shape: Shape, s: nat, w: nat, l: nat)
    requires s < shape.maxSpans && w < shape.spanWidth && l < shape.numLabels
    ensures Index(shape, s, w, l) < Size(shape)
  {
    TimesGrows(s, shape.maxSpans, shape.spanWidth, w);
    TimesGrows(Times(s, shape.spanWidth) + w, Times(shape.maxSpans, shape.spanWidth), shape.numLabels, l);
  }

  /** The tensor scores this span at or above the threshold. */
  ghost predicate IsCandidate(scores: seq<real>, shape: Shape, threshold: real, c: Span)
  {
    && c.start < c.end <= c.start + shape.spanWidth && c.start < shape.maxSpans && c.labelId < shape.numLabels
    && var i := Index(shape, c.start, c.end - c.start - 1, c.labelId);
    i < |scores| && scores[i] == c.score && c.score >= threshold
  }

  /** The tensor is read row by row: start first, then width, then label. */
  lemma CandidateIff(scores: seq<real>, shape: Shape, threshold: real, c: Span)
    ensures IsCandidate(scores, shape, threshold, c) <==>
            && c.start < c.end <= c.start + shape.spanWidth && c.start < shape.maxSpans && c.labelId < shape.numLabels
            && var i := (c.start * shape.spanWidth + (c.end - c.start - 1)) * shape.numLabels + c.labelId;
               0 <= i < |scores| && scores[i] == c.score >= threshold
  {
    if c.start < c.end {
      var row := Times(c.start, shape.spanWidth) + (c.end - c.start - 1);
      TimesIsProduct(c.start, shape.spanWidth);
      TimesIsProduct(row, shape.numLabels);
      assert Index(shape, c.start, c.end - c.start - 1, c.labelId)
          == (c.start * shape.spanWidth + (c.end - c.start - 1)) * shape.numLabels + c.labelId;
    }
  }

  // ---------------------------------------------------------------- orders

  predicate Overlap(a: Span, b: Span)
  {
    b.start < a.end && a.start < b.end
  }

  predicate Covers(a: Span, token: nat)
  {
    a.start <= token < a.end
  }

  /** Two spans overlap exactly when some token is in both. */
  lemma OverlapIff(a: Span, b: Span)
    requires a.start < a.end && b.start < b.end
    ensures Overlap(a, b) <==> exists token: nat :: Covers(a, token) && Covers(b, token)
  {
    var token := Max(a.start, b.start);
    assert Overlap(a, b) ==> Covers(a, token) && Covers(b, token);
  }

  /** The order the tensor is read in. */
  predicate ReadBefore(a: Span, b: Span)
  {
    a.start < b.start || (a.start == b.start && (a.end < b.end || (a.end == b.end && a.labelId < b.labelId)))
  }

  /** The comparison of the first sort: score descending, then start, then end. */
  predicate Less(a: Span, b: Span)
  {
    a.score > b.score || (a.score == b.score && (a.start < b.start || (a.start == b.start && a.end < b.end)))
  }

  /** What the sort, being stable, orders by: among equals, the smaller label first. */
  predicate Outranks(a: Span, b: Span)
  {
    || a.score > b.score
    || (a.score == b.score &&
        (|| a.start < b.start
         || (a.start == b.start && (a.end < b.end || (a.end == b.end && a.labelId < b.labelId)))))
  }

  lemma OutranksIsStrictOrder(a: Span, b: Span, c: Span)
    ensures !(Outranks(a, b) && Outranks(b, a)) && (a == b || Outranks(a, b) || Outranks(b, a))
    ensures Outranks(a, b) && Outranks(b, c) ==> Outranks(a, c)
  {}

  ghost predicate ReadInOrder(spans: seq<Span>)
  {
    forall i, j :: 0 <= i < j < |spans| ==> ReadBefore(spans[i], spans[j])
  }

  /** Strictly by rank; so no span occurs twice. */
  ghost predicate Ranked(spans: seq<Span>)
  {
    forall i, j :: 0 <= i < j < |spans| ==> Outranks(spans[i], spans[j])
  }

  /** Each span ends before the next starts. */
  ghost predicate InOrder(spans: seq<Span>)
  {
    forall i, j :: 0 <= i < j < |spans| ==> spans[i].end <= spans[j].start
  }

  // ---------------------------------------------------------------- the stable sorts

  /** Puts a later element behind all that it is not less than. */
  function Insert(sorted: seq<Span>, x: Span): seq<Span>
  {
    if sorted == [] || !Less(x, sorted[|sorted| - 1]) then sorted + [x]
    else Insert(sorted[..|sorted| - 1], x) + [sorted[|sorted| - 1]]
  }

  function SortByRank(spans: seq<Span>): seq<Span>
  {
    if spans == [] then [] else Insert(SortByRank(spans[..|spans| - 1]), spans[|spans| - 1])
  }

  lemma {:induction false} InsertHas(sorted: seq<Span>, x: Span, y: Span)
    ensures y in Insert(sorted, x) <==> y in sorted || y == x
  {
    if sorted != [] && Less(x, sorted[|sorted| - 1]) {
      InsertHas(sorted[..|sorted| - 1], x, y);
      assert sorted == sorted[..|sorted| - 1] + [sorted[|sorted| - 1]];
    }
  }

  lemma {:induction false} InsertKeepsRank(sorted: seq<Span>, x: Span)
    requires Ranked(sorted) && forall i :: 0 <= i < |sorted| ==> ReadBefore(sorted[i], x)
    ensures Ranked(Insert(sorted, x))
  {
    if sorted != [] {
      var init, last := sorted[..|sorted| - 1], sorted[|sorted| - 1];
      if Less(x, last) {
        InsertKeepsRank(init, x);
        var r := Insert(init, x);
        forall i | 0 <= i < |r| ensures Outranks(r[i], last) {
          InsertHas(init, x, r[i]);
          if r[i] in init { var k :| 0 <= k < |init| && init[k] == r[i]; assert sorted[k] == r[i]; }
        }
      } else {
        assert ReadBefore(last, x) && Outranks(last, x);
        forall i | 0 <= i < |sorted| ensures Outranks(sorted[i], x) {
          OutranksIsStrictOrder(sorted[i], last, x);
        }
      }
    }
  }

  lemma {:induction false} SortByRankHas(spans: seq<Span>, c: Span)
    ensures c in SortByRank(spans) <==> c in spans
  {
    if spans != [] {
      var init, last := spans[..|spans| - 1], spans[|spans| - 1];
      SortByRankHas(init, c);
      InsertHas(SortByRank(init), last, c);
      assert spans == init + [last];
    }
  }

  lemma {:induction false} SortByRankOrders(spans: seq<Span>)
    requires ReadInOrder(spans)
    ensures Ranked(SortByRank(spans))
  {
    if spans != [] {
      var init, last := spans[..|spans| - 1], spans[|spans| - 1];
      var sorted := SortByRank(init);
      SortByRankOrders(init);
      forall i | 0 <= i < |sorted| ensures ReadBefore(sorted[i], last) {
        SortByRankHas(init, sorted[i]);
        var k :| 0 <= k < |init| && init[k] == sorted[i];
        assert ReadBefore(spans[k], spans[|spans| - 1]);
      }
      InsertKeepsRank(sorted, last);
    }
  }

  lemma SortByRankMeaning(spans: seq<Span>)
    requires ReadInOrder(spans)
    ensures Ranked(SortByRank(spans))
    ensures forall c :: c in SortByRank(spans) <==> c in spans
  {
    SortByRankOrders(spans);
    forall c ensures c in SortByRank(spans) <==> c in spans {
      SortByRankHas(spans, c);
    }
  }

  /** The comparison of the last sort. */
  predicate StartsBefore(a: Span, b: Span)
  {
    a.start < b.start || (a.start == b.start && a.end < b.end)
  }

  function InsertByStart(sorted: seq<Span>, x: Span): seq<Span>
  {
    if sorted == [] || !StartsBefore(x, sorted[|sorted| - 1]) then sorted + [x]
    else InsertByStart(sorted[..|sorted| - 1], x) + [sorted[|sorted| - 1]]
  }

  function SortByStart(spans: seq<Span>): seq<Span>
  {
    if spans == [] then [] else InsertByStart(SortByStart(spans[..|spans| - 1]), spans[|spans| - 1])
  }

  ghost predicate NonEmpty(spans: seq<Span>)
  {
    forall i :: 0 <= i < |spans| ==> spans[i].start < spans[i].end
  }

  ghost predicate Disjoint(spans: seq<Span>)
  {
    forall i, j :: 0 <= i < j < |spans| ==> !Overlap(spans[i], spans[j])
  }

  lemma {:induction false} InsertByStartHas(sorted: seq<Span>, x: Span, y: Span)
    ensures y in InsertByStart(sorted, x) <==> y in sorted || y == x
  {
    if sorted != [] && StartsBefore(x, sorted[|sorted| - 1]) {
      InsertByStartHas(sorted[..|sorted| - 1], x, y);
      assert sorted == sorted[..|sorted| - 1] + [sorted[|sorted| - 1]];
    }
  }

  lemma {:induction false} InsertByStartKeepsOrder(sorted: seq<Span>, x: Span)
    requires InOrder(sorted) && NonEmpty(sorted) && x.start < x.end
    requires forall i :: 0 <= i < |sorted| ==> !Overlap(sorted[i], x)
    ensures InOrder(InsertByStart(sorted, x))
  {
    if sorted != [] {
      var init, last := sorted[..|sorted| - 1], sorted[|sorted| - 1];
      assert !Overlap(last, x);
      if StartsBefore(x, last) {
        InsertByStartKeepsOrder(init, x);
        var r := InsertByStart(init, x);
        forall i | 0 <= i < |r| ensures r[i].end <= last.start {
          InsertByStartHas(init, x, r[i]);
          if r[i] in init { var k :| 0 <= k < |init| && init[k] == r[i]; assert sorted[k] == r[i]; }
        }
      } else {
        assert last.end <= x.start;
        forall i | 0 <= i < |sorted| ensures sorted[i].end <= x.start {
          if i < |sorted| - 1 { assert sorted[i].end <= last.start; }
        }
      }
    }
  }

  lemma {:induction false} SortByStartHas(spans: seq<Span>, c: Span)
    ensures c in SortByStart(spans) <==> c in spans
  {
    if spans != [] {
      var init, last := spans[..|spans| - 1], spans[|spans| - 1];
      SortByStartHas(init, c);
      InsertByStartHas(SortByStart(init), last, c);
      assert spans == init + [last];
    }
  }

  lemma {:induction false} SortByStartOrders(spans: seq<Span>)
    requires NonEmpty(spans) && Disjoint(spans)
    ensures InOrder(SortByStart(spans))
  {
    if spans != [] {
      var init, last := spans[..|spans| - 1], spans[|spans| - 1];
      var sorted := SortByStart(init);
      SortByStartOrders(init);
      forall i | 0 <= i < |sorted| ensures !Overlap(sorted[i], last) && sorted[i].start < sorted[i].end {
        SortByStartHas(init, sorted[i]);
        var k :| 0 <= k < |init| && init[k] == sorted[i];
        assert !Overlap(spans[k], spans[|spans| - 1]) && spans[k].start < spans[k].end;
      }
      InsertByStartKeepsOrder(sorted, last);
    }
  }

  lemma SortByStartMeaning(spans: seq<Span>)
    requires NonEmpty(spans) && Disjoint(spans)
    ensures InOrder(SortByStart(spans))
    ensures forall c :: c in SortByStart(spans) <==> c in spans
  {
    SortByStartOrders(spans);
    forall c ensures c in SortByStart(spans) <==> c in spans {
      SortByStartHas(spans, c);
    }
  }

  // ---------------------------------------------------------------- what decoding promises

  /** The spans to report, of the candidates `all`: they are candidates, no two overlap, and a
      candidate is left out only for one it overlaps that outranks it. */
  ghost predicate Resolved(all: seq<Span>, kept: seq<Span>)
  {
    && Disjoint(kept)
    && (forall i :: 0 <= i < |kept| ==> kept[i] in all)
    && (forall i :: 0 <= i < |all| ==> all[i] in kept || Beaten(kept, all[i]))
  }

  ghost predicate Beaten(kept: seq<Span>, c: Span)
  {
    exists i :: 0 <= i < |kept| && Overlap(kept[i], c) && Outranks(kept[i], c)
  }

  lemma BeatenStays(kept: seq<Span>, more: Span, c: Span)
    requires Beaten(kept, c)
    ensures Beaten(kept + [more], c)
  {
    var i :| 0 <= i < |kept| && Overlap(kept[i], c) && Outranks(kept[i], c);
    assert (kept + [more])[i] == kept[i];
  }

  /** Two answers for the same candidates keep the same spans. */
  lemma {:induction false} ResolvedAgree(all: seq<Span>, a: seq<Span>, b: seq<Span>, n: nat)
    requires Ranked(all) && NonEmpty(all) && Resolved(all, a) && Resolved(all, b) && n <= |all|
    ensures forall i :: 0 <= i < n ==> (all[i] in a <==> all[i] in b)
  {
    if n > 0 {
      ResolvedAgree(all, a, b, n - 1);
      KeptInBoth(all, a, b, n - 1);
      KeptInBoth(all, b, a, n - 1);
    }
  }

  lemma OutrankerIsEarlier(all: seq<Span>, k: nat, n: nat)
    requires Ranked(all) && k < |all| && n < |all|
    ensures Outranks(all[k], all[n]) <==> k < n
  {
    OutranksIsStrictOrder(all[k], all[n], all[n]);
  }

  lemma KeptInBoth(all: seq<Span>, a: seq<Span>, b: seq<Span>, n: nat)
    requires Ranked(all) && Resolved(all, a) && Resolved(all, b) && n < |all|
    requires forall i :: 0 <= i < n ==> (all[i] in a <==> all[i] in b)
    ensures all[n] in a ==> all[n] in b
  {
    if all[n] in a && Beaten(b, all[n]) {
      var i :| 0 <= i < |b| && Overlap(b[i], all[n]) && Outranks(b[i], all[n]);
      var k :| 0 <= k < |all| && all[k] == b[i];
      OutrankerIsEarlier(all, k, n);
      assert all[k] in b;
      assert all[k] in a;
      TwoOverlap(a, all[k], all[n]);
    }
  }

  lemma TwoOverlap(kept: seq<Span>, x: Span, y: Span)
    requires Disjoint(kept) && x in kept && y in kept && x != y
    ensures !Overlap(x, y)
  {
    var i :| 0 <= i < |kept| && kept[i] == x;
    var j :| 0 <= j < |kept| && kept[j] == y;
    assert Overlap(x, y) == Overlap(y, x);
  }

  /** The answer is unique: same candidates, same spans, in the same order. */
  lemma AnswerIsUnique(all: seq<Span>, a: seq<Span>, b: seq<Span>)
    requires Ranked(all) && NonEmpty(all) && Resolved(all, a) && Resolved(all, b) && InOrder(a) && InOrder(b)
    ensures a == b
  {
    ResolvedAgree(all, a, b, |all|);
    forall c ensures c in a <==> c in b {
      if c in a { assert c in all; }
      if c in b { assert c in all; }
    }
    FromAll(all, a);
    FromAll(all, b);
    SameInOrder(a, b);
  }

  lemma FromAll(all: seq<Span>, kept: seq<Span>)
    requires NonEmpty(all) && Resolved(all, kept)
    ensures NonEmpty(kept)
  {
    forall i | 0 <= i < |kept| ensures kept[i].start < kept[i].end {
      assert kept[i] in all;
    }
  }

  predicate SameSpans(a: seq<Span>, b: seq<Span>)
  {
    (forall i :: 0 <= i < |a| ==> a[i] in b) && (forall i :: 0 <= i < |b| ==> b[i] in a)
  }

  lemma LastEndsLast(a: seq<Span>, c: Span)
    requires InOrder(a) && NonEmpty(a) && a != [] && c in a
    ensures c.start <= a[|a| - 1].start && (c.start == a[|a| - 1].start ==> c == a[|a| - 1])
  {
    var i :| 0 <= i < |a| && a[i] == c;
    if i < |a| - 1 { assert a[i].end <= a[|a| - 1].start; }
  }

  lemma SameLast(a: seq<Span>, b: seq<Span>)
    requires InOrder(a) && InOrder(b) && NonEmpty(a) && NonEmpty(b) && SameSpans(a, b) && a != [] && b != []
    ensures a[|a| - 1] == b[|b| - 1]
  {
    LastEndsLast(a, b[|b| - 1]);
    LastEndsLast(b, a[|a| - 1]);
  }

  lemma SameInit(a: seq<Span>, b: seq<Span>)
    requires InOrder(a) && InOrder(b) && NonEmpty(a) && NonEmpty(b) && SameSpans(a, b) && a != [] && b != []
    requires a[|a| - 1] == b[|b| - 1]
    ensures SameSpans(a[..|a| - 1], b[..|b| - 1])
  {
    forall i | 0 <= i < |a| - 1 ensures a[i] in b[..|b| - 1] {
      assert a[i] in b && a[i].end <= a[|a| - 1].start;
      LastIsNotBefore(b, a[i]);
    }
    forall i | 0 <= i < |b| - 1 ensures b[i] in a[..|a| - 1] {
      assert b[i] in a && b[i].end <= b[|b| - 1].start;
      LastIsNotBefore(a, b[i]);
    }
  }

  lemma SameParts(a: seq<Span>, b: seq<Span>)
    requires a != [] && b != [] && a[..|a| - 1] == b[..|b| - 1] && a[|a| - 1] == b[|b| - 1]
    ensures a == b
  {
    assert a == a[..|a| - 1] + [a[|a| - 1]] && b == b[..|b| - 1] + [b[|b| - 1]];
  }

  lemma {:induction false} SameInOrder(a: seq<Span>, b: seq<Span>)
    requires InOrder(a) && InOrder(b) && NonEmpty(a) && NonEmpty(b) && SameSpans(a, b)
    ensures a == b
  {
    assert a != [] ==> a[0] in b;
    assert b != [] ==> b[0] in a;
    if a != [] && b != [] {
      SameLast(a, b);
      SameInit(a, b);
      SameInOrder(a[..|a| - 1], b[..|b| - 1]);
      SameParts(a, b);
    }
  }

  lemma LastIsNotBefore(a: seq<Span>, c: Span)
    requires InOrder(a) && NonEmpty(a) && a != []
    ensures c in a[..|a| - 1] <==> c in a && c != a[|a| - 1]
  {
    if c in a[..|a| - 1] {
      var i :| 0 <= i < |a| - 1 && a[i] == c;
      assert a[i].end <= a[|a| - 1].start;
    }
  }

  // ---------------------------------------------------------------- the algorithm

  /** The thresholded candidates, in the order the tensor is read. */
  method Collect(scores: seq<real>, shape: Shape, threshold: real) returns (candidates: seq<Span>)
    requires |scores| == Size(shape)
    ensures ReadInOrder(candidates) && NonEmpty(candidates)
    ensures forall c :: c in candidates <==> IsCandidate(scores, shape, threshold, c)
  {
    candidates := [];
    for s := 0 to shape.maxSpans
      invariant Gathered(scores, shape, threshold, candidates, s, 0, 0)
    {
      for w := 0 to shape.spanWidth
        invariant Gathered(scores, shape, threshold, candidates, s, w, 0)
      {
        for l := 0 to shape.numLabels
          invariant Gathered(scores, shape, threshold, candidates, s, w, l)
        {
          IndexFits(shape, s, w, l);
          var score := scores[Index(shape, s, w, l)];
          GatherOne(scores, shape, threshold, candidates, s, w, l);
          if score >= threshold {
            candidates := candidates + [Span(s, s + w + 1, l, score)];
          }
        }
        GatherRow(scores, shape, threshold, candidates, s, w);
      }
      GatherStart(scores, shape, threshold, candidates, s);
    }
    GatheredAll(scores, shape, threshold, candidates);
  }

  /** The candidates read before position `(s, w, l)`. */
  ghost predicate Gathered(scores: seq<real>, shape: Shape, threshold: real, candidates: seq<Span>, s: nat, w: nat,
                           l: nat)
  {
    && ReadInOrder(candidates) && NonEmpty(candidates)
    && forall c :: c in candidates <==> IsCandidate(scores, shape, threshold, c) && Passed(c, s, w, l)
  }

  /** The span is read before position `(s, w, l)`. */
  predicate Passed(c: Span, s: nat, w: nat, l: nat)
  {
    c.start < s || (c.start == s && (c.end < s + w + 1 || (c.end == s + w + 1 && c.labelId < l)))
  }

  lemma GatherOne(scores: seq<real>, shape: Shape, threshold: real, candidates: seq<Span>, s: nat, w: nat, l: nat)
    requires Gathered(scores, shape, threshold, candidates, s, w, l)
    requires s < shape.maxSpans && w < shape.spanWidth && l < shape.numLabels && Index(shape, s, w, l) < |scores|
    ensures var next := Span(s, s + w + 1, l, scores[Index(shape, s, w, l)]);
            Gathered(scores, shape, threshold, if next.score >= threshold then candidates + [next] else candidates,
                     s, w, l + 1)
  {
    var next := Span(s, s + w + 1, l, scores[Index(shape, s, w, l)]);
    forall c ensures IsCandidate(scores, shape, threshold, c) && Passed(c, s, w, l + 1)
      <==> (IsCandidate(scores, shape, threshold, c) && Passed(c, s, w, l)) || (c == next && next.score >= threshold) {
    }
    forall i | 0 <= i < |candidates| ensures ReadBefore(candidates[i], next) {
      assert candidates[i] in candidates;
    }
  }

  lemma GatherRow(scores: seq<real>, shape: Shape, threshold: real, candidates: seq<Span>, s: nat, w: nat)
    requires Gathered(scores, shape, threshold, candidates, s, w, shape.numLabels)
    ensures Gathered(scores, shape, threshold, candidates, s, w + 1, 0)
  {}

  lemma GatherStart(scores: seq<real>, shape: Shape, threshold: real, candidates: seq<Span>, s: nat)
    requires Gathered(scores, shape, threshold, candidates, s, shape.spanWidth, 0)
    ensures Gathered(scores, shape, threshold, candidates, s + 1, 0, 0)
  {}

  lemma GatheredAll(scores: seq<real>, shape: Shape, threshold: real, candidates: seq<Span>)
    requires Gathered(scores, shape, threshold, candidates, shape.maxSpans, 0, 0)
    ensures forall c :: c in candidates <==> IsCandidate(scores, shape, threshold, c)
  {}

  /** Whether a span overlaps any kept one. */
  method OverlapsAny(kept: seq<Span>, c: Span) returns (overlaps: bool)
    ensures overlaps <==> exists i :: 0 <= i < |kept| && Overlap(kept[i], c)
  {
    overlaps := false;
    for k := 0 to |kept|
      invariant overlaps <==> exists i :: 0 <= i < k && Overlap(kept[i], c)
    {
      if Overlap(kept[k], c) { overlaps := true; }
    }
  }

  predicate SameRange(a: Span, b: Span)
  {
    a.start == b.start && a.end == b.end && a.labelId == b.labelId
  }

  method RepeatsAny(kept: seq<Span>, c: Span) returns (dup: bool)
    ensures dup <==> exists i :: 0 <= i < |kept| && SameRange(kept[i], c)
  {
    dup := false;
    for k := 0 to |kept|
      invariant dup <==> exists i :: 0 <= i < k && SameRange(kept[i], c)
    {
      if SameRange(kept[k], c) { dup := true; }
    }
  }

  /** The separate test for duplicates can never fire: a duplicate overlaps. */
  lemma DuplicatesOverlap(kept: seq<Span>, c: Span)
    requires c.start < c.end && forall i :: 0 <= i < |kept| ==> !Overlap(kept[i], c)
    ensures forall i :: 0 <= i < |kept| ==> !SameRange(kept[i], c)
  {
    forall i | 0 <= i < |kept| ensures !SameRange(kept[i], c) {
      assert !Overlap(kept[i], c);
    }
  }

  /** Keeps the strongest first. */
  method Resolve(ranked: seq<Span>) returns (kept: seq<Span>)
    requires Ranked(ranked) && NonEmpty(ranked)
    ensures Resolved(ranked, kept)
  {
    kept := [];
    for n := 0 to |ranked|
      invariant Resolved(ranked[..n], kept)
    {
      var c := ranked[n];
      assert ranked[..n + 1] == ranked[..n] + [c];
      var overlaps := OverlapsAny(kept, c);
      if overlaps {
        LeaveOut(ranked, n, kept);
        continue;
      }
      var dup := RepeatsAny(kept, c);
      DuplicatesOverlap(kept, c);
      if !dup {
        Keep(ranked, n, kept);
        kept := kept + [c];
      }
    }
    assert ranked[..|ranked|] == ranked;
  }

  lemma LeaveOut(ranked: seq<Span>, n: nat, kept: seq<Span>)
    requires Ranked(ranked) && n < |ranked| && Resolved(ranked[..n], kept)
    requires exists i :: 0 <= i < |kept| && Overlap(kept[i], ranked[n])
    ensures Resolved(ranked[..n + 1], kept)
  {
    hide Outranks, Overlap;
    var i :| 0 <= i < |kept| && Overlap(kept[i], ranked[n]);
    assert kept[i] in ranked[..n];
    var k :| 0 <= k < n && ranked[k] == kept[i];
    assert Outranks(ranked[k], ranked[n]);
    assert Beaten(kept, ranked[n]);
    SeenOneMore(ranked, n, kept, kept);
  }

  lemma Keep(ranked: seq<Span>, n: nat, kept: seq<Span>)
    requires n < |ranked| && Resolved(ranked[..n], kept)
    requires forall i :: 0 <= i < |kept| ==> !Overlap(kept[i], ranked[n])
    ensures Resolved(ranked[..n + 1], kept + [ranked[n]])
  {
    var c := ranked[n];
    var more := kept + [c];
    assert c in more by { assert more[|kept|] == c; }
    forall i | 0 <= i < n ensures ranked[i] in more || Beaten(more, ranked[i]) {
      assert ranked[..n][i] == ranked[i];
      if ranked[i] !in kept { BeatenStays(kept, c, ranked[i]); }
    }
    SeenOneMore(ranked, n, kept, more);
  }

  lemma SeenOneMore(ranked: seq<Span>, n: nat, kept: seq<Span>, more: seq<Span>)
    requires n < |ranked| && Resolved(ranked[..n], kept) && Disjoint(more)
    requires more == kept || more == kept + [ranked[n]]
    requires ranked[n] in more || Beaten(more, ranked[n])
    requires forall i :: 0 <= i < n ==> ranked[i] in more || Beaten(more, ranked[i])
    ensures Resolved(ranked[..n + 1], more)
  {
    assert ranked[..n + 1] == ranked[..n] + [ranked[n]];
    forall i | 0 <= i < |more| ensures more[i] in ranked[..n + 1] {
      if i < |kept| { assert kept[i] in ranked[..n]; }
    }
    var seen := ranked[..n + 1];
    forall i | 0 <= i < |seen| ensures seen[i] in more || Beaten(more, seen[i]) {
      assert seen[i] == ranked[i];
    }
  }

  /** Decodes a score tensor. `ranked` lists every candidate once, by rank. A shape is refused
      when it does not describe the scores, or when multiplying it out overflows on the way. */
  method DecodeSpans(scores: seq<real>, shape: Shape, threshold: real)
    returns (r: Outcome<seq<Span>>, ghost ranked: seq<Span>)
    ensures r.Ok? <==> Expected(shape) == Some(|scores|)
    ensures r.Ok? ==> Ranked(ranked) && NonEmpty(ranked)
    ensures r.Ok? ==> forall c :: c in ranked <==> IsCandidate(scores, shape, threshold, c)
    ensures r.Ok? ==> Resolved(ranked, r.value) && InOrder(r.value) && NonEmpty(r.value)
  {
    if Expected(shape) != Some(|scores|) { return WrongShape, []; }
    var candidates := Collect(scores, shape, threshold);
    SortByRankMeaning(candidates);
    SameSpansNonEmpty(candidates, SortByRank(candidates));
    ranked := SortByRank(candidates);
    var accepted := Resolve(SortByRank(candidates));
    FromAll(ranked, accepted);
    SortByStartMeaning(accepted);
    SortedStaysResolved(ranked, accepted);
    r := Ok(SortByStart(accepted));
  }

  lemma SameSpansNonEmpty(a: seq<Span>, b: seq<Span>)
    requires NonEmpty(a) && forall c :: c in b ==> c in a
    ensures NonEmpty(b)
  {
    forall i | 0 <= i < |b| ensures b[i].start < b[i].end {
      assert b[i] in a;
    }
  }

  lemma SortedStaysResolved(all: seq<Span>, kept: seq<Span>)
    requires Resolved(all, kept) && NonEmpty(kept) && InOrder(SortByStart(kept))
    requires forall c :: c in SortByStart(kept) <==> c in kept
    ensures Resolved(all, SortByStart(kept)) && NonEmpty(SortByStart(kept))
  {
    var sorted := SortByStart(kept);
    SameSpansNonEmpty(kept, sorted);
    forall i | 0 <= i < |sorted| ensures sorted[i] in all {
      assert sorted[i] in kept;
    }
    forall i | 0 <= i < |all| && all[i] !in sorted ensures Beaten(sorted, all[i]) {
      var k :| 0 <= k < |kept| && Overlap(kept[k], all[i]) && Outranks(kept[k], all[i]);
      assert kept[k] in sorted;
    }
  }

  /** A shape is accepted exactly when its product is the number of scores and the product of
      its first two sides does not overflow on the way. */
  lemma AcceptsIff(scores: seq<real>, shape: Shape)
    requires |scores| <= USIZE_MAX
    ensures Expected(shape) == Some(|scores|) <==>
            && shape.maxSpans * shape.spanWidth * shape.numLabels == |scores|
            && shape.maxSpans * shape.spanWidth <= USIZE_MAX
  {
    TimesIsProduct(shape.maxSpans, shape.spanWidth);
    TimesIsProduct(Times(shape.maxSpans, shape.spanWidth), shape.numLabels);
  }

  /** So a shape of the right size can be refused: two sides of 2 to the 32, no labels and,
      rightly, no scores. */
  lemma RightSizeRefused()
    ensures var shape := Shape(0x1_0000_0000, 0x1_0000_0000, 0);
            shape.maxSpans * shape.spanWidth * shape.numLabels == 0 && Expected(shape) == None
  {
    TimesIsProduct(0x1_0000_0000, 0x1_0000_0000);
  }
}
