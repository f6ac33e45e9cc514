/** The bounded heaps of a search (`Hit`, `VectorIndex::search`): keep the `k` greatest hits
    of each chunk, merge the heaps in any order, list the survivors. */
module TopK {

  datatype Hit = Hit(score: real, key: int)

  /** Rank order: `a` leaves a bounded heap before `b`, or they are the same. A heap of
      `Hit`s pops its greatest, and `Hit` compares scores and keys in reverse. */
  predicate Ranks(a: Hit, b: Hit)
  {
    a.score < b.score || (a.score == b.score && a.key <= b.key)
  }

  lemma RanksIsTotalOrder(a: Hit, b: Hit, c: Hit)
    ensures Ranks(a, a) && (Ranks(a, b) || Ranks(b, a))
    ensures Ranks(a, b) && Ranks(b, a) ==> a == b
    ensures Ranks(a, b) && Ranks(b, c) ==> Ranks(a, c)
  {}

  ghost predicate Ascending(hits: seq<Hit>)
  {
    forall i, j :: 0 <= i < j < |hits| ==> Ranks(hits[i], hits[j])
  }

  // ---------------------------------------------------------------- sorted lists

  function Insert(hits: seq<Hit>, h: Hit): (r: seq<Hit>)
    ensures |r| == |hits| + 1
  {
    if hits == [] || Ranks(h, hits[0]) then [h] + hits else [hits[0]] + Insert(hits[1..], h)
  }

  lemma {:induction false} InsertKeepsOrder(hits: seq<Hit>, h: Hit)
    requires Ascending(hits)
    ensures Ascending(Insert(hits, h))
    ensures Insert(hits, h)[0] == h || (hits != [] && Insert(hits, h)[0] == hits[0])
  {
    if hits != [] && !Ranks(h, hits[0]) {
      InsertKeepsOrder(hits[1..], h);
      var r := Insert(hits[1..], h);
      forall j | 0 <= j < |r| ensures Ranks(hits[0], r[j]) {
        assert Ranks(hits[0], r[0]);
        if j > 0 { assert Ranks(r[0], r[j]); }
      }
    } else if hits != [] {
      forall j | 0 <= j < |hits| ensures Ranks(h, hits[j]) {
        if j > 0 { assert Ranks(hits[0], hits[j]); }
      }
    }
  }

  lemma {:induction false} InsertAdds(hits: seq<Hit>, h: Hit)
    ensures multiset(Insert(hits, h)) == multiset(hits) + multiset{h}
  {
    if hits != [] && !Ranks(h, hits[0]) {
      InsertAdds(hits[1..], h);
      assert hits == [hits[0]] + hits[1..];
    }
  }

  function InsertAll(hits: seq<Hit>, more: seq<Hit>): (r: seq<Hit>)
    ensures |r| == |hits| + |more|
  {
    if more == [] then hits else Insert(InsertAll(hits, more[..|more| - 1]), more[|more| - 1])
  }

  function Sorted(hits: seq<Hit>): (r: seq<Hit>)
    ensures |r| == |hits|
  {
    InsertAll([], hits)
  }

  lemma {:induction false} InsertAllKeepsOrder(hits: seq<Hit>, more: seq<Hit>)
    requires Ascending(hits)
    ensures Ascending(InsertAll(hits, more))
  {
    if more != [] {
      InsertAllKeepsOrder(hits, more[..|more| - 1]);
      InsertKeepsOrder(InsertAll(hits, more[..|more| - 1]), more[|more| - 1]);
    }
  }

  lemma {:induction false} InsertAllAdds(hits: seq<Hit>, more: seq<Hit>)
    ensures multiset(InsertAll(hits, more)) == multiset(hits) + multiset(more)
  {
    if more != [] {
      InsertAllAdds(hits, more[..|more| - 1]);
      InsertAdds(InsertAll(hits, more[..|more| - 1]), more[|more| - 1]);
      SplitLast(more);
    }
  }

  lemma SplitLast<T>(s: seq<T>)
    requires s != []
    ensures multiset(s) == multiset(s[..|s| - 1]) + multiset{s[|s| - 1]}
  {
    assert s == s[..|s| - 1] + [s[|s| - 1]];
  }

  lemma SplitFirst(hits: seq<Hit>)
    requires hits != []
    ensures multiset(hits) == multiset{hits[0]} + multiset(hits[1..])
  {
    assert hits == [hits[0]] + hits[1..];
  }

  /** A sorted list is determined by its contents. */
  lemma {:induction false} SortedIsUnique(a: seq<Hit>, b: seq<Hit>)
    requires Ascending(a) && Ascending(b) && multiset(a) == multiset(b)
    ensures a == b
  {
    if a == [] || b == [] {
      assert |multiset(a)| == |a| && |multiset(b)| == |b|;
    } else {
      FirstIsLeast(a, b);
      FirstIsLeast(b, a);
      RanksIsTotalOrder(a[0], b[0], a[0]);
      SplitFirst(a);
      SplitFirst(b);
      assert multiset(a[1..]) == multiset(a) - multiset{a[0]};
      SortedIsUnique(a[1..], b[1..]);
    }
  }

  lemma FirstIsLeast(a: seq<Hit>, b: seq<Hit>)
    requires Ascending(a) && a != [] && b != [] && multiset(a) == multiset(b)
    ensures Ranks(a[0], b[0])
  {
    assert b[0] in multiset(b);
    assert b[0] in a;
    var i :| 0 <= i < |a| && a[i] == b[0];
    RanksIsTotalOrder(a[0], a[0], a[0]);
  }

  // ---------------------------------------------------------------- the k greatest

  /** The `k` greatest of a sorted list. */
  function Top(hits: seq<Hit>, k: nat): seq<Hit>
  {
    if |hits| <= k then hits else hits[|hits| - k..]
  }

  /** One push on a bounded heap: over `k`, the least leaves. */
  function Push(heap: seq<Hit>, h: Hit, k: nat): seq<Hit>
  {
    var grown := Insert(heap, h);
    if |grown| > k then grown[1..] else grown
  }

  function PushAll(heap: seq<Hit>, hits: seq<Hit>, k: nat): seq<Hit>
  {
    if hits == [] then heap else Push(PushAll(heap, hits[..|hits| - 1], k), hits[|hits| - 1], k)
  }

  /** Forgetting what is below the `k` greatest before an insertion changes nothing after it. */
  lemma {:induction false} TopInsert(hits: seq<Hit>, h: Hit, k: nat)
    requires Ascending(hits)
    ensures Top(Insert(hits, h), k) == Top(Insert(Top(hits, k), h), k)
  {
    if |hits| > k {
      DropLeast(hits, h, k);
      TopInsert(hits[1..], h, k);
      assert Top(hits[1..], k) == Top(hits, k);
    }
  }

  /** One of more than `k` sorted hits, the least, is not needed for the `k` greatest. */
  lemma {:induction false} DropLeast(hits: seq<Hit>, h: Hit, k: nat)
    requires Ascending(hits) && |hits| > k
    ensures Top(Insert(hits, h), k) == Top(Insert(hits[1..], h), k)
  {
    var rest := hits[1..];
    assert hits == [hits[0]] + rest;
    if Ranks(h, hits[0]) {
      if rest != [] { RanksIsTotalOrder(h, hits[0], rest[0]); }
      TopOfLonger(h, hits, k);
      TopOfLonger(hits[0], rest, k);
      TopOfLonger(h, rest, k);
    } else {
      TopOfLonger(hits[0], Insert(rest, h), k);
    }
  }

  lemma PushIsTop(hits: seq<Hit>, h: Hit, k: nat)
    requires Ascending(hits)
    ensures Push(Top(hits, k), h, k) == Top(Insert(hits, h), k)
  {
    TopInsert(hits, h, k);
  }

  /** Pushing on a bounded heap keeps the `k` greatest of everything pushed. */
  lemma {:induction false} PushAllIsTop(hits: seq<Hit>, more: seq<Hit>, k: nat)
    requires Ascending(hits)
    ensures PushAll(Top(hits, k), more, k) == Top(InsertAll(hits, more), k)
  {
    if more != [] {
      var init, last := more[..|more| - 1], more[|more| - 1];
      PushAllIsTop(hits, init, k);
      InsertAllKeepsOrder(hits, init);
      PushIsTop(InsertAll(hits, init), last, k);
    }
  }

  lemma TopOfLonger(h: Hit, hits: seq<Hit>, k: nat)
    requires |hits| >= k
    ensures Top([h] + hits, k) == Top(hits, k)
  {
    assert ([h] + hits)[|hits| + 1 - k..] == hits[|hits| - k..];
    assert hits[0..] == hits;
  }

  /** A hit that ranks no higher than the least of a full top adds nothing. */
  lemma {:induction false} LowHitAddsNothing(hits: seq<Hit>, h: Hit, k: nat)
    requires Ascending(hits) && |hits| >= k && (k > 0 ==> Ranks(h, hits[|hits| - k]))
    ensures Top(Insert(hits, h), k) == Top(hits, k)
  {
    if hits == [] || Ranks(h, hits[0]) {
      TopOfLonger(h, hits, k);
    } else {
      var rest := hits[1..];
      assert k > 0 ==> |hits| != k;
      LowHitAddsNothing(rest, h, k);
      TopOfLonger(hits[0], rest, k);
      TopOfLonger(hits[0], Insert(rest, h), k);
      assert hits == [hits[0]] + rest;
    }
  }

  /** Insertions never lower the `k`-th greatest. */
  lemma {:induction false} InsertRaises(hits: seq<Hit>, h: Hit, k: nat)
    requires Ascending(hits) && 0 < k <= |hits|
    ensures Ranks(hits[|hits| - k], Insert(hits, h)[|hits| + 1 - k])
  {
    RanksIsTotalOrder(hits[|hits| - k], hits[|hits| - k], hits[|hits| - k]);
    if Ranks(h, hits[0]) {
      assert ([h] + hits)[|hits| + 1 - k] == hits[|hits| - k];
    } else if |hits| > k {
      InsertRaises(hits[1..], h, k);
    } else {
      InsertKeepsOrder(hits[1..], h);
      var r := Insert(hits[1..], h);
      RanksIsTotalOrder(hits[0], h, h);
      assert Insert(hits, h)[1] == r[0];
    }
  }

  lemma {:induction false} InsertAllRaises(hits: seq<Hit>, more: seq<Hit>, k: nat)
    requires Ascending(hits) && 0 < k <= |hits|
    ensures Ranks(hits[|hits| - k], InsertAll(hits, more)[|hits| + |more| - k])
  {
    if more == [] {
      RanksIsTotalOrder(hits[|hits| - k], hits[|hits| - k], hits[|hits| - k]);
    } else {
      var init := more[..|more| - 1];
      var grown := InsertAll(hits, init);
      InsertAllRaises(hits, init, k);
      InsertAllKeepsOrder(hits, init);
      InsertRaises(grown, more[|more| - 1], k);
      RanksIsTotalOrder(hits[|hits| - k], grown[|grown| - k], InsertAll(hits, more)[|hits| + |more| - k]);
    }
  }

  /** Low hits add nothing to a list that already holds `k` hits ranking above them all. */
  lemma {:induction false} LowHitsAddNothing(hits: seq<Hit>, low: seq<Hit>, k: nat)
    requires Ascending(hits) && |hits| >= k
    requires forall i :: 0 <= i < |low| && k > 0 ==> Ranks(low[i], hits[|hits| - k])
    ensures Top(InsertAll(hits, low), k) == Top(hits, k)
  {
    if low != [] {
      var init, last := low[..|low| - 1], low[|low| - 1];
      LowHitsAddNothing(hits, init, k);
      InsertAllKeepsOrder(hits, init);
      var grown := InsertAll(hits, init);
      if k > 0 {
        InsertAllRaises(hits, init, k);
        RanksIsTotalOrder(last, hits[|hits| - k], grown[|grown| - k]);
      }
      LowHitAddsNothing(grown, last, k);
    }
  }

  /** Merging the kept hits of one list, drained in any order, into the kept hits of another
      keeps the `k` greatest of both lists together. */
  lemma MergeIsTop(a: seq<Hit>, b: seq<Hit>, drained: seq<Hit>, k: nat)
    requires multiset(drained) == multiset(Top(Sorted(b), k))
    ensures PushAll(Top(Sorted(a), k), drained, k) == Top(Sorted(a + b), k)
  {
    SortedMeaning(a);
    SortedMeaning(b);
    var s := Sorted(b);
    var kept := Top(s, k);
    var dropped := s[..|s| - |kept|];
    var grown := InsertAll(Sorted(a), drained);
    PushAllIsTop(Sorted(a), drained, k);
    InsertAllKeepsOrder(Sorted(a), drained);
    InsertAllAdds(Sorted(a), drained);
    WholeList(a, b, s, kept, dropped, grown);
    if dropped != [] {
      SizeOf(drained, kept);
      if k > 0 { DroppedRankLow(a, s, kept, dropped, grown, k); }
      LowHitsAddNothing(grown, dropped, k);
    }
  }

  lemma SortedMeaning(hits: seq<Hit>)
    ensures Ascending(Sorted(hits)) && multiset(Sorted(hits)) == multiset(hits)
  {
    InsertAllKeepsOrder([], hits);
    InsertAllAdds([], hits);
  }

  lemma SizeOf(a: seq<Hit>, b: seq<Hit>)
    requires multiset(a) == multiset(b)
    ensures |a| == |b|
  {
    assert |multiset(a)| == |a| && |multiset(b)| == |b|;
  }

  lemma WholeList(a: seq<Hit>, b: seq<Hit>, s: seq<Hit>, kept: seq<Hit>, dropped: seq<Hit>, grown: seq<Hit>)
    requires s == dropped + kept && multiset(s) == multiset(b)
    requires Ascending(grown) && multiset(grown) == multiset(a) + multiset(kept)
    ensures Sorted(a + b) == InsertAll(grown, dropped)
  {
    SortedMeaning(a + b);
    InsertAllKeepsOrder(grown, dropped);
    InsertAllAdds(grown, dropped);
    assert multiset(a + b) == multiset(a) + multiset(b);
    assert multiset(s) == multiset(dropped) + multiset(kept);
    SortedIsUnique(Sorted(a + b), InsertAll(grown, dropped));
  }

  lemma DroppedRankLow(a: seq<Hit>, s: seq<Hit>, kept: seq<Hit>, dropped: seq<Hit>, grown: seq<Hit>, k: nat)
    requires Ascending(s) && 0 < k < |s| && kept == s[|s| - k..] && dropped == s[..|s| - k]
    requires Ascending(grown) && |grown| == |a| + k && multiset(grown) == multiset(a) + multiset(kept)
    ensures forall i :: 0 <= i < |dropped| ==> Ranks(dropped[i], grown[|grown| - k])
  {
    InsertAllKeepsOrder(kept, a);
    InsertAllAdds(kept, a);
    SortedIsUnique(grown, InsertAll(kept, a));
    InsertAllRaises(kept, a, k);
    assert kept[0] == s[|s| - k];
    forall i | 0 <= i < |dropped| ensures Ranks(dropped[i], grown[|grown| - k]) {
      assert dropped[i] == s[i];
      assert Ranks(s[i], s[|s| - k]);
      RanksIsTotalOrder(s[i], s[|s| - k], grown[|grown| - k]);
    }
  }

  /** What keeping the `k` greatest means: nothing is invented, as many as possible are kept,
      and every hit left out ranks below every hit kept. */
  lemma TopMeaning(hits: seq<Hit>, k: nat) returns (left: seq<Hit>)
    ensures multiset(Top(Sorted(hits), k)) + multiset(left) == multiset(hits)
    ensures |Top(Sorted(hits), k)| == if |hits| < k then |hits| else k
    ensures forall i, j :: 0 <= i < |left| && 0 <= j < |Top(Sorted(hits), k)| ==>
      Ranks(left[i], Top(Sorted(hits), k)[j]) && left[i].score <= Top(Sorted(hits), k)[j].score
  {
    SortedMeaning(hits);
    var s := Sorted(hits);
    var kept := Top(s, k);
    left := s[..|s| - |kept|];
    assert s == left + kept;
  }

  /** Of two hits with one score, the larger key survives the `k` boundary. */
  lemma TiesKeepTheLargerKey(hits: seq<Hit>, k: nat, out: Hit, kept: Hit)
    requires out.score == kept.score && kept in Top(Sorted(hits), k)
    requires out in hits && out !in Top(Sorted(hits), k)
    ensures out.key < kept.key
  {
    var left := TopMeaning(hits, k);
    assert out in multiset(hits);
    assert out in left;
    var i :| 0 <= i < |left| && left[i] == out;
    var j :| 0 <= j < |Top(Sorted(hits), k)| && Top(Sorted(hits), k)[j] == kept;
    assert Ranks(left[i], Top(Sorted(hits), k)[j]);
  }

  // ---------------------------------------------------------------- the listing

  /** The order of the answer: score descending, then key ascending. */
  predicate Precedes(a: Hit, b: Hit)
  {
    a.score > b.score || (a.score == b.score && a.key <= b.key)
  }

  ghost predicate Listed(hits: seq<Hit>)
  {
    forall i, j :: 0 <= i < j < |hits| ==> Precedes(hits[i], hits[j])
  }

  function Flip(h: Hit): Hit
  {
    Hit(-h.score, h.key)
  }

  function Flips(hits: seq<Hit>): (r: seq<Hit>)
    ensures |r| == |hits|
    ensures forall i :: 0 <= i < |hits| ==> r[i] == Flip(hits[i])
  {
    if hits == [] then [] else Flips(hits[..|hits| - 1]) + [Flip(hits[|hits| - 1])]
  }

  /** Sorts for the answer; the rank order with the scores turned round is the answer's. */
  function Listing(hits: seq<Hit>): seq<Hit>
  {
    Flips(Sorted(Flips(hits)))
  }

  lemma {:induction false} FlipCounts(hits: seq<Hit>, h: Hit)
    ensures multiset(Flips(hits))[h] == multiset(hits)[Flip(h)]
  {
    if hits != [] {
      var init, last := hits[..|hits| - 1], hits[|hits| - 1];
      FlipCounts(init, h);
      SplitLast(hits);
      SplitLast(Flips(hits));
      assert Flips(hits)[..|hits| - 1] == Flips(init);
      assert Flip(last) == h <==> last == Flip(h);
    }
  }

  lemma FlipsKeepContents(a: seq<Hit>, b: seq<Hit>)
    requires multiset(a) == multiset(b)
    ensures multiset(Flips(a)) == multiset(Flips(b))
  {
    forall h: Hit ensures multiset(Flips(a))[h] == multiset(Flips(b))[h] {
      FlipCounts(a, h);
      FlipCounts(b, h);
    }
  }

  lemma FlipsTwice(hits: seq<Hit>)
    ensures Flips(Flips(hits)) == hits
  {
    forall i | 0 <= i < |hits| ensures Flips(Flips(hits))[i] == hits[i] {
      assert Flip(Flip(hits[i])) == hits[i];
    }
  }

  lemma FlipsTurnTheOrder(hits: seq<Hit>)
    ensures Listed(hits) <==> Ascending(Flips(hits))
  {
    forall i, j | 0 <= i < j < |hits|
      ensures Precedes(hits[i], hits[j]) <==> Ranks(Flips(hits)[i], Flips(hits)[j]) {
      assert Flips(hits)[i] == Flip(hits[i]) && Flips(hits)[j] == Flip(hits[j]);
    }
    if Ascending(Flips(hits)) {
      forall i, j | 0 <= i < j < |hits| ensures Precedes(hits[i], hits[j]) {
        assert Ranks(Flips(hits)[i], Flips(hits)[j]);
      }
    }
  }

  /** The listing is the one list with these hits in the answer's order. */
  lemma ListingMeaning(hits: seq<Hit>)
    ensures Listed(Listing(hits)) && multiset(Listing(hits)) == multiset(hits)
  {
    var s := Sorted(Flips(hits));
    SortedMeaning(Flips(hits));
    FlipsTwice(s);
    FlipsTwice(hits);
    FlipsTurnTheOrder(Flips(s));
    FlipsKeepContents(s, Flips(hits));
  }

  lemma ListingIsUnique(hits: seq<Hit>, list: seq<Hit>)
    requires Listed(list) && multiset(list) == multiset(hits)
    ensures list == Listing(hits)
  {
    SortedMeaning(Flips(hits));
    FlipsTurnTheOrder(list);
    FlipsKeepContents(list, hits);
    SortedIsUnique(Sorted(Flips(hits)), Flips(list));
    FlipsTwice(list);
  }
}
