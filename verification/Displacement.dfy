/** The expansion-displacement guard (`displacement.rs`). Rows are primaries or expansions;
    at a protected rank an expansion may stand above the next primary below it only if its
    score passes the margin test. The test itself is any predicate `passes(expansion, primary)`. */
module Displacement {

  datatype Row<S> = Row(score: S, isExpansion: bool)

  /** The test of the source, in exact arithmetic. */
  predicate PassesMargin(margin: real, score: real, primaryScore: real)
  {
    score > 0.0 && primaryScore > 0.0 && score >= margin * primaryScore
  }

  // ---------------------------------------------------------------- permutations

  ghost predicate InRange(perm: seq<nat>)
  {
    forall i :: 0 <= i < |perm| ==> perm[i] < |perm|
  }

  ghost predicate Distinct(perm: seq<nat>)
  {
    forall i, j :: 0 <= i < j < |perm| ==> perm[i] != perm[j]
  }

  ghost predicate IsPermutation(perm: seq<nat>)
  {
    InRange(perm) && Distinct(perm)
  }

  function Identity(n: nat): seq<nat>
  {
    seq(n, i => i)
  }

  function Swap<T>(s: seq<T>, i: nat, j: nat): seq<T>
    requires i < |s| && j < |s|
  {
    s[i := s[j]][j := s[i]]
  }

  /** The rows reordered: rank `r` holds the row that was at `perm[r]`. */
  function Applied<T>(items: seq<T>, perm: seq<nat>): seq<T>
    requires |perm| == |items| && forall i :: 0 <= i < |perm| ==> perm[i] < |items|
  {
    seq(|perm|, r requires 0 <= r < |perm| => items[perm[r]])
  }

  // ---------------------------------------------------------------- the walk, as a function

  /** The nearest primary below `rank`, or the length when there is none. */
  function NearestPrimary<S>(rows: seq<Row<S>>, rank: nat): (p: nat)
    requires rank < |rows|
    ensures rank < p <= |rows|
    ensures forall i :: rank < i < p ==> rows[i].isExpansion
    ensures p < |rows| ==> !rows[p].isExpansion
    decreases |rows| - rank
  {
    if rank + 1 == |rows| then |rows|
    else if !rows[rank + 1].isExpansion then rank + 1
    else NearestPrimary(rows, rank + 1)
  }

  /** The policy at one rank. */
  predicate Settled<S>(rows: seq<Row<S>>, passes: (S, S) -> bool, rank: nat)
    requires rank < |rows|
  {
    rows[rank].isExpansion ==>
      var p := NearestPrimary(rows, rank);
      p < |rows| ==> passes(rows[rank].score, rows[p].score)
  }

  ghost predicate Conforms<S>(rows: seq<Row<S>>, passes: (S, S) -> bool, limit: nat)
  {
    forall rank :: 0 <= rank < limit && rank < |rows| ==> Settled(rows, passes, rank)
  }

  /** The permutation from rank `rank` on, given the one so far. */
  function Walk<S>(items: seq<Row<S>>, perm: seq<nat>, passes: (S, S) -> bool, rank: nat, limit: nat): (r: seq<nat>)
    requires |perm| == |items| && InRange(perm) && limit <= |items|
    ensures |r| == |items| && InRange(r)
    decreases limit - rank
  {
    if rank >= limit then perm
    else
      var rows := Applied(items, perm);
      Walk(items, if Settled(rows, passes, rank) then perm else Swap(perm, rank, NearestPrimary(rows, rank)),
           passes, rank + 1, limit)
  }

  function Limit(n: nat, protectedRanks: nat, active: bool): nat
  {
    if !active then 0 else if protectedRanks < n then protectedRanks else n
  }

  /** `active` is `!(margin <= 1.0)`: a margin that is no number is active, and fails every test. */
  function Guarded<S>(items: seq<Row<S>>, protectedRanks: nat, active: bool, passes: (S, S) -> bool): (perm: seq<nat>)
    ensures |perm| == |items| && InRange(perm)
  {
    Walk(items, Identity(|items|), passes, 0, Limit(|items|, protectedRanks, active))
  }

  // ---------------------------------------------------------------- the methods

  /** The deque holds the primaries of `rows` at `rank` or below it, in order. */
  ghost predicate DequeOk<S>(rows: seq<Row<S>>, deque: seq<nat>, rank: nat)
  {
    && (forall i, j :: 0 <= i < j < |deque| ==> deque[i] < deque[j])
    && (forall i :: 0 <= i < |deque| ==> deque[i] < |rows|)
    && (forall p :: rank <= p < |rows| ==> (p in deque <==> !rows[p].isExpansion))
  }

  method Primaries<S>(rows: seq<Row<S>>) returns (deque: seq<nat>)
    ensures DequeOk(rows, deque, 0)
  {
    deque := [];
    for i := 0 to |rows|
      invariant forall a, b :: 0 <= a < b < |deque| ==> deque[a] < deque[b]
      invariant forall a :: 0 <= a < |deque| ==> deque[a] < i
      invariant forall p :: 0 <= p < i ==> (p in deque <==> !rows[p].isExpansion)
    {
      if !rows[i].isExpansion {
        deque := deque + [i];
      }
    }
  }

  /** Pop the primaries at or above `rank`: the front is then the nearest one below. */
  method DropStale<S>(rows: seq<Row<S>>, deque: seq<nat>, rank: nat) returns (rest: seq<nat>)
    requires rank < |rows| && DequeOk(rows, deque, rank)
    ensures DequeOk(rows, rest, rank + 1)
    ensures rest == [] ==> NearestPrimary(rows, rank) == |rows|
    ensures rest != [] ==> rest[0] == NearestPrimary(rows, rank) < |rows|
  {
    rest := deque;
    while rest != [] && rest[0] <= rank
      invariant forall i, j :: 0 <= i < j < |rest| ==> rest[i] < rest[j]
      invariant forall i :: 0 <= i < |rest| ==> rest[i] < |rows|
      invariant forall p :: rank < p < |rows| ==> (p in rest <==> !rows[p].isExpansion)
    {
      ghost var before := rest;
      rest := rest[1..];
      assert before == [before[0]] + rest;
    }
    ghost var p := NearestPrimary(rows, rank);
    assert p < |rows| ==> p in rest;
    assert rest != [] ==> rest[0] in rest;
  }

  method DisplacementPermutation<S>(items: seq<Row<S>>, protectedRanks: nat, active: bool, passes: (S, S) -> bool)
    returns (perm: seq<nat>)
    ensures perm == Guarded(items, protectedRanks, active, passes)
  {
    var n := |items|;
    perm := Identity(n);
    if n == 0 || protectedRanks == 0 || !active {
      return;
    }
    var work := items;
    var limit := if protectedRanks < n then protectedRanks else n;
    var primaries := Primaries(work);
    assert work == Applied(items, perm);
    for rank := 0 to limit
      invariant |perm| == n && InRange(perm) && work == Applied(items, perm)
      invariant DequeOk(work, primaries, rank)
      invariant Walk(items, perm, passes, rank, limit) == Guarded(items, protectedRanks, active, passes)
    {
      primaries := DropStale(work, primaries, rank);
      if !work[rank].isExpansion || primaries == [] {
        continue;
      }
      var p := primaries[0];
      if passes(work[rank].score, work[p].score) {
        continue;
      }
      ghost var before := work;
      SwapApplied(items, perm, rank, p);
      work := Swap(work, rank, p);
      perm := Swap(perm, rank, p);
      ghost var deque := primaries;
      primaries := primaries[1..];
      DequeAfterSwap(before, deque, rank, p);
    }
  }

  lemma SwapApplied<T>(items: seq<T>, perm: seq<nat>, i: nat, j: nat)
    requires |perm| == |items| && InRange(perm) && i < |perm| && j < |perm|
    ensures Applied(items, Swap(perm, i, j)) == Swap(Applied(items, perm), i, j)
  {}

  lemma DequeAfterSwap<S>(rows: seq<Row<S>>, deque: seq<nat>, rank: nat, p: nat)
    requires rank < p < |rows| && DequeOk(rows, deque, rank + 1) && deque != [] && deque[0] == p
    requires rows[rank].isExpansion
    ensures DequeOk(Swap(rows, rank, p), deque[1..], rank + 1)
  {
    assert deque == [p] + deque[1..];
    assert p !in deque[1..];
  }

  /** Reorder in place along the cycles of `perm`; `perm` ends as the identity. */
  method ApplyInPlace<T>(items: array<T>, perm: array<nat>)
    requires items.Length == perm.Length && IsPermutation(perm[..])
    requires items as object != perm as object
    modifies items, perm
    ensures items[..] == Applied(old(items[..]), old(perm[..]))
    ensures perm[..] == Identity(perm.Length)
  {
    ghost var old_items, target := items[..], perm[..];
    ghost var placed: set<nat> := {};
    for start := 0 to perm.Length
      invariant items[..] == Partly(old_items, target, placed)
      invariant perm[..] == PartlyFixed(target, placed)
      invariant forall i :: 0 <= i < start ==> i in placed
      invariant forall i :: i in placed ==> i < |target|
      invariant forall i :: 0 <= i < |target| && i !in placed ==> target[i] !in placed
    {
      if perm[start] == start {
        assert start !in placed ==> target[start] == start;
        FixedPoint(target, placed, start);
        placed := placed + {start};
        continue;
      }
      placed := RotateCycle(items, perm, start, old_items, target, placed);
    }
  }

  /** The rows with the positions in `placed` already final. */
  ghost function Partly<T>(items: seq<T>, target: seq<nat>, placed: set<nat>): seq<T>
    requires |target| == |items| && InRange(target)
  {
    seq(|items|, i requires 0 <= i < |items| => if i in placed then items[target[i]] else items[i])
  }

  ghost function PartlyFixed(target: seq<nat>, placed: set<nat>): seq<nat>
  {
    seq(|target|, i requires 0 <= i < |target| => if i in placed then i else target[i])
  }

  lemma FixedPoint(target: seq<nat>, placed: set<nat>, start: nat)
    requires IsPermutation(target) && start < |target|
    requires start !in placed ==> target[start] == start
    requires forall i :: 0 <= i < |target| && i !in placed ==> target[i] !in placed
    ensures forall i :: 0 <= i < |target| && i !in placed + {start} ==> target[i] !in placed + {start}
  {
    forall i | 0 <= i < |target| && i !in placed + {start} ensures target[i] != start {
      if start in placed {
        assert target[i] !in placed;
      } else if i < start {
        assert target[i] != target[start];
      } else {
        assert target[start] != target[i];
      }
    }
  }

  method RotateCycle<T>(items: array<T>, perm: array<nat>, start: nat,
                        ghost was: seq<T>, ghost target: seq<nat>, ghost placed: set<nat>)
    returns (ghost now: set<nat>)
    requires items as object != perm as object
    requires start < perm.Length == items.Length == |target| == |was| && IsPermutation(target)
    requires perm[start] != start
    requires items[..] == Partly(was, target, placed) && perm[..] == PartlyFixed(target, placed)
    requires forall i :: i in placed ==> i < |target|
    requires forall i :: 0 <= i < |target| && i !in placed ==> target[i] !in placed
    modifies items, perm
    ensures items[..] == Partly(was, target, now) && perm[..] == PartlyFixed(target, now)
    ensures placed + {start} <= now && forall i :: i in now ==> i < |target|
    ensures forall i :: 0 <= i < |target| && i !in now ==> target[i] !in now
  {
    var current := start;
    var saved := items[start];
    now := placed;
    while true
      invariant current < |target| && current !in now && placed <= now
      invariant forall i :: i in now ==> i < |target|
      invariant items[..] == Partly(was, target, now)
      invariant perm[..] == PartlyFixed(target, now)
      invariant saved == was[start]
      invariant current == start ==> now == placed
      invariant current != start ==> start in now && exists i :: i in now && target[i] == current
      invariant forall i :: 0 <= i < |target| && i !in now ==> target[i] == start || target[i] !in now
      invariant start in now || start == current
      decreases |target| - |now|
    {
      var next := perm[current];
      assert next == target[current];
      CountBelow(now + {current}, |target|);
      if next == start {
        break;
      }
      StepOn(target, now, start, current);
      assert items[next] == was[next];
      items[current] := items[next];
      perm[current] := current;
      now := now + {current};
      current := next;
    }
    LastStep(target, now, start, current);
    items[current] := saved;
    perm[current] := current;
    now := now + {current};
  }

  lemma CountBelow(s: set<nat>, n: nat)
    requires forall i :: i in s ==> i < n
    ensures |s| <= n
  {
    if n > 0 {
      CountBelow(s - {n - 1}, n - 1);
      if n - 1 in s { assert |s - {n - 1}| == |s| - 1; } else { assert s - {n - 1} == s; }
    } else {
      assert s == {};
    }
  }

  lemma StepOn(target: seq<nat>, now: set<nat>, start: nat, current: nat)
    requires IsPermutation(target) && current < |target| && start < |target| && current !in now
    requires target[current] != start
    requires current != start ==> exists i :: i in now && i < |target| && target[i] == current
    requires forall i :: 0 <= i < |target| && i !in now ==> target[i] == start || target[i] !in now
    ensures target[current] !in now && target[current] != current
    ensures forall i :: 0 <= i < |target| && i !in now + {current} ==>
      target[i] == start || target[i] !in now + {current}
  {
    if current != start { PredecessorIsPlaced(target, now, current); }
  }

  /** A position has one predecessor, so once that is placed no other leads to it. */
  lemma PredecessorIsPlaced(target: seq<nat>, now: set<nat>, current: nat)
    requires IsPermutation(target)
    requires exists i :: i in now && i < |target| && target[i] == current
    ensures forall i :: 0 <= i < |target| && target[i] == current ==> i in now
  {}

  lemma LastStep(target: seq<nat>, now: set<nat>, start: nat, current: nat)
    requires IsPermutation(target) && current < |target| && start < |target| && current !in now
    requires target[current] == start
    requires current != start ==> start in now && exists i :: i in now && i < |target| && target[i] == current
    requires forall i :: 0 <= i < |target| && i !in now ==> target[i] == start || target[i] !in now
    ensures forall i :: 0 <= i < |target| && i !in now + {current} ==> target[i] !in now + {current}
  {
    assert forall i :: 0 <= i < |target| && target[i] == start ==> i == current;
    if current != start { PredecessorIsPlaced(target, now, current); }
  }

  /** The guard on rows in place. */
  method EnforceDisplacementGuard<S>(items: array<Row<S>>, protectedRanks: nat, active: bool, passes: (S, S) -> bool)
    modifies items
    ensures items[..] == Applied(old(items[..]), Guarded(old(items[..]), protectedRanks, active, passes))
  {
    var order := DisplacementPermutation(items[..], protectedRanks, active, passes);
    GuardedIsPermutation(items[..], protectedRanks, active, passes);
    var perm := new nat[|order|](i requires 0 <= i < |order| => order[i]);
    assert perm[..] == order;
    ApplyInPlace(items, perm);
  }

  // ---------------------------------------------------------------- what the guard promises

  lemma SwapIsPermutation(perm: seq<nat>, i: nat, j: nat)
    requires IsPermutation(perm) && i < j < |perm|
    ensures IsPermutation(Swap(perm, i, j))
  {}

  lemma {:induction false} WalkIsPermutation<S>(items: seq<Row<S>>, perm: seq<nat>, passes: (S, S) -> bool, rank: nat,
                                                limit: nat)
    requires |perm| == |items| && IsPermutation(perm) && limit <= |items|
    ensures IsPermutation(Walk(items, perm, passes, rank, limit))
    decreases limit - rank
  {
    if rank < limit {
      var rows := Applied(items, perm);
      if Settled(rows, passes, rank) {
        WalkIsPermutation(items, perm, passes, rank + 1, limit);
      } else {
        SwapIsPermutation(perm, rank, NearestPrimary(rows, rank));
        WalkIsPermutation(items, Swap(perm, rank, NearestPrimary(rows, rank)), passes, rank + 1, limit);
      }
    }
  }

  /** The guard loses no row and repeats none. */
  lemma GuardedIsPermutation<S>(items: seq<Row<S>>, protectedRanks: nat, active: bool, passes: (S, S) -> bool)
    ensures IsPermutation(Guarded(items, protectedRanks, active, passes))
  {
    WalkIsPermutation(items, Identity(|items|), passes, 0, Limit(|items|, protectedRanks, active));
  }

  /** Moving a primary up to `rank` leaves the ranks above as settled as they were: the
      nearest primary below them, if it changes place, is that same row. */
  lemma SwapKeepsSettled<S>(rows: seq<Row<S>>, passes: (S, S) -> bool, above: nat, rank: nat)
    requires above < rank < |rows| && rows[rank].isExpansion && NearestPrimary(rows, rank) < |rows|
    requires Settled(rows, passes, above)
    ensures Settled(Swap(rows, rank, NearestPrimary(rows, rank)), passes, above)
  {
    var p, q := NearestPrimary(rows, rank), NearestPrimary(rows, above);
    var swapped := Swap(rows, rank, p);
    assert swapped[above] == rows[above] && swapped[rank] == rows[p];
    assert forall i :: above < i < rank ==> swapped[i] == rows[i];
    if q < rank {
      NearestIs(swapped, above, q);
    } else {
      assert q != rank;
      NearestIs(rows, rank, q);
      NearestIs(swapped, above, rank);
    }
  }

  lemma NearestIs<S>(rows: seq<Row<S>>, rank: nat, p: nat)
    requires rank < p < |rows| && !rows[p].isExpansion
    requires forall i :: rank < i < p ==> rows[i].isExpansion
    ensures NearestPrimary(rows, rank) == p
  {}

  lemma {:induction false} WalkConforms<S>(items: seq<Row<S>>, perm: seq<nat>, passes: (S, S) -> bool, rank: nat,
                                           limit: nat)
    requires |perm| == |items| && InRange(perm) && rank <= limit <= |items|
    requires Conforms(Applied(items, perm), passes, rank)
    ensures Conforms(Applied(items, Walk(items, perm, passes, rank, limit)), passes, limit)
    decreases limit - rank
  {
    if rank < limit {
      var rows := Applied(items, perm);
      if Settled(rows, passes, rank) {
        WalkConforms(items, perm, passes, rank + 1, limit);
      } else {
        var p := NearestPrimary(rows, rank);
        SwapApplied(items, perm, rank, p);
        forall above | 0 <= above < rank ensures Settled(Swap(rows, rank, p), passes, above) {
          SwapKeepsSettled(rows, passes, above, rank);
        }
        WalkConforms(items, Swap(perm, rank, p), passes, rank + 1, limit);
      }
    }
  }

  /** The policy holds at every protected rank of the result: an expansion there has no
      primary below it or passes the margin test against the nearest one. */
  lemma GuardedConforms<S>(items: seq<Row<S>>, protectedRanks: nat, active: bool, passes: (S, S) -> bool)
    ensures var rows := Applied(items, Guarded(items, protectedRanks, active, passes));
            active ==> forall rank :: 0 <= rank < protectedRanks && rank < |rows| ==> Settled(rows, passes, rank)
  {
    WalkConforms(items, Identity(|items|), passes, 0, Limit(|items|, protectedRanks, active));
  }

  /** Primaries stay in order and never move down; expansions never move up. */
  ghost predicate Fair<S>(items: seq<Row<S>>, perm: seq<nat>)
    requires |perm| == |items| && InRange(perm)
  {
    && (forall i, j :: 0 <= i < j < |perm| && !items[perm[i]].isExpansion && !items[perm[j]].isExpansion ==>
          perm[i] < perm[j])
    && (forall i :: 0 <= i < |perm| && !items[perm[i]].isExpansion ==> i <= perm[i])
    && (forall i :: 0 <= i < |perm| && items[perm[i]].isExpansion ==> perm[i] <= i)
  }

  lemma SwapIsFair<S>(items: seq<Row<S>>, perm: seq<nat>, rank: nat, p: nat)
    requires |perm| == |items| && InRange(perm) && Fair(items, perm) && rank < p < |perm|
    requires items[perm[rank]].isExpansion && !items[perm[p]].isExpansion
    requires forall i :: rank < i < p ==> items[perm[i]].isExpansion
    ensures Fair(items, Swap(perm, rank, p))
  {}

  lemma {:induction false} WalkIsFair<S>(items: seq<Row<S>>, perm: seq<nat>, passes: (S, S) -> bool, rank: nat,
                                         limit: nat)
    requires |perm| == |items| && InRange(perm) && limit <= |items| && Fair(items, perm)
    ensures Fair(items, Walk(items, perm, passes, rank, limit))
    decreases limit - rank
  {
    if rank < limit {
      var rows := Applied(items, perm);
      if Settled(rows, passes, rank) {
        WalkIsFair(items, perm, passes, rank + 1, limit);
      } else {
        var p := NearestPrimary(rows, rank);
        forall i | rank < i < p ensures items[perm[i]].isExpansion {
          assert rows[i].isExpansion;
        }
        SwapIsFair(items, perm, rank, p);
        WalkIsFair(items, Swap(perm, rank, p), passes, rank + 1, limit);
      }
    }
  }

  lemma GuardedIsFair<S>(items: seq<Row<S>>, protectedRanks: nat, active: bool, passes: (S, S) -> bool)
    ensures Fair(items, Guarded(items, protectedRanks, active, passes))
  {
    WalkIsFair(items, Identity(|items|), passes, 0, Limit(|items|, protectedRanks, active));
  }

  lemma {:induction false} WalkOfConforming<S>(items: seq<Row<S>>, passes: (S, S) -> bool, rank: nat, limit: nat)
    requires limit <= |items| && Conforms(items, passes, limit)
    ensures Walk(items, Identity(|items|), passes, rank, limit) == Identity(|items|)
    decreases limit - rank
  {
    assert Applied(items, Identity(|items|)) == items;
    if rank < limit {
      WalkOfConforming(items, passes, rank + 1, limit);
    }
  }

  /** The guard moves nothing exactly when it is off or the rows already conform. */
  lemma IdentityIffConforming<S>(items: seq<Row<S>>, protectedRanks: nat, active: bool, passes: (S, S) -> bool)
    ensures Guarded(items, protectedRanks, active, passes) == Identity(|items|) <==>
            !active || Conforms(items, passes, protectedRanks)
  {
    var limit := Limit(|items|, protectedRanks, active);
    assert Applied(items, Identity(|items|)) == items;
    if Conforms(items, passes, protectedRanks) {
      WalkOfConforming(items, passes, 0, limit);
    }
    GuardedConforms(items, protectedRanks, active, passes);
  }

  /** A row that was moved up, to a rank before `done`, is a primary that an expansion now below
      it had stood above, failing the test against it. */
  ghost predicate Forced<S>(items: seq<Row<S>>, perm: seq<nat>, passes: (S, S) -> bool, done: nat)
    requires |perm| == |items| && InRange(perm)
  {
    forall r :: 0 <= r < |perm| && perm[r] > r ==>
      r < done && !items[perm[r]].isExpansion && exists j :: Outranked(items, perm, passes, r, j)
  }

  ghost predicate Outranked<S>(items: seq<Row<S>>, perm: seq<nat>, passes: (S, S) -> bool, r: nat, j: int)
    requires |perm| == |items| && InRange(perm) && r < |perm|
  {
    && r < j < |perm| && items[perm[j]].isExpansion && perm[j] <= r
    && !passes(items[perm[j]].score, items[perm[r]].score)
  }

  lemma SwapIsForced<S>(items: seq<Row<S>>, perm: seq<nat>, passes: (S, S) -> bool, rank: nat, p: nat)
    requires |perm| == |items| && InRange(perm) && Fair(items, perm) && Forced(items, perm, passes, rank)
    requires rank < p < |perm| && items[perm[rank]].isExpansion && !items[perm[p]].isExpansion
    requires !passes(items[perm[rank]].score, items[perm[p]].score)
    ensures Forced(items, Swap(perm, rank, p), passes, rank + 1)
  {
    var perm' := Swap(perm, rank, p);
    forall r | 0 <= r < |perm'| && perm'[r] > r
      ensures r < rank + 1 && !items[perm'[r]].isExpansion && exists j :: Outranked(items, perm', passes, r, j)
    {
      if r == rank {
        assert Outranked(items, perm', passes, r, p);
      } else if r != p {
        var j :| Outranked(items, perm, passes, r, j);
        assert Outranked(items, perm', passes, r, if j == rank then p else j);
      }
    }
  }

  lemma {:induction false} WalkIsForced<S>(items: seq<Row<S>>, perm: seq<nat>, passes: (S, S) -> bool, rank: nat,
                                           limit: nat)
    requires |perm| == |items| && InRange(perm) && rank <= limit <= |items|
    requires Fair(items, perm) && Forced(items, perm, passes, rank)
    ensures Forced(items, Walk(items, perm, passes, rank, limit), passes, limit)
    decreases limit - rank
  {
    if rank < limit {
      var rows := Applied(items, perm);
      if Settled(rows, passes, rank) {
        WalkIsForced(items, perm, passes, rank + 1, limit);
      } else {
        var p := NearestPrimary(rows, rank);
        forall i | rank < i < p ensures items[perm[i]].isExpansion {
          assert rows[i].isExpansion;
        }
        SwapIsFair(items, perm, rank, p);
        SwapIsForced(items, perm, passes, rank, p);
        WalkIsForced(items, Swap(perm, rank, p), passes, rank + 1, limit);
      }
    }
  }

  /** The guard moves up nothing it need not: a row that ends above where it stood is a primary,
      at a protected rank, and an expansion that had stood there or above, failing the test
      against it, is now below it. */
  lemma EveryMoveIsForced<S>(items: seq<Row<S>>, protectedRanks: nat, active: bool, passes: (S, S) -> bool, r: nat)
    requires r < |items| && Guarded(items, protectedRanks, active, passes)[r] > r
    ensures active && r < protectedRanks
    ensures var perm := Guarded(items, protectedRanks, active, passes);
            && !items[perm[r]].isExpansion
            && exists j :: r < j < |perm| && items[perm[j]].isExpansion && perm[j] <= r
                           && !passes(items[perm[j]].score, items[perm[r]].score)
  {
    WalkIsForced(items, Identity(|items|), passes, 0, Limit(|items|, protectedRanks, active));
    var perm := Guarded(items, protectedRanks, active, passes);
    var j :| Outranked(items, perm, passes, r, j);
    assert r < j < |perm| && items[perm[j]].isExpansion && perm[j] <= r;
  }

  /** Guarding twice is guarding once. */
  lemma GuardIsIdempotent<S>(items: seq<Row<S>>, protectedRanks: nat, active: bool, passes: (S, S) -> bool)
    ensures var once := Applied(items, Guarded(items, protectedRanks, active, passes));
            Applied(once, Guarded(once, protectedRanks, active, passes)) == once
  {
    var once := Applied(items, Guarded(items, protectedRanks, active, passes));
    GuardedConforms(items, protectedRanks, active, passes);
    IdentityIffConforming(once, protectedRanks, active, passes);
    assert Applied(once, Identity(|once|)) == once;
  }

  /** The guard as shipped: the margin test in exact arithmetic, active for margins above 1. */
  lemma MarginIsKept(items: seq<Row<real>>, protectedRanks: nat, margin: real, rank: nat)
    requires margin > 1.0 && rank < protectedRanks && rank < |items|
    ensures var passes := (score: real, primary: real) => PassesMargin(margin, score, primary);
            var rows := Applied(items, Guarded(items, protectedRanks, margin > 1.0, passes));
            forall p :: rank < p < |rows| && rows[rank].isExpansion && !rows[p].isExpansion
                        && (forall i :: rank < i < p ==> rows[i].isExpansion) ==>
              rows[p].score > 0.0 && rows[rank].score >= margin * rows[p].score
  {
    var passes := (score: real, primary: real) => PassesMargin(margin, score, primary);
    var rows := Applied(items, Guarded(items, protectedRanks, margin > 1.0, passes));
    GuardedConforms(items, protectedRanks, margin > 1.0, passes);
    forall p | rank < p < |rows| && rows[rank].isExpansion && !rows[p].isExpansion
               && (forall i :: rank < i < p ==> rows[i].isExpansion)
      ensures rows[p].score > 0.0 && rows[rank].score >= margin * rows[p].score
    {
      NearestIs(rows, rank, p);
      assert Settled(rows, passes, rank);
      assert PassesMargin(margin, rows[rank].score, rows[p].score);
    }
  }

  /** At rank `rank` stands an expansion, and the nearest primary below it is at `p`. */
  ghost predicate StandsAbove(rows: seq<Row<real>>, rank: nat, p: nat)
  {
    && rank < p < |rows| && rows[rank].isExpansion && !rows[p].isExpansion
    && forall i :: rank < i < p ==> rows[i].isExpansion
  }

  /** The guard as shipped stands still exactly when the margin is 1 or less, or at every
      protected rank an expansion above a primary has a positive score of at least the margin
      times that primary's, which is positive too. */
  lemma ShippedGuardStandsStillIff(items: seq<Row<real>>, protectedRanks: nat, margin: real)
    ensures var passes := (score: real, primary: real) => PassesMargin(margin, score, primary);
            Guarded(items, protectedRanks, margin > 1.0, passes) == Identity(|items|) <==>
            (margin <= 1.0
             || forall rank, p :: 0 <= rank < protectedRanks && 0 <= p && StandsAbove(items, rank, p) ==>
                  items[rank].score > 0.0 && items[p].score > 0.0 && items[rank].score >= margin * items[p].score)
  {
    hide Guarded;
    var passes := (score: real, primary: real) => PassesMargin(margin, score, primary);
    IdentityIffConforming(items, protectedRanks, margin > 1.0, passes);
    if Conforms(items, passes, protectedRanks) {
      forall rank, p | 0 <= rank < protectedRanks && 0 <= p && StandsAbove(items, rank, p)
        ensures items[rank].score > 0.0 && items[p].score > 0.0 && items[rank].score >= margin * items[p].score
      {
        NearestIs(items, rank, p);
        assert Settled(items, passes, rank);
      }
    }
    if forall rank, p :: 0 <= rank < protectedRanks && 0 <= p && StandsAbove(items, rank, p) ==>
         items[rank].score > 0.0 && items[p].score > 0.0 && items[rank].score >= margin * items[p].score {
      forall rank | 0 <= rank < protectedRanks && rank < |items| ensures Settled(items, passes, rank) {
        var p := NearestPrimary(items, rank);
        assert items[rank].isExpansion && p < |items| ==> StandsAbove(items, rank, p);
      }
    }
  }
}
