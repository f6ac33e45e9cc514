/** The in-memory relationship graph (`m3-graph`): insertion, breadth-first search and
    shortest path. */
module Graph {
  import opened Options

  datatype Relationship = Relationship(kind: string, weight: real)

  datatype Edge = Edge(source: nat, target: nat, rel: Relationship)

  /** Targets of the edges out of each node, in the order the graph yields them. */
  type Adjacency = seq<seq<nat>>

  ghost predicate WellFormed(adj: Adjacency)
  {
    forall u, k :: 0 <= u < |adj| && 0 <= k < |adj[u]| ==> adj[u][k] < |adj|
  }

  // ---------------------------------------------------------------- distance

  /** A walk of exactly `d` edges from `s` to `v`. */
  ghost predicate Walk(adj: Adjacency, s: nat, v: nat, d: nat)
    decreases d
  {
    if d == 0 then s == v
    else exists u :: 0 <= u < |adj| && Walk(adj, s, u, d - 1) && v in adj[u]
  }

  ghost predicate IsDistance(adj: Adjacency, s: nat, v: nat, d: nat)
  {
    Walk(adj, s, v, d) && forall e: nat :: e < d ==> !Walk(adj, s, v, e)
  }

  ghost predicate Reachable(adj: Adjacency, s: nat, v: nat)
  {
    exists d: nat :: Walk(adj, s, v, d)
  }

  lemma DistanceIsUnique(adj: Adjacency, s: nat, v: nat, d: nat, e: nat)
    requires IsDistance(adj, s, v, d) && IsDistance(adj, s, v, e)
    ensures d == e
  {}

  lemma DistanceIsLeast(adj: Adjacency, s: nat, v: nat, d: nat, k: nat)
    requires IsDistance(adj, s, v, d) && Walk(adj, s, v, k)
    ensures d <= k
  {}

  lemma {:induction false} ReachableHasDistance(adj: Adjacency, s: nat, v: nat, d: nat) returns (least: nat)
    requires Walk(adj, s, v, d)
    ensures least <= d && IsDistance(adj, s, v, least)
  {
    if e: nat :| e < d && Walk(adj, s, v, e) {
      least := ReachableHasDistance(adj, s, v, e);
    } else {
      least := d;
    }
  }

  /** A path lists the nodes of a walk, both ends included. */
  ghost predicate IsPath(adj: Adjacency, path: seq<nat>, s: nat, t: nat)
  {
    && path != [] && path[0] == s && path[|path| - 1] == t
    && (forall i :: 0 <= i < |path| ==> path[i] < |adj|)
    && forall i :: 0 <= i < |path| - 1 ==> path[i + 1] in adj[path[i]]
  }

  lemma {:induction false} PathIsWalk(adj: Adjacency, path: seq<nat>, s: nat, t: nat)
    requires IsPath(adj, path, s, t)
    ensures Walk(adj, s, t, |path| - 1)
  {
    if |path| > 1 {
      var init := path[..|path| - 1];
      PathIsWalk(adj, init, s, init[|init| - 1]);
      assert path[|path| - 2 + 1] in adj[init[|init| - 1]];
    }
  }

  // ---------------------------------------------------------------- the search state

  datatype Visit = Visit(node: nat, dist: nat)

  /** What a search from `s` knows: the nodes it has seen, in order of discovery, each with
      its true distance; all within reach of those expanded so far. */
  ghost predicate Discovered(adj: Adjacency, s: nat, visits: seq<Visit>)
  {
    && visits != [] && visits[0] == Visit(s, 0)
    && (forall i :: 0 <= i < |visits| ==> visits[i].node < |adj| && IsDistance(adj, s, visits[i].node, visits[i].dist))
    && (forall i, j :: 0 <= i < j < |visits| ==> visits[i].node != visits[j].node)
    && (forall i, j :: 0 <= i < j < |visits| ==> visits[i].dist <= visits[j].dist)
  }

  ghost predicate Has(visits: seq<Visit>, v: nat)
  {
    exists i :: 0 <= i < |visits| && visits[i].node == v
  }

  predicate Under(dist: nat, limit: Option<nat>)
  {
    limit.Some? ==> dist < limit.value
  }

  /** The first `done` visits below the hop limit have had all their edges followed. */
  ghost predicate Expanded(adj: Adjacency, visits: seq<Visit>, done: nat, limit: Option<nat>)
    requires done <= |visits|
  {
    forall i, v :: 0 <= i < done && visits[i].node < |adj| && Under(visits[i].dist, limit) && v in adj[visits[i].node]
      ==> Has(visits, v)
  }

  /** Everything no further than the next visit to expand has been discovered. */
  lemma {:induction false} NearIsDiscovered(adj: Adjacency, s: nat, visits: seq<Visit>, done: nat, limit: Option<nat>,
                                            v: nat, k: nat)
    requires Discovered(adj, s, visits) && done <= |visits| && Expanded(adj, visits, done, limit)
    requires Walk(adj, s, v, k) && (limit.Some? ==> k <= limit.value)
    requires done < |visits| ==> k <= visits[done].dist
    ensures Has(visits, v)
    decreases k
  {
    if k == 0 {
      assert visits[0].node == v;
    } else {
      var u :| 0 <= u < |adj| && Walk(adj, s, u, k - 1) && v in adj[u];
      NearIsDiscovered(adj, s, visits, done, limit, u, k - 1);
      var i :| 0 <= i < |visits| && visits[i].node == u;
      DistanceIsLeast(adj, s, u, visits[i].dist, k - 1);
    }
  }

  /** A node met for the first time from a visit at distance `d` is at distance `d + 1`. */
  lemma NewIsOneFurther(adj: Adjacency, s: nat, visits: seq<Visit>, done: nat, limit: Option<nat>, v: nat)
    requires Discovered(adj, s, visits) && done < |visits| && Expanded(adj, visits, done, limit)
    requires Under(visits[done].dist, limit) && v in adj[visits[done].node] && !Has(visits, v)
    ensures IsDistance(adj, s, v, visits[done].dist + 1)
  {
    var d := visits[done].dist;
    assert Walk(adj, s, v, d + 1);
    forall e: nat | e < d + 1 ensures !Walk(adj, s, v, e) {
      if Walk(adj, s, v, e) { NearIsDiscovered(adj, s, visits, done, limit, v, e); }
    }
  }

  /** One more discovery at the end of the queue. */
  lemma Discover(adj: Adjacency, s: nat, visits: seq<Visit>, done: nat, limit: Option<nat>, v: nat)
    requires WellFormed(adj) && Discovered(adj, s, visits) && done < |visits| && Expanded(adj, visits, done, limit)
    requires Under(visits[done].dist, limit) && v in adj[visits[done].node] && !Has(visits, v)
    requires visits[|visits| - 1].dist <= visits[done].dist + 1
    ensures var more := visits + [Visit(v, visits[done].dist + 1)];
            && Discovered(adj, s, more) && Expanded(adj, more, done, limit)
            && (forall u :: Has(more, u) <==> Has(visits, u) || u == v)
  {
    NewIsOneFurther(adj, s, visits, done, limit, v);
    var more := visits + [Visit(v, visits[done].dist + 1)];
    HasAppend(visits, more[|visits|]);
    forall i, j | 0 <= i < j < |more| ensures more[i].node != more[j].node && more[i].dist <= more[j].dist {
      if j == |visits| {
        assert visits[i].node != v;
        assert visits[i].dist <= visits[|visits| - 1].dist;
      }
    }
  }

  lemma HasAppend(visits: seq<Visit>, visit: Visit)
    ensures forall u :: Has(visits + [visit], u) <==> Has(visits, u) || u == visit.node
  {
    var more := visits + [visit];
    forall u | Has(visits, u) || u == visit.node ensures Has(more, u) {
      if Has(visits, u) {
        var i :| 0 <= i < |visits| && visits[i].node == u;
        assert more[i].node == u;
      } else {
        assert more[|visits|].node == u;
      }
    }
  }

  lemma {:induction false} DistinctBelow(nodes: seq<nat>, n: nat)
    requires forall i :: 0 <= i < |nodes| ==> nodes[i] < n
    requires forall i, j :: 0 <= i < j < |nodes| ==> nodes[i] != nodes[j]
    ensures |nodes| <= n
    decreases n
  {
    if n > 0 {
      if i :| 0 <= i < |nodes| && nodes[i] == n - 1 {
        var rest := nodes[..i] + nodes[i + 1..];
        assert forall k :: 0 <= k < |rest| ==> rest[k] == nodes[if k < i then k else k + 1];
        DistinctBelow(rest, n - 1);
      } else {
        DistinctBelow(nodes, n - 1);
      }
    } else {
      FirstIsNat(nodes);
    }
  }

  lemma FirstIsNat(nodes: seq<nat>)
    ensures nodes == [] || 0 <= nodes[0]
  {}

  lemma VisitsAreFew(adj: Adjacency, s: nat, visits: seq<Visit>)
    requires Discovered(adj, s, visits)
    ensures |visits| <= |adj|
  {
    DistinctBelow(seq(|visits|, i requires 0 <= i < |visits| => visits[i].node), |adj|);
  }

  /** Dropping a hop-limited visit from the unexpanded ones, or one whose edges all lead to
      seen nodes. */
  lemma ExpandOne(adj: Adjacency, visits: seq<Visit>, done: nat, limit: Option<nat>)
    requires done < |visits| && Expanded(adj, visits, done, limit)
    requires visits[done].node < |adj| && Under(visits[done].dist, limit) ==>
               forall v :: v in adj[visits[done].node] ==> Has(visits, v)
    ensures Expanded(adj, visits, done + 1, limit)
  {}

  // ---------------------------------------------------------------- breadth-first search

  /** A search under way: `visits` discovered, the first `done` of them expanded. */
  ghost predicate Frontier(adj: Adjacency, s: nat, visits: seq<Visit>, done: nat, seen: set<nat>, limit: Option<nat>)
  {
    && done <= |visits| && Discovered(adj, s, visits) && Expanded(adj, visits, done, limit)
    && (forall v :: v in seen <==> Has(visits, v))
    && (done < |visits| ==> visits[|visits| - 1].dist <= visits[done].dist + 1)
    && (limit.Some? ==> visits[|visits| - 1].dist <= limit.value)
  }

  lemma DiscoverNext(adj: Adjacency, s: nat, visits: seq<Visit>, at: nat, seen: set<nat>, limit: Option<nat>, v: nat)
    requires WellFormed(adj) && Frontier(adj, s, visits, at, seen, limit) && at < |visits|
    requires Under(visits[at].dist, limit) && v in adj[visits[at].node] && v !in seen
    ensures Frontier(adj, s, visits + [Visit(v, visits[at].dist + 1)], at, seen + {v}, limit)
  {
    Discover(adj, s, visits, at, limit, v);
  }

  lemma ExpandNext(adj: Adjacency, s: nat, visits: seq<Visit>, at: nat, seen: set<nat>, limit: Option<nat>)
    requires Frontier(adj, s, visits, at, seen, limit) && at < |visits|
    requires visits[at].node < |adj| && Under(visits[at].dist, limit) ==>
               forall k :: 0 <= k < |adj[visits[at].node]| ==> adj[visits[at].node][k] in seen
    ensures Frontier(adj, s, visits, at + 1, seen, limit)
  {
    ExpandOne(adj, visits, at, limit);
  }

  /** What is queued is what has been met from visit `from` on. */
  ghost predicate Queued(queue: seq<Visit>, visits: seq<Visit>, from: nat)
  {
    |visits| == from + |queue| && forall i :: 0 <= i < |queue| ==> queue[i] == visits[from + i]
  }

  lemma QueuedOneMore(queue: seq<Visit>, visits: seq<Visit>, from: nat, next: Visit)
    requires Queued(queue, visits, from)
    ensures Queued(queue + [next], visits + [next], from)
    ensures (visits + [next])[..from] == visits[..from]
  {}

  lemma QueuedTail(queue: seq<Visit>, visits: seq<Visit>, from: nat)
    requires Queued(queue, visits, from) && queue != []
    ensures Queued(queue[1..], visits, from + 1) && visits[from] == queue[0]
    ensures visits[..from] + [queue[0]] == visits[..from + 1]
  {}

  /** The state of the search with the first `k` neighbours of visit `at` looked at. */
  ghost predicate Scanning(adj: Adjacency, s: nat, visits: seq<Visit>, at: nat, seen: set<nat>, limit: Option<nat>,
                           queue: seq<Visit>, visit: Visit, k: nat)
  {
    && WellFormed(adj) && Frontier(adj, s, visits, at, seen, limit) && Queued(queue, visits, at + 1)
    && visits[at] == visit && visit.node < |adj| && k <= |adj[visit.node]|
    && forall j :: 0 <= j < k ==> adj[visit.node][j] in seen
  }

  lemma ScanNew(adj: Adjacency, s: nat, visits: seq<Visit>, at: nat, seen: set<nat>, limit: Option<nat>,
                queue: seq<Visit>, visit: Visit, k: nat)
    requires Scanning(adj, s, visits, at, seen, limit, queue, visit, k) && Under(visit.dist, limit)
    requires k < |adj[visit.node]| && adj[visit.node][k] !in seen
    ensures var nbr := adj[visit.node][k];
            var next := Visit(nbr, visit.dist + 1);
            && Scanning(adj, s, visits + [next], at, seen + {nbr}, limit, queue + [next], visit, k + 1)
            && (visits + [next])[..at + 1] == visits[..at + 1]
  {
    hide Discovered, Expanded, Has;
    var nbr := adj[visit.node][k];
    DiscoverNext(adj, s, visits, at, seen, limit, nbr);
    QueuedOneMore(queue, visits, at + 1, Visit(nbr, visit.dist + 1));
  }

  /** Queue the neighbours that are new of visit number `at`, just taken from the queue. */
  method QueueNeighbors(adj: Adjacency, s: nat, visit: Visit, ghost visits: seq<Visit>, ghost at: nat,
                        queue: seq<Visit>, seen: set<nat>, ghost limit: Option<nat>)
    returns (ghost visits': seq<Visit>, queue': seq<Visit>, seen': set<nat>)
    requires WellFormed(adj) && Frontier(adj, s, visits, at, seen, limit)
    requires at < |visits| && visits[at] == visit && Under(visit.dist, limit)
    requires Queued(queue, visits, at + 1)
    ensures Frontier(adj, s, visits', at + 1, seen', limit)
    ensures Queued(queue', visits', at + 1) && visits'[..at + 1] == visits[..at + 1]
  {
    visits', queue', seen' := visits, queue, seen;
    for k := 0 to |adj[visit.node]|
      invariant Scanning(adj, s, visits', at, seen', limit, queue', visit, k)
      invariant visits'[..at + 1] == visits[..at + 1]
    {
      var nbr := adj[visit.node][k];
      if nbr !in seen' {
        ScanNew(adj, s, visits', at, seen', limit, queue', visit, k);
        seen' := seen' + {nbr};
        visits' := visits' + [Visit(nbr, visit.dist + 1)];
        queue' := queue' + [Visit(nbr, visit.dist + 1)];
      }
    }
    ExpandNext(adj, s, visits', at, seen', limit);
  }

  /** Take the next visit off the queue. */
  method VisitNext(adj: Adjacency, s: nat, ghost visits: seq<Visit>, out: seq<Visit>, queue: seq<Visit>,
                   seen: set<nat>, maxHops: nat)
    returns (ghost visits': seq<Visit>, out': seq<Visit>, queue': seq<Visit>, seen': set<nat>)
    requires WellFormed(adj) && Frontier(adj, s, visits, |out|, seen, Some(maxHops))
    requires queue != [] && Queued(queue, visits, |out|) && out == visits[..|out|]
    ensures Frontier(adj, s, visits', |out'|, seen', Some(maxHops)) && |out'| == |out| + 1
    ensures Queued(queue', visits', |out'|) && out' == visits'[..|out'|]
  {
    var visit := queue[0];
    out' := out + [visit];
    QueuedTail(queue, visits, |out|);
    if visit.dist == maxHops {
      ExpandNext(adj, s, visits, |out|, seen, Some(maxHops));
      visits', queue', seen' := visits, queue[1..], seen;
    } else {
      visits', queue', seen' := QueueNeighbors(adj, s, visit, visits, |out|, queue[1..], seen, Some(maxHops));
    }
  }

  /** Breadth-first search: every node within `maxHops`, once, with its distance. */
  method Search(adj: Adjacency, s: nat, maxHops: nat) returns (out: seq<Visit>)
    requires WellFormed(adj) && s < |adj|
    ensures Discovered(adj, s, out)
    ensures forall v :: Has(out, v) <==> exists d: nat :: d <= maxHops && IsDistance(adj, s, v, d)
    ensures forall v :: Has(out, v) <==> WithinHops(adj, s, v, maxHops)
  {
    out := [];
    var seen, queue := {s}, [Visit(s, 0)];
    ghost var visits := queue;
    assert Has(visits, s) by { assert visits[0].node == s; }
    while queue != []
      invariant Frontier(adj, s, visits, |out|, seen, Some(maxHops))
      invariant Queued(queue, visits, |out|) && out == visits[..|out|]
      decreases |adj| - |out|
    {
      VisitsAreFew(adj, s, visits);
      visits, out, queue, seen := VisitNext(adj, s, visits, out, queue, seen, maxHops);
    }
    assert out == visits;
    SearchIsComplete(adj, s, out, maxHops);
    forall v ensures Has(out, v) <==> WithinHops(adj, s, v, maxHops) {
      NearIffWalk(adj, s, v, maxHops);
    }
  }

  /** Some walk of at most so many edges leads to the node. */
  ghost predicate WithinHops(adj: Adjacency, s: nat, v: nat, hops: nat)
  {
    exists d: nat :: d <= hops && Walk(adj, s, v, d)
  }

  lemma NearIffWalk(adj: Adjacency, s: nat, v: nat, hops: nat)
    ensures (exists d: nat :: d <= hops && IsDistance(adj, s, v, d)) <==> WithinHops(adj, s, v, hops)
  {
    if d: nat :| d <= hops && IsDistance(adj, s, v, d) { assert Walk(adj, s, v, d); }
    if d: nat :| d <= hops && Walk(adj, s, v, d) {
      var least := ReachableHasDistance(adj, s, v, d);
      assert least <= d;
    }
  }

  lemma SearchIsComplete(adj: Adjacency, s: nat, out: seq<Visit>, maxHops: nat)
    requires Discovered(adj, s, out) && Expanded(adj, out, |out|, Some(maxHops))
    requires forall i :: 0 <= i < |out| ==> out[i].dist <= maxHops
    ensures forall v :: Has(out, v) <==> exists d: nat :: d <= maxHops && IsDistance(adj, s, v, d)
  {
    forall v ensures Has(out, v) <==> exists d: nat :: d <= maxHops && IsDistance(adj, s, v, d) {
      if Has(out, v) {
        var i :| 0 <= i < |out| && out[i].node == v;
        assert IsDistance(adj, s, v, out[i].dist);
      }
      if d: nat :| d <= maxHops && IsDistance(adj, s, v, d) {
        NearIsDiscovered(adj, s, out, |out|, Some(maxHops), v, d);
      }
    }
  }

  // ---------------------------------------------------------------- shortest path

  /** Visit `i` was met along an edge from an earlier visit one hop nearer. */
  ghost predicate HasParent(adj: Adjacency, visits: seq<Visit>, prev: map<nat, nat>, i: nat)
    requires i < |visits|
  {
    && visits[i].node in prev
    && exists j :: 0 <= j < i && visits[j].node == prev[visits[i].node] && visits[j].node < |adj|
                   && visits[j].dist + 1 == visits[i].dist && visits[i].node in adj[visits[j].node]
  }

  ghost predicate PrevOk(adj: Adjacency, s: nat, visits: seq<Visit>, prev: map<nat, nat>)
  {
    s !in prev && forall i :: 0 < i < |visits| ==> HasParent(adj, visits, prev, i)
  }

  lemma PrevExtends(adj: Adjacency, s: nat, visits: seq<Visit>, prev: map<nat, nat>, done: nat, v: nat)
    requires PrevOk(adj, s, visits, prev) && done < |visits| && visits[done].node < |adj|
    requires v in adj[visits[done].node] && !Has(visits, v) && v != s
    ensures PrevOk(adj, s, visits + [Visit(v, visits[done].dist + 1)], prev[v := visits[done].node])
  {
    var more, prev' := visits + [Visit(v, visits[done].dist + 1)], prev[v := visits[done].node];
    forall i | 0 < i < |more| ensures HasParent(adj, more, prev', i) {
      if i < |visits| {
        assert HasParent(adj, visits, prev, i);
        assert visits[i].node != v;
        var j :| 0 <= j < i && visits[j].node == prev[visits[i].node] && visits[j].node < |adj|
                 && visits[j].dist + 1 == visits[i].dist && visits[i].node in adj[visits[j].node];
        assert more[j] == visits[j];
      } else {
        assert more[done] == visits[done];
      }
    }
  }

  function Reversed(path: seq<nat>): seq<nat>
  {
    if path == [] then [] else Reversed(path[1..]) + [path[0]]
  }

  lemma {:induction false} ReversedAppend(path: seq<nat>, v: nat)
    ensures Reversed(path + [v]) == [v] + Reversed(path)
    ensures |Reversed(path)| == |path|
  {
    if path == [] {
      assert ([] + [v])[1..] == [];
    } else {
      ReversedAppend(path[1..], v);
      assert (path + [v])[1..] == path[1..] + [v];
    }
  }

  lemma PathPrepends(adj: Adjacency, path: seq<nat>, p: nat, cur: nat, t: nat)
    requires IsPath(adj, path, cur, t) && p < |adj| && cur in adj[p]
    ensures IsPath(adj, [p] + path, p, t)
  {
    var longer := [p] + path;
    forall i | 0 <= i < |longer| - 1 ensures longer[i + 1] in adj[longer[i]] {
      if i > 0 { assert path[i - 1 + 1] in adj[path[i - 1]]; }
    }
  }

  /** The walk back through `prev`, from the last visit to the start. */
  method WalkBack(adj: Adjacency, s: nat, ghost visits: seq<Visit>, prev: map<nat, nat>, t: nat)
    returns (path: seq<nat>)
    requires Discovered(adj, s, visits) && PrevOk(adj, s, visits, prev)
    requires visits[|visits| - 1].node == t
    ensures IsPath(adj, path, s, t) && |path| == visits[|visits| - 1].dist + 1
  {
    path := [t];
    var cur := t;
    ghost var i: nat := |visits| - 1;
    assert Reversed([t]) == [t] by { assert [t][1..] == []; }
    while cur in prev
      invariant i < |visits| && visits[i].node == cur
      invariant IsPath(adj, Reversed(path), cur, t)
      invariant |path| + visits[i].dist == visits[|visits| - 1].dist + 1
      decreases i
    {
      var p := prev[cur];
      assert i > 0 && HasParent(adj, visits, prev, i);
      ghost var j: nat :| 0 <= j < i && visits[j].node == p && visits[j].dist + 1 == visits[i].dist && cur in adj[p];
      ReversedAppend(path, p);
      PathPrepends(adj, Reversed(path), p, cur, t);
      path := path + [p];
      cur := p;
      i := j;
    }
    ghost var parented := i > 0 && HasParent(adj, visits, prev, i);
    assert !parented && i == 0;
    DistanceIsUnique(adj, s, s, visits[i].dist, 0);
    ReversedAppend(path, 0);
    path := Reversed(path);
  }

  /** A search for `t` under way: `done` visits expanded, the rest queued, `t` not seen. */
  ghost predicate Seeking(adj: Adjacency, s: nat, t: nat, visits: seq<Visit>, done: nat, seen: set<nat>,
                          prev: map<nat, nat>)
  {
    && done <= |visits| && Discovered(adj, s, visits) && Expanded(adj, visits, done, None)
    && (forall v :: v in seen <==> Has(visits, v))
    && PrevOk(adj, s, visits, prev) && t !in seen
    && (done < |visits| ==> visits[|visits| - 1].dist <= visits[done].dist + 1)
  }

  /** Follow the edges of the node at the front of the queue; stop at `t`. */
  method FollowEdges(adj: Adjacency, s: nat, t: nat, idx: nat, ghost visits: seq<Visit>, ghost done: nat,
                     queue: seq<nat>, seen: set<nat>, prev: map<nat, nat>)
    returns (path: Option<seq<nat>>, ghost visits': seq<Visit>, queue': seq<nat>, seen': set<nat>, prev': map<nat, nat>)
    requires WellFormed(adj) && Seeking(adj, s, t, visits, done, seen, prev)
    requires done < |visits| && visits[done].node == idx && done + 1 + |queue| == |visits|
    requires forall i :: 0 <= i < |queue| ==> queue[i] == visits[done + 1 + i].node
    ensures path.Some? ==> IsPath(adj, path.value, s, t) && IsDistance(adj, s, t, |path.value| - 1)
    ensures path.None? ==> Seeking(adj, s, t, visits', done + 1, seen', prev') && done + 1 + |queue'| == |visits'|
    ensures path.None? ==> forall i :: 0 <= i < |queue'| ==> queue'[i] == visits'[done + 1 + i].node
  {
    visits', queue', seen', prev' := visits, queue, seen, prev;
    for k := 0 to |adj[idx]|
      invariant Seeking(adj, s, t, visits', done, seen', prev')
      invariant done + 1 + |queue'| == |visits'| && visits'[done].node == idx
      invariant forall i :: 0 <= i < |queue'| ==> queue'[i] == visits'[done + 1 + i].node
      invariant forall j :: 0 <= j < k ==> Has(visits', adj[idx][j])
    {
      var nbr := adj[idx][k];
      if nbr !in seen' {
        assert nbr != s by { assert visits'[0].node == s; }
        Discover(adj, s, visits', done, None, nbr);
        PrevExtends(adj, s, visits', prev', done, nbr);
        seen' := seen' + {nbr};
        prev' := prev'[nbr := idx];
        visits' := visits' + [Visit(nbr, visits'[done].dist + 1)];
        if nbr == t {
          var found := WalkBack(adj, s, visits', prev', t);
          path := Some(found);
          return;
        }
        queue' := queue' + [nbr];
      }
    }
    ExpandOne(adj, visits', done, None);
    path := None;
  }

  method FindPath(adj: Adjacency, s: nat, t: nat) returns (path: Option<seq<nat>>)
    requires WellFormed(adj) && s < |adj| && t < |adj|
    ensures path.Some? <==> Reachable(adj, s, t)
    ensures path.Some? ==> IsPath(adj, path.value, s, t) && IsDistance(adj, s, t, |path.value| - 1)
  {
    if s == t {
      assert Walk(adj, s, t, 0);
      return Some([s]);
    }
    var prev: map<nat, nat>, seen, queue := map[], {s}, [s];
    ghost var visits, done := [Visit(s, 0)], 0;
    assert Has(visits, s) by { assert visits[0].node == s; }
    while queue != []
      invariant Seeking(adj, s, t, visits, done, seen, prev) && done + |queue| == |visits|
      invariant forall i :: 0 <= i < |queue| ==> queue[i] == visits[done + i].node
      decreases |adj| - done
    {
      VisitsAreFew(adj, s, visits);
      path, visits, queue, seen, prev := FollowEdges(adj, s, t, queue[0], visits, done, queue[1..], seen, prev);
      if path.Some? {
        PathMeansReachable(adj, path.value, s, t);
        return;
      }
      done := done + 1;
    }
    NothingLeft(adj, s, t, visits, seen, prev);
    return None;
  }

  lemma PathMeansReachable(adj: Adjacency, path: seq<nat>, s: nat, t: nat)
    requires IsPath(adj, path, s, t)
    ensures Reachable(adj, s, t)
  {
    PathIsWalk(adj, path, s, t);
  }

  lemma NothingLeft(adj: Adjacency, s: nat, t: nat, visits: seq<Visit>, seen: set<nat>, prev: map<nat, nat>)
    requires Seeking(adj, s, t, visits, |visits|, seen, prev)
    ensures !Reachable(adj, s, t)
  {
    forall k: nat ensures !Walk(adj, s, t, k) {
      if Walk(adj, s, t, k) { NearIsDiscovered(adj, s, visits, |visits|, None, t, k); }
    }
  }

  /** A path no longer than any walk, and the distance a search reports, are the same hops. */
  lemma PathHopsAreDistance(adj: Adjacency, path: seq<nat>, s: nat, t: nat, out: seq<Visit>, i: nat)
    requires IsPath(adj, path, s, t) && IsDistance(adj, s, t, |path| - 1)
    requires Discovered(adj, s, out) && i < |out| && out[i].node == t
    ensures out[i].dist == |path| - 1
    ensures forall other :: IsPath(adj, other, s, t) ==> |path| <= |other|
  {
    DistanceIsUnique(adj, s, t, out[i].dist, |path| - 1);
    forall other | IsPath(adj, other, s, t) ensures |path| <= |other| {
      PathIsWalk(adj, other, s, t);
    }
  }

  // ---------------------------------------------------------------- the index

  /** Targets of the edges out of `u`, newest edge first. */
  function Out(edges: seq<Edge>, u: nat): seq<nat>
  {
    if edges == [] then []
    else
      var last := edges[|edges| - 1];
      (if last.source == u then [last.target] else []) + Out(edges[..|edges| - 1], u)
  }

  lemma {:induction false} OutMeaning(edges: seq<Edge>, u: nat, v: nat)
    ensures v in Out(edges, u) <==> exists i :: 0 <= i < |edges| && edges[i].source == u && edges[i].target == v
  {
    if edges != [] {
      var init, last := edges[..|edges| - 1], edges[|edges| - 1];
      OutMeaning(init, u, v);
      assert forall i :: 0 <= i < |init| ==> init[i] == edges[i];
      assert edges[|init|] == last;
    }
  }

  function AdjacencyOf(n: nat, edges: seq<Edge>): Adjacency
  {
    seq(n, u requires 0 <= u < n => Out(edges, u))
  }

  lemma AdjacencyIsWellFormed(n: nat, edges: seq<Edge>)
    requires forall i :: 0 <= i < |edges| ==> edges[i].target < n
    ensures WellFormed(AdjacencyOf(n, edges))
  {
    var adj := AdjacencyOf(n, edges);
    forall u, k | 0 <= u < n && 0 <= k < |adj[u]| ensures adj[u][k] < n {
      OutMeaning(edges, u, adj[u][k]);
      assert adj[u][k] in Out(edges, u);
    }
  }

  /** The edge leads from the one name to the other. */
  predicate Joins(names: seq<string>, edge: Edge, from: string, to: string)
  {
    && edge.source < |names| && names[edge.source] == from
    && edge.target < |names| && names[edge.target] == to
  }

  ghost predicate Joined(names: seq<string>, edges: seq<Edge>, from: string, to: string)
  {
    exists i :: 0 <= i < |edges| && Joins(names, edges[i], from, to)
  }

  lemma JoinedOneMore(names: seq<string>, more: seq<string>, edges: seq<Edge>, edge: Edge, from: string, to: string)
    requires names <= more
    requires forall i :: 0 <= i < |edges| ==> edges[i].source < |names| && edges[i].target < |names|
    ensures Joined(more, edges + [edge], from, to) <==> Joined(names, edges, from, to) || Joins(more, edge, from, to)
  {
    assert (edges + [edge])[|edges|] == edge;
    forall i | 0 <= i < |edges|
      ensures Joins(more, (edges + [edge])[i], from, to) <==> Joins(names, edges[i], from, to)
    {}
    if Joined(names, edges, from, to) {
      var i :| 0 <= i < |edges| && Joins(names, edges[i], from, to);
      assert Joins(more, (edges + [edge])[i], from, to);
    }
  }

  function Named(names: seq<string>, nodes: seq<nat>): seq<string>
    requires forall i :: 0 <= i < |nodes| ==> nodes[i] < |names|
  {
    seq(|nodes|, i requires 0 <= i < |nodes| => names[nodes[i]])
  }

  function NamedHops(names: seq<string>, visits: seq<Visit>): seq<(string, nat)>
    requires forall i :: 0 <= i < |visits| ==> visits[i].node < |names|
  {
    seq(|visits|, i requires 0 <= i < |visits| => (names[visits[i].node], visits[i].dist))
  }

  function IdsOf(near: seq<(string, nat)>): (ids: seq<string>)
    ensures |ids| == |near| && forall i :: 0 <= i < |near| ==> ids[i] == near[i].0
  {
    if near == [] then [] else IdsOf(near[..|near| - 1]) + [near[|near| - 1].0]
  }

  /** The ids several searches found, one search after another. */
  function FoundIn(lists: seq<seq<(string, nat)>>): seq<string>
  {
    if lists == [] then [] else FoundIn(lists[..|lists| - 1]) + IdsOf(lists[|lists| - 1])
  }

  /** The ids that are no seeds, each where it first occurs. */
  function Fresh(ids: seq<string>, seeds: seq<string>): seq<string>
  {
    if ids == [] then []
    else
      var before, last := Fresh(ids[..|ids| - 1], seeds), ids[|ids| - 1];
      if last in seeds || last in before then before else before + [last]
  }

  function FirstOf(ids: seq<string>, limit: nat): seq<string>
  {
    if |ids| <= limit then ids else ids[..limit]
  }

  lemma FoundInOneMore(lists: seq<seq<(string, nat)>>, near: seq<(string, nat)>)
    ensures FoundIn(lists + [near]) == FoundIn(lists) + IdsOf(near)
  {
    assert (lists + [near])[..|lists|] == lists;
  }

  lemma FreshOneMore(before: seq<string>, near: seq<(string, nat)>, k: nat, seeds: seq<string>)
    requires k < |near|
    ensures var out, id := Fresh(before + IdsOf(near[..k]), seeds), near[k].0;
            Fresh(before + IdsOf(near[..k + 1]), seeds) == if id in seeds || id in out then out else out + [id]
  {
    assert near[..k + 1][..k] == near[..k];
    var ids := before + IdsOf(near[..k + 1]);
    assert ids[..|ids| - 1] == before + IdsOf(near[..k]) && ids[|ids| - 1] == near[k].0;
  }

  lemma {:induction false} FreshGrows(before: seq<string>, near: seq<(string, nat)>, k: nat, n: nat, seeds: seq<string>)
    requires k <= n <= |near|
    ensures Fresh(before + IdsOf(near[..k]), seeds) <= Fresh(before + IdsOf(near[..n]), seeds)
  {
    if k < n {
      FreshGrows(before, near, k, n - 1, seeds);
      FreshOneMore(before, near, n - 1, seeds);
    }
  }

  /** Once the limit is reached the rest of the search changes nothing. */
  lemma FreshUpTo(before: seq<string>, near: seq<(string, nat)>, k: nat, seeds: seq<string>, limit: nat)
    requires k <= |near| && |Fresh(before + IdsOf(near[..k]), seeds)| == limit
    ensures FirstOf(Fresh(before + IdsOf(near), seeds), limit) == Fresh(before + IdsOf(near[..k]), seeds)
  {
    FreshGrows(before, near, k, |near|, seeds);
    assert near[..|near|] == near;
  }

  lemma NothingFound(seeds: seq<string>)
    ensures Fresh(FoundIn([]), seeds) == []
  {}

  /** Takes what one search found, up to the limit. */
  method TakeFresh(ghost before: seq<string>, near: seq<(string, nat)>, seeds: seq<string>, out: seq<string>,
                   limit: nat)
    returns (out': seq<string>, full: bool)
    requires |out| < limit && out == Fresh(before, seeds)
    ensures full <==> |out'| >= limit
    ensures out' == FirstOf(Fresh(before + IdsOf(near), seeds), limit)
    ensures !full ==> out' == Fresh(before + IdsOf(near), seeds)
  {
    hide Fresh;
    out', full := out, false;
    assert before + IdsOf(near[..0]) == before;
    for k := 0 to |near|
      invariant |out'| < limit && out' == Fresh(before + IdsOf(near[..k]), seeds)
    {
      var id := near[k].0;
      FreshOneMore(before, near, k, seeds);
      if id !in seeds && id !in out' {
        out' := out' + [id];
        if |out'| >= limit {
          FreshUpTo(before, near, k + 1, seeds, limit);
          full := true;
          return;
        }
      }
    }
    assert near[..|near|] == near;
  }

  lemma {:induction false} FreshMeaning(ids: seq<string>, seeds: seq<string>)
    ensures forall i, j :: 0 <= i < j < |Fresh(ids, seeds)| ==> Fresh(ids, seeds)[i] != Fresh(ids, seeds)[j]
    ensures forall id :: id in Fresh(ids, seeds) <==> id in ids && id !in seeds
  {
    if ids != [] {
      FreshMeaning(ids[..|ids| - 1], seeds);
      assert ids == ids[..|ids| - 1] + [ids[|ids| - 1]];
    }
  }

  lemma {:induction false} IdsOfHas(near: seq<(string, nat)>, id: string) returns (d: nat)
    requires id in IdsOf(near)
    ensures (id, d) in near
  {
    var last := near[|near| - 1];
    if last.0 == id {
      d := last.1;
    } else {
      d := IdsOfHas(near[..|near| - 1], id);
    }
  }

  lemma {:induction false} IdsOfHolds(near: seq<(string, nat)>, id: string, d: nat)
    requires (id, d) in near
    ensures id in IdsOf(near)
  {
    if near[|near| - 1] != (id, d) { IdsOfHolds(near[..|near| - 1], id, d); }
  }

  lemma {:induction false} FoundInHas(lists: seq<seq<(string, nat)>>, id: string) returns (s: nat, d: nat)
    requires id in FoundIn(lists)
    ensures s < |lists| && (id, d) in lists[s]
  {
    var n := |lists| - 1;
    if id in IdsOf(lists[n]) {
      s := n;
      d := IdsOfHas(lists[n], id);
    } else {
      s, d := FoundInHas(lists[..n], id);
    }
  }

  lemma {:induction false} FoundInHolds(lists: seq<seq<(string, nat)>>, s: nat, id: string, d: nat)
    requires s < |lists| && (id, d) in lists[s]
    ensures id in FoundIn(lists)
  {
    var n := |lists| - 1;
    if s < n { FoundInHolds(lists[..n], s, id, d); } else { IdsOfHolds(lists[n], id, d); }
  }

  /** Some search finds `x` at a point where neither it nor the ones before have found `y`. */
  ghost predicate FoundBefore(lists: seq<seq<(string, nat)>>, x: string, y: string)
  {
    exists s, k :: 0 <= s < |lists| && 0 <= k < |lists[s]| && FindsFirst(lists, s, k, x, y)
  }

  ghost predicate FindsFirst(lists: seq<seq<(string, nat)>>, s: nat, k: nat, x: string, y: string)
    requires s < |lists| && k < |lists[s]|
  {
    && lists[s][k].0 == x
    && (forall r, m :: 0 <= r < s && 0 <= m < |lists[r]| ==> lists[r][m].0 != y)
    && (forall m :: 0 <= m <= k ==> lists[s][m].0 != y)
  }

  lemma {:induction false} PlaceOfFound(lists: seq<seq<(string, nat)>>, a: nat, y: string)
    requires a < |FoundIn(lists)| && y !in FoundIn(lists)[..a + 1]
    ensures FoundBefore(lists, FoundIn(lists)[a], y)
  {
    var n := |lists| - 1;
    var init, x := lists[..n], FoundIn(lists)[a];
    if a < |FoundIn(init)| {
      assert FoundIn(lists)[..a + 1] == FoundIn(init)[..a + 1];
      PlaceOfFound(init, a, y);
      var s, k :| 0 <= s < |init| && 0 <= k < |init[s]| && FindsFirst(init, s, k, x, y);
      assert FindsFirst(lists, s, k, x, y);
    } else {
      var k := a - |FoundIn(init)|;
      assert FoundIn(lists)[..a + 1] == FoundIn(init) + IdsOf(lists[n])[..k + 1];
      forall r, m | 0 <= r < n && 0 <= m < |lists[r]| ensures lists[r][m].0 != y {
        if lists[r][m].0 == y { FoundInHolds(init, r, y, lists[r][m].1); }
      }
      forall m | 0 <= m <= k ensures lists[n][m].0 != y {
        assert IdsOf(lists[n])[..k + 1][m] == lists[n][m].0;
      }
      assert FindsFirst(lists, n, k, x, y);
    }
  }

  /** Fresh ids stand in the order in which they first occur, and before any that never does. */
  lemma {:induction false} FreshInOrder(ids: seq<string>, seeds: seq<string>, i: nat, y: string) returns (a: nat)
    requires i < |Fresh(ids, seeds)| && y !in Fresh(ids, seeds)[..i + 1] && y !in seeds
    ensures a < |ids| && ids[a] == Fresh(ids, seeds)[i] && y !in ids[..a + 1]
  {
    var init := ids[..|ids| - 1];
    FreshMeaning(init, seeds);
    if i < |Fresh(init, seeds)| {
      assert Fresh(ids, seeds)[..i + 1] == Fresh(init, seeds)[..i + 1];
      a := FreshInOrder(init, seeds, i, y);
      assert init[..a + 1] == ids[..a + 1];
    } else {
      a := |ids| - 1;
      assert Fresh(ids, seeds)[..i + 1] == Fresh(init, seeds) + [ids[a]];
      assert ids[..a + 1] == init + [ids[a]];
    }
  }

  /** The first fresh ids of some searches were found before any others, in their own order. */
  lemma FirstFoundFirst(lists: seq<seq<(string, nat)>>, seeds: seq<string>, limit: nat)
    ensures var out := FirstOf(Fresh(FoundIn(lists), seeds), limit);
            && (forall i, j :: 0 <= i < j < |out| ==> FoundBefore(lists, out[i], out[j]))
            && (forall i, y :: 0 <= i < |out| && y !in out && y !in seeds ==> FoundBefore(lists, out[i], y))
  {
    hide Fresh, FoundIn, FoundBefore;
    var found := FoundIn(lists);
    var all, out := Fresh(found, seeds), FirstOf(Fresh(found, seeds), limit);
    FreshMeaning(found, seeds);
    forall i, y | 0 <= i < |out| && y !in out[..i + 1] && y !in seeds ensures FoundBefore(lists, out[i], y) {
      assert out[..i + 1] == all[..i + 1];
      var a := FreshInOrder(found, seeds, i, y);
      PlaceOfFound(lists, a, y);
    }
    forall i, j | 0 <= i < j < |out| ensures FoundBefore(lists, out[i], out[j]) {
      assert out[j] in all;
      assert out[j] !in out[..i + 1];
    }
    forall i, y | 0 <= i < |out| && y !in out && y !in seeds ensures FoundBefore(lists, out[i], y) {
      assert y !in out[..i + 1];
    }
  }

  class GraphIndex {
    var names: seq<string>
    var ids: map<string, nat>
    var edges: seq<Edge>

    /** Names and node numbers are inverse to each other, and edges join known nodes. */
    ghost predicate Valid()
      reads this
    {
      && (forall i :: 0 <= i < |names| ==> names[i] in ids && ids[names[i]] == i)
      && (forall id :: id in ids ==> ids[id] < |names| && names[ids[id]] == id)
      && (forall i :: 0 <= i < |edges| ==> edges[i].source < |names| && edges[i].target < |names|)
    }

    function Adj(): Adjacency
      reads this
    {
      AdjacencyOf(|names|, edges)
    }

    /** Some edge leads from the one id to the other. */
    ghost predicate Linked(from: string, to: string)
      reads this
    {
      Joined(names, edges, from, to)
    }

    /** `d` edges, end to end, lead from the one known id to the other. */
    ghost predicate Leads(start: string, to: string, d: nat)
      reads this
      decreases d
    {
      if d == 0 then start in ids && start == to
      else exists via: string :: Leads(start, via, d - 1) && Linked(via, to)
    }

    /** The fewest edges that lead from the one id to the other are `d`. */
    ghost predicate Apart(start: string, to: string, d: nat)
      reads this
    {
      Leads(start, to, d) && forall e: nat :: e < d ==> !Leads(start, to, e)
    }

    /** An id is one hop away exactly when it is another one and an edge leads to it. */
    lemma OneHopIsAnEdge(start: string, to: string)
      requires start in ids
      ensures Apart(start, to, 1) <==> start != to && Linked(start, to)
    {
      assert Leads(start, start, 0);
      assert Leads(start, to, 1) <==> Linked(start, to);
    }

    /** Among node numbers an edge is one of the adjacency lists. */
    lemma LinkedIsListed(u: nat, v: nat)
      requires Valid() && u < |names| && v < |names|
      ensures v in Adj()[u] <==> Linked(names[u], names[v])
    {
      OutMeaning(edges, u, v);
      if i :| 0 <= i < |edges| && edges[i].source == u && edges[i].target == v {
        assert Joins(names, edges[i], names[u], names[v]);
      }
    }

    lemma {:induction false} LeadsIsWalk(start: string, to: string, d: nat)
      requires Valid()
      ensures Leads(start, to, d) <==> start in ids && to in ids && Walk(Adj(), ids[start], ids[to], d)
      decreases d
    {
      if d > 0 {
        if Leads(start, to, d) {
          var via :| Leads(start, via, d - 1) && Linked(via, to);
          LeadsIsWalk(start, via, d - 1);
          LinkedIsListed(ids[via], ids[to]);
        }
        if start in ids && to in ids && Walk(Adj(), ids[start], ids[to], d) {
          var u :| 0 <= u < |Adj()| && Walk(Adj(), ids[start], u, d - 1) && ids[to] in Adj()[u];
          LeadsIsWalk(start, names[u], d - 1);
          LinkedIsListed(u, ids[to]);
        }
      }
    }

    lemma ApartIsDistance(start: string, to: string, d: nat)
      requires Valid()
      ensures Apart(start, to, d) <==> start in ids && to in ids && IsDistance(Adj(), ids[start], ids[to], d)
    {
      hide Leads, Walk;
      forall e: nat
        ensures Leads(start, to, e) <==> start in ids && to in ids && Walk(Adj(), ids[start], ids[to], e)
      {
        LeadsIsWalk(start, to, e);
      }
    }

    constructor ()
      ensures Valid() && names == [] && edges == []
    {
      names, ids, edges := [], map[], [];
    }

    method AddNode(id: string) returns (idx: nat)
      requires Valid()
      modifies this
      ensures Valid() && edges == old(edges)
      ensures names == if id in old(ids) then old(names) else old(names) + [id]
      ensures ids.Keys == old(ids.Keys) + {id} && idx == ids[id]
      ensures forall other :: other in old(ids) ==> ids[other] == old(ids[other])
    {
      if id in ids {
        return ids[id];
      }
      idx := |names|;
      names := names + [id];
      ids := ids[id := idx];
    }

    method AddEdge(source: string, target: string, rel: Relationship)
      requires Valid()
      modifies this
      ensures Valid() && ids.Keys == old(ids.Keys) + {source, target}
      ensures old(names) <= names && forall id :: id in old(ids) ==> ids[id] == old(ids[id])
      ensures edges == old(edges) + [Edge(ids[source], ids[target], rel)]
      ensures forall x, y :: Linked(x, y) <==> old(Linked(x, y)) || (x == source && y == target)
    {
      hide Joined;
      var s := AddNode(source);
      var t := AddNode(target);
      forall x, y
        ensures Joined(names, edges + [Edge(s, t, rel)], x, y) <==> old(Linked(x, y)) || (x == source && y == target)
      {
        JoinedOneMore(old(names), names, edges, Edge(s, t, rel), x, y);
      }
      edges := edges + [Edge(s, t, rel)];
    }

    /** Every id within `maxHops` of `start`, once, with its distance, nearest first. */
    method NeighborsWithin(start: string, maxHops: nat) returns (out: seq<(string, nat)>)
      requires Valid()
      ensures start !in ids ==> out == []
      ensures start in ids ==> out != [] && out[0] == (start, 0)
      ensures forall id, d: nat :: (id, d) in out <==> d <= maxHops && Apart(start, id, d)
      ensures forall i, j :: 0 <= i < j < |out| ==> out[i].0 != out[j].0 && out[i].1 <= out[j].1
      ensures IsNearList(start, maxHops, out)
    {
      if start !in ids {
        forall id, d: nat ensures !Apart(start, id, d) { LeadsIsWalk(start, id, d); }
        return [];
      }
      AdjacencyIsWellFormed(|names|, edges);
      var visits := Search(Adj(), ids[start], maxHops);
      out := NamedHops(names, visits);
      forall id, d: nat ensures (id, d) in out <==> d <= maxHops && Apart(start, id, d) {
        NamedVisits(visits, out, start, maxHops, id, d);
      }
    }

    lemma NamedVisits(visits: seq<Visit>, out: seq<(string, nat)>, start: string, maxHops: nat, id: string, d: nat)
      requires Valid() && start in ids && Discovered(Adj(), ids[start], visits)
      requires forall v :: Has(visits, v) <==> exists e: nat :: e <= maxHops && IsDistance(Adj(), ids[start], v, e)
      requires out == NamedHops(names, visits)
      ensures (id, d) in out <==> d <= maxHops && Apart(start, id, d)
    {
      hide Leads, Walk, Apart;
      ApartIsDistance(start, id, d);
      var s := ids[start];
      if (id, d) in out {
        var i :| 0 <= i < |out| && out[i] == (id, d);
        assert Has(visits, visits[i].node);
        var e: nat :| e <= maxHops && IsDistance(Adj(), s, visits[i].node, e);
        DistanceIsUnique(Adj(), s, visits[i].node, d, e);
      }
      if d <= maxHops && Apart(start, id, d) {
        assert Has(visits, ids[id]);
        var i :| 0 <= i < |visits| && visits[i].node == ids[id];
        DistanceIsUnique(Adj(), s, ids[id], d, visits[i].dist);
        assert out[i] == (id, d);
      }
    }

    /** `Some` exactly when some edges lead to `target`, and then a path along edges with the
        fewest hops. */
    method ShortestPath(source: string, target: string) returns (path: Option<seq<string>>)
      requires Valid()
      ensures path.Some? <==> exists d: nat :: Leads(source, target, d)
      ensures path.Some? ==>
                && path.value != [] && path.value[0] == source && path.value[|path.value| - 1] == target
                && (forall i :: 0 <= i < |path.value| - 1 ==> Linked(path.value[i], path.value[i + 1]))
                && Apart(source, target, |path.value| - 1)
    {
      hide Leads, Walk, Apart, IsDistance, Linked;
      if source !in ids || target !in ids {
        forall d: nat ensures !Leads(source, target, d) { LeadsIsWalk(source, target, d); }
        return None;
      }
      AdjacencyIsWellFormed(|names|, edges);
      var found := FindPath(Adj(), ids[source], ids[target]);
      ReachableByIds(source, target);
      if found.None? {
        return None;
      }
      var nodes := found.value;
      PathByIds(nodes, source, target);
      return Some(Named(names, nodes));
    }

    lemma ReachableByIds(source: string, target: string)
      requires Valid() && source in ids && target in ids
      ensures Reachable(Adj(), ids[source], ids[target]) <==> exists d: nat :: Leads(source, target, d)
    {
      hide Leads, Walk;
      if d: nat :| Leads(source, target, d) { LeadsIsWalk(source, target, d); }
      if d: nat :| Walk(Adj(), ids[source], ids[target], d) { LeadsIsWalk(source, target, d); }
    }

    lemma PathByIds(nodes: seq<nat>, source: string, target: string)
      requires Valid() && source in ids && target in ids
      requires IsPath(Adj(), nodes, ids[source], ids[target])
      requires IsDistance(Adj(), ids[source], ids[target], |nodes| - 1)
      ensures forall i :: 0 <= i < |nodes| ==> nodes[i] < |names|
      ensures var path := Named(names, nodes);
              && path[0] == source && path[|path| - 1] == target
              && (forall i :: 0 <= i < |path| - 1 ==> Linked(path[i], path[i + 1]))
              && Apart(source, target, |path| - 1)
    {
      hide Linked, Apart, IsDistance;
      ApartIsDistance(source, target, |nodes| - 1);
      forall i | 0 <= i < |nodes| - 1 ensures Linked(names[nodes[i]], names[nodes[i + 1]]) {
        LinkedIsListed(nodes[i], nodes[i + 1]);
      }
    }

    /** What `NeighborsWithin` may answer: the ids within the hops, once each, nearest first. */
    ghost predicate IsNearList(start: string, maxHops: nat, near: seq<(string, nat)>)
      reads this
    {
      && (forall id, d: nat :: (id, d) in near <==> d <= maxHops && Apart(start, id, d))
      && (forall i, j :: 0 <= i < j < |near| ==> near[i].0 != near[j].0 && near[i].1 <= near[j].1)
    }

    /** The searches made for the seeds so far, one by one. */
    ghost predicate AreNearLists(seeds: seq<string>, maxHops: nat, lists: seq<seq<(string, nat)>>)
      reads this
    {
      |lists| <= |seeds| && forall s :: 0 <= s < |lists| ==> IsNearList(seeds[s], maxHops, lists[s])
    }

    /** Ids near some seed, without the seeds and without repetition: of what the searches find,
        seed by seed and nearest first, the first `limit`. `lists` are the searches made; all
        seeds are searched unless the limit is reached. */
    method Expand(seeds: seq<string>, maxHops: nat, limit: nat)
      returns (out: seq<string>, ghost lists: seq<seq<(string, nat)>>)
      requires Valid()
      ensures AreNearLists(seeds, maxHops, lists) && (|lists| < |seeds| ==> |out| == limit)
      ensures out == FirstOf(Fresh(FoundIn(lists), seeds), limit)
      ensures |out| <= limit
      ensures forall i, j :: 0 <= i < j < |out| ==> out[i] != out[j] && FoundBefore(lists, out[i], out[j])
      ensures forall i, id :: 0 <= i < |out| && id !in out && id !in seeds ==> FoundBefore(lists, out[i], id)
      ensures forall id :: id in out ==> id !in seeds && Near(seeds, maxHops, id)
      ensures |out| < limit ==> forall id :: id !in seeds && Near(seeds, maxHops, id) ==> id in out
    {
      hide FoundIn, Fresh, IsNearList, Near, Apart, FoundBefore;
      out, lists := [], [];
      NothingFound(seeds);
      if limit == 0 {
        return;
      }
      for s := 0 to |seeds|
        invariant |out| < limit && |lists| == s && AreNearLists(seeds, maxHops, lists)
        invariant out == Fresh(FoundIn(lists), seeds)
      {
        var near := NeighborsWithin(seeds[s], maxHops);
        FoundInOneMore(lists, near);
        var full;
        out, full := TakeFresh(FoundIn(lists), near, seeds, out, limit);
        lists := lists + [near];
        if full {
          ExpandMeaning(seeds, maxHops, lists, limit, out);
          FirstFoundFirst(lists, seeds, limit);
          return;
        }
      }
      ExpandMeaning(seeds, maxHops, lists, limit, out);
      FirstFoundFirst(lists, seeds, limit);
    }

    /** What the first `limit` fresh ids of the searches come to. */
    lemma ExpandMeaning(seeds: seq<string>, maxHops: nat, lists: seq<seq<(string, nat)>>, limit: nat, out: seq<string>)
      requires AreNearLists(seeds, maxHops, lists) && out == FirstOf(Fresh(FoundIn(lists), seeds), limit)
      ensures |out| <= limit
      ensures forall i, j :: 0 <= i < j < |out| ==> out[i] != out[j]
      ensures forall id :: id in out ==> id !in seeds && Near(seeds, maxHops, id)
      ensures |out| < limit && |lists| == |seeds| ==>
        forall id :: id !in seeds && Near(seeds, maxHops, id) ==> id in out
    {
      FreshMeaning(FoundIn(lists), seeds);
      forall id | id in out ensures id !in seeds && Near(seeds, maxHops, id) {
        assert id in Fresh(FoundIn(lists), seeds);
        var s, d := FoundInHas(lists, id);
        assert IsNearList(seeds[s], maxHops, lists[s]);
        assert Apart(seeds[s], id, d);
      }
      if |out| < limit && |lists| == |seeds| {
        forall id | id !in seeds && Near(seeds, maxHops, id) ensures id in out {
          var s, d: nat :| 0 <= s < |seeds| && d <= maxHops && Apart(seeds[s], id, d);
          assert IsNearList(seeds[s], maxHops, lists[s]) && (id, d) in lists[s];
          FoundInHolds(lists, s, id, d);
        }
      }
    }

    ghost predicate Near(seeds: seq<string>, maxHops: nat, id: string)
      reads this
    {
      exists s, d: nat :: 0 <= s < |seeds| && d <= maxHops && Apart(seeds[s], id, d)
    }
  }
}
