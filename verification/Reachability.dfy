/** Breadth-first reachability between callables, with shortest distances and a pair bound. */
module Reachability {
  import opened Digraph

  const U32_MAX: nat := 0xFFFF_FFFF

  /** A distance as a saturating 32-bit counter stores it. */
  function Capped(n: nat): nat {
    if n > U32_MAX then U32_MAX else n
  }

  function SaturatingNext(n: nat): nat {
    if n >= U32_MAX then U32_MAX else n + 1
  }

  /** A shortest path from s to t has k edges. */
  ghost predicate Distance(g: Adjacency, s: Id, t: Id, k: nat) {
    Within(g, s, t, k) && (k > 0 ==> !Within(g, s, t, k - 1))
  }

  // The search state: a depth for every discovered node and the discovered nodes still queued.

  ghost predicate Relaxed(g: Adjacency, depth: map<Id, nat>, n: Id)
    requires n in depth
  {
    forall t {:trigger t in Successors(g, n)} :: t in Successors(g, n) ==> t in depth && depth[t] <= depth[n] + 1
  }

  /** Every depth is the length of some path. */
  ghost predicate PathsExist(g: Adjacency, s: Id, depth: map<Id, nat>) {
    && s in depth && depth[s] == 0 && depth.Keys <= g.Keys
    && forall n {:trigger Within(g, s, n, depth[n])} :: n in depth ==> Within(g, s, n, depth[n])
  }

  /** The queue lists distinct nodes by depth, and nothing lies more than one level beyond its head. */
  ghost predicate QueueInOrder(depth: map<Id, nat>, nodes: seq<Id>) {
    && (forall n :: n in nodes ==> n in depth)
    && (forall i, j :: 0 <= i < j < |nodes| ==> nodes[i] != nodes[j] && depth[nodes[i]] <= depth[nodes[j]])
    && (nodes != [] ==> forall n :: n in depth ==> depth[n] <= depth[nodes[0]] + 1)
  }

  ghost predicate OthersRelaxed(g: Adjacency, depth: map<Id, nat>, nodes: seq<Id>) {
    forall n {:trigger Relaxed(g, depth, n)} :: n in depth && n !in nodes ==> Relaxed(g, depth, n)
  }

  ghost predicate Searching(g: Adjacency, s: Id, depth: map<Id, nat>, nodes: seq<Id>) {
    PathsExist(g, s, depth) && QueueInOrder(depth, nodes) && OthersRelaxed(g, depth, nodes)
  }

  /** Discovering the listed new successors of the head of the queue. */
  ghost function Discovered(depth: map<Id, nat>, found: seq<Id>, k: nat): map<Id, nat> {
    map n | n in depth.Keys + (set x | x in found) :: if n in depth then depth[n] else k
  }

  lemma PathsStep(g: Adjacency, s: Id, depth: map<Id, nat>, head: Id, found: seq<Id>)
    requires Closed(g) && PathsExist(g, s, depth) && head in depth
    requires forall n :: n in found ==> n in Successors(g, head)
    ensures PathsExist(g, s, Discovered(depth, found, depth[head] + 1))
  {
    var depth' := Discovered(depth, found, depth[head] + 1);
    forall n | n in depth' ensures Within(g, s, n, depth'[n]) {
      if n in depth {
        assert Within(g, s, n, depth[n]);
      } else {
        assert Within(g, s, head, depth[head]);
        WithinExtends(g, s, head, n, depth[head]);
      }
    }
  }

  lemma QueueStep(depth: map<Id, nat>, nodes: seq<Id>, found: seq<Id>)
    requires QueueInOrder(depth, nodes) && nodes != []
    requires forall i, j :: 0 <= i < j < |found| ==> found[i] != found[j]
    requires forall n :: n in found ==> n !in depth
    ensures QueueInOrder(Discovered(depth, found, depth[nodes[0]] + 1), nodes[1..] + found)
  {
    var rest, k := nodes[1..], depth[nodes[0]] + 1;
    var depth', nodes' := Discovered(depth, found, k), rest + found;
    forall i | 0 <= i < |rest| ensures nodes'[i] in depth && depth[nodes[0]] <= depth'[nodes'[i]] <= k {
      assert nodes'[i] == nodes[i + 1] && nodes[i + 1] in nodes;
    }
    forall i | |rest| <= i < |nodes'| ensures nodes'[i] !in depth && depth'[nodes'[i]] == k {
      assert nodes'[i] == found[i - |rest|] && found[i - |rest|] in found;
    }
    forall i, j | 0 <= i < j < |nodes'|
      ensures nodes'[i] != nodes'[j] && depth'[nodes'[i]] <= depth'[nodes'[j]]
    {
      if j < |rest| {
        assert nodes'[i] == nodes[i + 1] && nodes'[j] == nodes[j + 1];
      } else if i >= |rest| {
        assert nodes'[i] == found[i - |rest|] && nodes'[j] == found[j - |rest|];
      }
    }
  }

  lemma RelaxedStep(g: Adjacency, depth: map<Id, nat>, nodes: seq<Id>, found: seq<Id>)
    requires QueueInOrder(depth, nodes) && OthersRelaxed(g, depth, nodes) && nodes != []
    requires forall n :: n in found <==> n in Successors(g, nodes[0]) && n !in depth
    ensures OthersRelaxed(g, Discovered(depth, found, depth[nodes[0]] + 1), nodes[1..] + found)
  {
    var head, rest := nodes[0], nodes[1..];
    assert forall n :: n in nodes <==> n == head || n in rest;
    var depth' := Discovered(depth, found, depth[head] + 1);
    forall n | n in depth' && n !in rest + found ensures Relaxed(g, depth', n) {
      assert n !in rest && n !in found;
      if n != head { assert Relaxed(g, depth, n); }
    }
  }

  lemma SearchStep(g: Adjacency, s: Id, depth: map<Id, nat>, nodes: seq<Id>, found: seq<Id>)
    requires Closed(g) && Searching(g, s, depth, nodes) && nodes != []
    requires forall i, j :: 0 <= i < j < |found| ==> found[i] != found[j]
    requires forall n :: n in found <==> n in Successors(g, nodes[0]) && n !in depth
    ensures Searching(g, s, Discovered(depth, found, depth[nodes[0]] + 1), nodes[1..] + found)
  {
    assert nodes[0] in nodes;
    PathsStep(g, s, depth, nodes[0], found);
    QueueStep(depth, nodes, found);
    RelaxedStep(g, depth, nodes, found);
  }

  lemma {:induction false} ExhaustedSearchIsShortest(g: Adjacency, s: Id, depth: map<Id, nat>, t: Id, k: nat)
    requires Searching(g, s, depth, []) && Within(g, s, t, k)
    ensures t in depth && depth[t] <= k
    decreases k
  {
    if s != t {
      var p := WithinLastEdge(g, s, t, k);
      ExhaustedSearchIsShortest(g, s, depth, p, k - 1);
      assert Relaxed(g, depth, p);
    }
  }

  lemma SearchDone(g: Adjacency, s: Id, depth: map<Id, nat>, t: Id)
    requires Searching(g, s, depth, [])
    ensures t in depth <==> Reaches(g, s, t)
    ensures t in depth ==> Distance(g, s, t, depth[t])
  {
    if Reaches(g, s, t) {
      var k: nat :| Within(g, s, t, k);
      ExhaustedSearchIsShortest(g, s, depth, t, k);
    }
    if t in depth { assert Within(g, s, t, depth[t]); }
    if t in depth && depth[t] > 0 && Within(g, s, t, depth[t] - 1) {
      ExhaustedSearchIsShortest(g, s, depth, t, depth[t] - 1);
    }
  }

  /** `found` lists distinct nodes, each stored and queued with distance `next`. */
  ghost predicate Expanded(next: nat, distances: map<Id, nat>, queue: seq<(Id, nat)>, found: seq<Id>,
                           distances': map<Id, nat>, queue': seq<(Id, nat)>) {
    && (forall i, j :: 0 <= i < j < |found| ==> found[i] != found[j])
    && distances'.Keys == distances.Keys + (set n | n in found)
    && (forall n :: n in distances' ==> distances'[n] == if n in distances then distances[n] else next)
    && |queue'| == |queue| + |found|
    && (forall i :: 0 <= i < |queue| ==> queue'[i] == queue[i])
    && (forall i :: 0 <= i < |found| ==> queue'[|queue| + i] == (found[i], next))
  }

  /** Queue every callee not seen before, one edge further out. */
  method Expand(callees: seq<Id>, source: Id, next: nat, distances: map<Id, nat>, queue: seq<(Id, nat)>)
    returns (distances': map<Id, nat>, queue': seq<(Id, nat)>, ghost found: seq<Id>)
    requires source !in distances
    requires forall i, j :: 0 <= i < j < |callees| ==> callees[i] != callees[j]
    ensures forall n :: n in found <==> n in callees && n != source && n !in distances
    ensures Expanded(next, distances, queue, found, distances', queue')
  {
    distances', queue', found := distances, queue, [];
    for i := 0 to |callees|
      invariant forall n :: n in found <==> n in callees[..i] && n != source && n !in distances
      invariant Expanded(next, distances, queue, found, distances', queue')
    {
      var callee := callees[i];
      assert callees[..i + 1] == callees[..i] + [callee];
      assert callee !in callees[..i];
      if callee != source && callee !in distances' {
        distances' := distances'[callee := next];
        queue' := queue' + [(callee, next)];
        found := found + [callee];
      }
    }
    assert callees[..|callees|] == callees;
  }

  /** Exactly the other reachable callables, each with its shortest distance. */
  ghost predicate AreDistances(g: Adjacency, source: Id, distances: map<Id, nat>) {
    && (forall t :: t in distances <==> t != source && Reaches(g, source, t))
    && (forall t :: t in distances ==>
          exists k: nat :: Distance(g, source, t, k) && distances[t] == if k <= 4294967295 then k else 4294967295)
  }

  ghost predicate QueueHolds(queue: seq<(Id, nat)>, nodes: seq<Id>, depth: map<Id, nat>) {
    && |queue| == |nodes|
    && forall i :: 0 <= i < |nodes| ==> nodes[i] in depth && queue[i] == (nodes[i], Capped(depth[nodes[i]]))
  }

  ghost predicate StoredDepths(source: Id, distances: map<Id, nat>, depth: map<Id, nat>) {
    && depth.Keys == distances.Keys + {source} && source !in distances
    && forall t :: t in distances ==> distances[t] == Capped(depth[t])
  }

  lemma StoredStep(source: Id, distances: map<Id, nat>, depth: map<Id, nat>, queue: seq<(Id, nat)>, nodes: seq<Id>,
                   found: seq<Id>, k: nat, distances': map<Id, nat>, queue': seq<(Id, nat)>)
    requires StoredDepths(source, distances, depth) && QueueHolds(queue, nodes, depth)
    requires forall n :: n in found ==> n !in depth
    requires Expanded(Capped(k), distances, queue, found, distances', queue')
    ensures StoredDepths(source, distances', Discovered(depth, found, k))
    ensures QueueHolds(queue', nodes + found, Discovered(depth, found, k))
  {
    var depth', nodes' := Discovered(depth, found, k), nodes + found;
    forall i | 0 <= i < |nodes'| ensures nodes'[i] in depth' && queue'[i] == (nodes'[i], Capped(depth'[nodes'[i]])) {
      if i >= |nodes| {
        var j := i - |nodes|;
        assert nodes'[i] == found[j] && found[j] in found && queue'[|queue| + j] == (found[j], Capped(k));
      }
    }
  }

  ghost predicate SearchInvariant(g: Adjacency, source: Id, distances: map<Id, nat>, queue: seq<(Id, nat)>,
                                  depth: map<Id, nat>, nodes: seq<Id>) {
    Searching(g, source, depth, nodes) && StoredDepths(source, distances, depth) && QueueHolds(queue, nodes, depth)
  }

  method OrderedCallees(g: Adjacency, c: Id) returns (callees: seq<Id>)
    ensures forall x :: x in callees <==> x in Successors(g, c)
    ensures forall i, j :: 0 <= i < j < |callees| ==> callees[i] != callees[j]
  {
    callees := Ascending(Successors(g, c));
    AscendingMeaning(Successors(g, c));
  }

  /** Take the head of the queue and expand it. */
  method Visit(g: Adjacency, source: Id, distances: map<Id, nat>, queue: seq<(Id, nat)>,
               ghost depth: map<Id, nat>, ghost nodes: seq<Id>)
    returns (distances': map<Id, nat>, queue': seq<(Id, nat)>, ghost depth': map<Id, nat>, ghost nodes': seq<Id>)
    requires Closed(g) && queue != [] && SearchInvariant(g, source, distances, queue, depth, nodes)
    ensures SearchInvariant(g, source, distances', queue', depth', nodes')
    ensures depth.Keys <= depth'.Keys <= g.Keys && (depth'.Keys == depth.Keys ==> |queue'| < |queue|)
  {
    VisitReady(g, source, distances, queue, depth, nodes);
    hide SearchInvariant, Successors, Closed, Discovered, Expanded;
    var (current, distance) := queue[0];
    var callees := OrderedCallees(g, current);
    ghost var found;
    distances', queue', found := Expand(callees, source, SaturatingNext(distance), distances, queue[1..]);
    VisitStep(g, source, distances, queue, depth, nodes, found, distances', queue');
    depth', nodes' := Discovered(depth, found, depth[current] + 1), nodes[1..] + found;
  }

  lemma VisitReady(g: Adjacency, source: Id, distances: map<Id, nat>, queue: seq<(Id, nat)>, depth: map<Id, nat>,
                   nodes: seq<Id>)
    requires SearchInvariant(g, source, distances, queue, depth, nodes) && queue != []
    ensures source !in distances && nodes != [] && queue[0].0 in depth
  {
  }

  lemma QueueTail(queue: seq<(Id, nat)>, nodes: seq<Id>, depth: map<Id, nat>)
    requires QueueHolds(queue, nodes, depth) && queue != []
    ensures nodes != [] && nodes[0] in depth && queue[0] == (nodes[0], Capped(depth[nodes[0]]))
    ensures QueueHolds(queue[1..], nodes[1..], depth)
  {
  }

  lemma DiscoveredKeys(depth: map<Id, nat>, found: seq<Id>, k: nat)
    requires forall n :: n in found ==> n !in depth
    ensures depth.Keys <= Discovered(depth, found, k).Keys
    ensures Discovered(depth, found, k).Keys == depth.Keys ==> found == []
  {
    if found != [] { assert found[0] in found; }
  }

  lemma VisitStep(g: Adjacency, source: Id, distances: map<Id, nat>, queue: seq<(Id, nat)>, depth: map<Id, nat>,
                  nodes: seq<Id>, found: seq<Id>, distances': map<Id, nat>, queue': seq<(Id, nat)>)
    requires Closed(g) && queue != [] && SearchInvariant(g, source, distances, queue, depth, nodes)
    requires forall n :: n in found <==> n in Successors(g, queue[0].0) && n != source && n !in distances
    requires Expanded(SaturatingNext(queue[0].1), distances, queue[1..], found, distances', queue')
    ensures queue[0].0 in depth
    ensures var depth' := Discovered(depth, found, depth[queue[0].0] + 1);
            && SearchInvariant(g, source, distances', queue', depth', nodes[1..] + found)
            && depth.Keys <= depth'.Keys <= g.Keys && (depth'.Keys == depth.Keys ==> |queue'| < |queue|)
  {
    hide Searching, Discovered, Successors, Closed, Expanded;
    QueueTail(queue, nodes, depth);
    var k := depth[nodes[0]] + 1;
    assert SaturatingNext(queue[0].1) == Capped(k);
    FoundAreNew(source, distances, depth, found, Successors(g, nodes[0]));
    QueueGrows(SaturatingNext(queue[0].1), distances, queue[1..], found, distances', queue');
    SearchStep(g, source, depth, nodes, found);
    hide StoredDepths, QueueHolds;
    StoredStep(source, distances, depth, queue[1..], nodes[1..], found, k, distances', queue');
    DiscoveredKeys(depth, found, k);
    SearchingInside(g, source, Discovered(depth, found, k), nodes[1..] + found);
  }

  lemma FoundAreNew(source: Id, distances: map<Id, nat>, depth: map<Id, nat>, found: seq<Id>, callees: set<Id>)
    requires StoredDepths(source, distances, depth)
    requires forall n :: n in found <==> n in callees && n != source && n !in distances
    ensures forall n :: n in found <==> n in callees && n !in depth
  {
  }

  lemma QueueGrows(next: nat, distances: map<Id, nat>, queue: seq<(Id, nat)>, found: seq<Id>,
                   distances': map<Id, nat>, queue': seq<(Id, nat)>)
    requires Expanded(next, distances, queue, found, distances', queue')
    ensures |queue'| == |queue| + |found| && forall i, j :: 0 <= i < j < |found| ==> found[i] != found[j]
  {
  }

  lemma SearchingInside(g: Adjacency, s: Id, depth: map<Id, nat>, nodes: seq<Id>)
    requires Searching(g, s, depth, nodes)
    ensures depth.Keys <= g.Keys
  {
  }

  /** Breadth-first search from one callable. */
  method Distances(g: Adjacency, source: Id) returns (distances: map<Id, nat>)
    requires Closed(g) && source in g
    ensures AreDistances(g, source, distances)
  {
    distances := map[];
    var queue := [(source, 0)];
    ghost var depth, nodes := map[source := 0], [source];
    assert Within(g, source, source, 0);
    while queue != []
      invariant SearchInvariant(g, source, distances, queue, depth, nodes)
      decreases g.Keys - depth.Keys, |queue|
    {
      distances, queue, depth, nodes := Visit(g, source, distances, queue, depth, nodes);
    }
    assert nodes == [];
    forall t ensures t in depth <==> Reaches(g, source, t)
      ensures t in depth ==> Distance(g, source, t, depth[t])
    {
      SearchDone(g, source, depth, t);
    }
  }

  // All sources under one pair bound.

  /** The callables other than s that s reaches. */
  ghost function Others(g: Adjacency, s: Id): set<Id> {
    set t | t in g && t != s && Reaches(g, s, t)
  }

  /** The number of pairs that the first m sources contribute. */
  ghost function PairTotal(g: Adjacency, sources: seq<Id>, m: nat): nat
    requires m <= |sources|
  {
    if m == 0 then 0 else PairTotal(g, sources, m - 1) + |Others(g, sources[m - 1])|
  }

  lemma DistanceCount(g: Adjacency, s: Id, distances: map<Id, nat>)
    requires Closed(g) && s in g && AreDistances(g, s, distances)
    ensures |distances| == |Others(g, s)|
  {
    forall t | t in distances ensures t in g {
      var k: nat :| Within(g, s, t, k);
      WithinStaysInside(g, s, t, k);
    }
    assert distances.Keys == Others(g, s);
  }

  /** The first m sources contribute all their pairs and the remaining ones none; m is the largest
      number of leading sources whose pairs together respect the bound. */
  ghost predicate PairsBounded(g: Adjacency, order: seq<Id>, m: nat, bound: nat) {
    && m <= |order| && PairTotal(g, order, m) <= bound
    && (m < |order| ==> PairTotal(g, order, m + 1) > bound)
  }

  ghost predicate Contributes(g: Adjacency, pairs: map<Id, map<Id, nat>>, s: Id) {
    s in pairs && AreDistances(g, s, pairs[s])
  }

  ghost predicate AllContribute(g: Adjacency, pairs: map<Id, map<Id, nat>>) {
    forall s {:trigger Contributes(g, pairs, s)} :: s in pairs ==> Contributes(g, pairs, s)
  }

  lemma OneMoreSource(g: Adjacency, pairs: map<Id, map<Id, nat>>, source: Id, distances: map<Id, nat>)
    requires AllContribute(g, pairs) && AreDistances(g, source, distances)
    ensures AllContribute(g, pairs[source := distances])
  {
    var more := pairs[source := distances];
    forall s | s in more ensures Contributes(g, more, s) {
      if s != source { assert Contributes(g, pairs, s); }
    }
  }

  /** Search from one source; `more` is the table that includes its pairs. */
  method AddSource(g: Adjacency, source: Id, pairs: map<Id, map<Id, nat>>)
    returns (distances: map<Id, nat>, more: map<Id, map<Id, nat>>)
    requires Closed(g) && source in g && AllContribute(g, pairs)
    ensures |distances| == |Others(g, source)|
    ensures more == pairs[source := distances] && AllContribute(g, more)
  {
    distances := Distances(g, source);
    DistanceCount(g, source, distances);
    OneMoreSource(g, pairs, source, distances);
    more := pairs[source := distances];
  }

  /** Every source contributes all its pairs or none and an unknown row; the total respects the
      bound, and after the first refused source every later one is unknown. */
  method ReachFrom(g: Adjacency, order: seq<Id>, bound: nat)
    returns (pairs: map<Id, map<Id, nat>>, unknown: seq<Id>, ghost m: nat)
    requires Closed(g) && forall s :: s in order ==> s in g
    ensures PairsBounded(g, order, m, bound)
    ensures pairs.Keys == (set s | s in order[..m]) && unknown == order[m..]
    ensures AllContribute(g, pairs)
  {
    pairs, unknown, m := map[], [], 0;
    var emitted, exhausted := 0, false;
    for i := 0 to |order|
      invariant m <= i && (exhausted ==> m < i) && (!exhausted ==> m == i)
      invariant emitted == PairTotal(g, order, m) <= bound
      invariant exhausted ==> PairTotal(g, order, m + 1) > bound
      invariant pairs.Keys == (set s | s in order[..m])
      invariant unknown == order[m..i]
      invariant AllContribute(g, pairs)
    {
      var source := order[i];
      if exhausted {
        unknown := unknown + [source];
      } else {
        assert source in order;
        var distances, more := AddSource(g, source, pairs);
        if emitted + |distances| > bound {
          exhausted := true;
          unknown := unknown + [source];
        } else {
          emitted := emitted + |distances|;
          assert order[..i + 1] == order[..i] + [source];
          pairs, m := more, i + 1;
        }
      }
    }
  }

  method DeriveReachability(g: Adjacency, bound: nat)
    returns (pairs: map<Id, map<Id, nat>>, unknown: seq<Id>, ghost m: nat)
    requires Closed(g)
    ensures PairsBounded(g, Ascending(g.Keys), m, bound)
    ensures pairs.Keys == (set s | s in Ascending(g.Keys)[..m]) && unknown == Ascending(g.Keys)[m..]
    ensures AllContribute(g, pairs)
  {
    AscendingMeaning(g.Keys);
    pairs, unknown, m := ReachFrom(g, Ascending(g.Keys), bound);
  }
}
