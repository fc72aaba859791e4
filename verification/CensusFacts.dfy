/** Inputs and facts of the census, and how units are counted. */
module CensusFacts {
  import opened Prelude
  import opened Digraph
  import opened CallSummaries
  import opened CallAnalysis
  import opened SummaryPass
  import opened CensusTally

  datatype Detail =
    | Object(id: Id)
    | Location(definition: Id, location: Id)
    | Callee(callee: Id, site: Id)
    | Component(members: seq<Id>)
    | Steps(to: Id, steps: nat)
    | Value(value: Id)
    | Summary(effects: set<Id>, resources: set<Id>)

  datatype Fact = Fact(family: Family, subject: Id, detail: Detail, complete: bool)

  // Inputs.

  datatype CfgNode = CfgNode(owner: Id, node: Id, entry: bool, exit: bool)

  datatype CfgEdge = CfgEdge(owner: Id, source: Id, target: Id)

  datatype CfgInput = CfgInput(nodes: seq<CfgNode>, edges: seq<CfgEdge>)

  type NodeAnswers = (Id, Id) -> Option<set<Id>>

  /** What the graph algorithms answer for each node and edge. */
  datatype CfgResults = CfgResults(dominators: NodeAnswers, postDominators: NodeAnswers, dependents: CfgEdge -> set<Id>)

  const NO_ANSWERS: CfgResults := CfgResults((o: Id, n: Id) => None, (o: Id, n: Id) => None, (e: CfgEdge) => {})

  datatype DefUse = DefUse(owner: Id, definition: Id, use: Id, location: Id)

  function NodeOwner(n: CfgNode): Id { n.owner }

  function EdgeOwner(e: CfgEdge): Id { e.owner }

  /** Nodes are listed once per owner, and edges join nodes of their own owner. */
  ghost predicate CfgAccepted(input: CfgInput) {
    && (forall i, j :: 0 <= i < j < |input.nodes| ==> NodeKey(input.nodes[i]) != NodeKey(input.nodes[j]))
    && (forall e :: e in input.edges ==>
          HasNode(input.nodes, e.owner, e.source) && HasNode(input.nodes, e.owner, e.target))
  }

  function NodeKey(n: CfgNode): (Id, Id) { (n.owner, n.node) }

  ghost predicate HasNode(nodes: seq<CfgNode>, owner: Id, node: Id) {
    exists n :: n in nodes && NodeKey(n) == (owner, node)
  }

  // Staging.

  /** Each row once, as staging hands rows on. */
  function Distinct<T(==)>(items: seq<T>): (r: seq<T>)
    ensures forall i, j :: 0 <= i < j < |r| ==> r[i] != r[j]
    ensures forall i :: 0 <= i < |items| ==> items[i] in r
    ensures forall x :: x in r ==> x in items
  {
    if items == [] then []
    else
      var init, last := Distinct(items[..|items| - 1]), items[|items| - 1];
      if last in init then init else init + [last]
  }

  // Working through a set.

  ghost predicate Parts<T>(all: set<T>, past: set<T>, rest: set<T>) {
    past !! rest && past + rest == all
  }

  lemma PartsStart<T>(all: set<T>)
    ensures Parts(all, {}, all)
  {
  }

  lemma PartsNext<T>(all: set<T>, past: set<T>, rest: set<T>, x: T)
    requires Parts(all, past, rest) && x in rest
    ensures Parts(all, past + {x}, rest - {x}) && x !in past && past + {x} <= all && |past + {x}| == |past| + 1
  {
  }

  lemma PartsEnd<T>(all: set<T>, past: set<T>)
    requires Parts(all, past, {})
    ensures past == all
  {
  }

  /** Deriving facts twice derives both. */
  lemma DerivedTwice(d: set<Fact>, d': set<Fact>, d'': set<Fact>, a: set<Fact>, b: set<Fact>)
    requires d' == d + a && d'' == d' + b
    ensures d'' == d + (a + b)
  {
  }

  // Which facts a full store loses.

  /** Facts derived first are stored first: all of d is stored, or the store is full of facts from d. */
  ghost predicate Decided(max: nat, facts: set<Fact>, d: set<Fact>) {
    d <= facts || (facts <= d && |facts| == max)
  }

  lemma DecidedStays(max: nat, facts: set<Fact>, facts': set<Fact>, d: set<Fact>)
    requires Decided(max, facts, d) && facts <= facts' && |facts'| <= max
    ensures Decided(max, facts', d)
  {
    Proper(facts, facts');
  }

  /** The first n owners in the order of their texts. */
  function FirstOwners(input: CfgInput, n: nat): set<Id> {
    Elements(First(Owners(input), n))
  }

  lemma FirstOwnersNext(input: CfgInput, i: nat)
    requires i < |Owners(input)|
    ensures |Ascending(Owners(input))| == |Owners(input)|
    ensures var o := Ascending(Owners(input))[i];
            o !in FirstOwners(input, i) && FirstOwners(input, i + 1) == FirstOwners(input, i) + {o}
  {
    hide Ascending;
    var order := Ascending(Owners(input));
    AscendingMeaning(Owners(input));
    assert order[..i + 1] == order[..i] + [order[i]];
    if i + 1 == |order| { assert order[..i + 1] == order; }
  }

  lemma FirstOwnersEnds(input: CfgInput, n: nat)
    ensures FirstOwners(input, 0) == {}
    ensures n >= |Owners(input)| ==> FirstOwners(input, n) == Owners(input)
  {
    hide Ascending;
    AscendingMeaning(Owners(input));
  }

  // Counting.

  function CountIf<T>(p: T -> bool, items: seq<T>): (n: nat)
    ensures n <= |items|
  {
    if items == [] then 0 else CountIf(p, items[1..]) + if p(items[0]) then 1 else 0
  }

  function OwnedBy<T(!new)>(key: T -> Id, items: seq<T>, o: Id): (r: seq<T>)
    ensures forall x :: x in r <==> x in items && key(x) == o
  {
    if items == [] then []
    else (if key(items[0]) == o then [items[0]] else []) + OwnedBy(key, items[1..], o)
  }

  function Among<T>(key: T -> Id, p: T -> bool, s: set<Id>): T -> bool {
    x => key(x) in s && p(x)
  }

  function Anything<T>(): T -> bool {
    x => true
  }

  lemma {:induction false} CountAdds<T(!new)>(key: T -> Id, p: T -> bool, items: seq<T>, s: set<Id>, o: Id)
    requires o !in s
    ensures CountIf(Among(key, p, s + {o}), items) == CountIf(Among(key, p, s), items)
            + CountIf(p, OwnedBy(key, items, o))
  {
    if items != [] {
      CountAdds(key, p, items[1..], s, o);
      var rest := OwnedBy(key, items[1..], o);
      if key(items[0]) == o { assert ([items[0]] + rest)[1..] == rest; } else { assert [] + rest == rest; }
    }
  }

  lemma {:induction false} CountNone<T>(key: T -> Id, p: T -> bool, items: seq<T>)
    ensures CountIf(Among(key, p, {}), items) == 0
  {
    if items != [] { CountNone(key, p, items[1..]); }
  }

  lemma {:induction false} CountSame<T(!new)>(p: T -> bool, q: T -> bool, items: seq<T>)
    requires forall x :: x in items ==> p(x) == q(x)
    ensures CountIf(p, items) == CountIf(q, items)
  {
    if items != [] {
      assert items[0] in items;
      CountSame(p, q, items[1..]);
    }
  }

  lemma {:induction false} CountEvery<T>(items: seq<T>)
    ensures CountIf(Anything(), items) == |items|
  {
    if items != [] { CountEvery(items[1..]); }
  }

  lemma CountNext<T>(p: T -> bool, items: seq<T>, i: nat)
    requires i < |items|
    ensures CountIf(p, items[i..]) == CountIf(p, items[i + 1..]) + if p(items[i]) then 1 else 0
  {
    assert items[i..][1..] == items[i + 1..];
  }

  // Control flow: which units are completed, and which facts are derived.

  /** One entry and at least one exit. */
  predicate Rooted(nodes: seq<CfgNode>) {
    CountIf((n: CfgNode) => n.entry, nodes) == 1 && CountIf((n: CfgNode) => n.exit, nodes) > 0
  }

  function HasAnswer(strict: NodeAnswers): CfgNode -> bool {
    (n: CfgNode) => strict(n.owner, n.node).Some?
  }

  /** The node's owner is rooted and the node has an answer. */
  function NodeDone(input: CfgInput, strict: NodeAnswers): CfgNode -> bool {
    (n: CfgNode) => Rooted(OwnedBy(NodeOwner, input.nodes, n.owner)) && strict(n.owner, n.node).Some?
  }

  function EdgeDone(input: CfgInput): CfgEdge -> bool {
    (e: CfgEdge) => Rooted(OwnedBy(NodeOwner, input.nodes, e.owner))
  }

  function NodeFacts(f: Family, nodes: seq<CfgNode>, strict: NodeAnswers, complete: bool): set<Fact> {
    set n, x | n in nodes && strict(n.owner, n.node).Some? && x in strict(n.owner, n.node).value ::
      Fact(f, n.node, Object(x), complete)
  }

  function EdgeFacts(edges: seq<CfgEdge>, dependents: CfgEdge -> set<Id>, complete: bool): set<Fact> {
    set e, y | e in edges && y in dependents(e) :: Fact(ControlDependence, y, Object(e.source), complete)
  }

  /** Facts come from rooted owners only. */
  function CfgFacts(input: CfgInput, r: CfgResults, owners: set<Id>, complete: bool): set<Fact> {
    set o, x | o in owners && x in OwnerFacts(OwnedBy(NodeOwner, input.nodes, o), OwnedBy(EdgeOwner, input.edges, o),
                                              r, complete) :: x
  }

  function OwnerFacts(nodes: seq<CfgNode>, edges: seq<CfgEdge>, r: CfgResults, complete: bool): set<Fact> {
    if !Rooted(nodes) then {}
    else NodeFacts(Dominator, nodes, r.dominators, complete)
         + NodeFacts(PostDominator, nodes, r.postDominators, complete)
         + EdgeFacts(edges, r.dependents, complete)
  }

  function CfgGrowth(dominators: Delta, postDominators: Delta, edges: Delta): Growth {
    f => if f == Dominator then dominators
         else if f == PostDominator then postDominators
         else if f == ControlDependence then edges
         else Delta(0, 0)
  }

  /** The units of one owner. */
  function OwnerGrowth(nodes: seq<CfgNode>, edges: seq<CfgEdge>, r: CfgResults): Growth {
    if !Rooted(nodes) then CfgGrowth(Delta(0, |nodes|), Delta(0, |nodes|), Delta(0, |edges|))
    else CfgGrowth(Delta(CountIf(HasAnswer(r.dominators), nodes), |nodes|),
                   Delta(CountIf(HasAnswer(r.postDominators), nodes), |nodes|), Delta(|edges|, |edges|))
  }

  /** The units of some owners. */
  function OwnersGrowth(input: CfgInput, r: CfgResults, s: set<Id>): Growth {
    var units := CountIf(Among(NodeOwner, Anything(), s), input.nodes);
    CfgGrowth(Delta(CountIf(Among(NodeOwner, NodeDone(input, r.dominators), s), input.nodes), units),
              Delta(CountIf(Among(NodeOwner, NodeDone(input, r.postDominators), s), input.nodes), units),
              Delta(CountIf(Among(EdgeOwner, EdgeDone(input), s), input.edges),
                    CountIf(Among(EdgeOwner, Anything(), s), input.edges)))
  }

  /** All units: a node is completed where its owner is rooted and it has an answer,
      an edge where its owner is rooted. */
  function WholeGrowth(input: CfgInput, r: CfgResults): Growth {
    CfgGrowth(Delta(CountIf(NodeDone(input, r.dominators), input.nodes), |input.nodes|),
              Delta(CountIf(NodeDone(input, r.postDominators), input.nodes), |input.nodes|),
              Delta(CountIf(EdgeDone(input), input.edges), |input.edges|))
  }

  lemma OwnersNone(input: CfgInput, r: CfgResults, f: Family)
    ensures OwnersGrowth(input, r, {})(f) == Delta(0, 0)
  {
    CountNone(NodeOwner, Anything(), input.nodes);
    CountNone(NodeOwner, NodeDone(input, r.dominators), input.nodes);
    CountNone(NodeOwner, NodeDone(input, r.postDominators), input.nodes);
    CountNone(EdgeOwner, Anything(), input.edges);
    CountNone(EdgeOwner, EdgeDone(input), input.edges);
  }

  /** Within one owner the counts are those of its own nodes and edges. */
  lemma OwnerCounts(input: CfgInput, o: Id, strict: NodeAnswers)
    ensures var nodes := OwnedBy(NodeOwner, input.nodes, o);
            CountIf(NodeDone(input, strict), nodes) == if Rooted(nodes) then CountIf(HasAnswer(strict), nodes) else 0
  {
    hide Rooted;
    var nodes := OwnedBy(NodeOwner, input.nodes, o);
    if Rooted(nodes) {
      CountSame(NodeDone(input, strict), HasAnswer(strict), nodes);
    } else {
      CountSame(NodeDone(input, strict), Among(NodeOwner, HasAnswer(strict), {}), nodes);
      CountNone(NodeOwner, HasAnswer(strict), nodes);
    }
  }

  lemma OwnerEdgeCounts(input: CfgInput, o: Id)
    ensures var nodes, edges := OwnedBy(NodeOwner, input.nodes, o), OwnedBy(EdgeOwner, input.edges, o);
            CountIf(EdgeDone(input), edges) == if Rooted(nodes) then |edges| else 0
  {
    hide Rooted;
    var nodes, edges := OwnedBy(NodeOwner, input.nodes, o), OwnedBy(EdgeOwner, input.edges, o);
    if Rooted(nodes) {
      CountSame(EdgeDone(input), Anything(), edges);
      CountEvery(edges);
    } else {
      CountSame(EdgeDone(input), Among(EdgeOwner, Anything(), {}), edges);
      CountNone(EdgeOwner, Anything(), edges);
    }
  }

  /** One more owner adds exactly its own units. */
  lemma OwnersNext(input: CfgInput, r: CfgResults, s: set<Id>, o: Id, f: Family)
    requires o !in s
    ensures var nodes, edges := OwnedBy(NodeOwner, input.nodes, o), OwnedBy(EdgeOwner, input.edges, o);
            OwnersGrowth(input, r, s + {o})(f) == Plus(OwnersGrowth(input, r, s), OwnerGrowth(nodes, edges, r))(f)
  {
    hide Rooted, OwnedBy, Among, NodeDone, EdgeDone, HasAnswer;
    var nodes, edges := OwnedBy(NodeOwner, input.nodes, o), OwnedBy(EdgeOwner, input.edges, o);
    CountAdds(NodeOwner, Anything(), input.nodes, s, o);
    CountAdds(NodeOwner, NodeDone(input, r.dominators), input.nodes, s, o);
    CountAdds(NodeOwner, NodeDone(input, r.postDominators), input.nodes, s, o);
    CountAdds(EdgeOwner, Anything(), input.edges, s, o);
    CountAdds(EdgeOwner, EdgeDone(input), input.edges, s, o);
    OwnerCounts(input, o, r.dominators);
    OwnerCounts(input, o, r.postDominators);
    OwnerEdgeCounts(input, o);
    CountEvery(nodes);
    CountEvery(edges);
  }

  /** Accepted edges stay inside an owner that has nodes. */
  ghost predicate CfgValid(input: CfgInput) {
    forall e :: e in input.edges ==> exists n :: n in input.nodes && n.owner == e.owner
  }

  function Owners(input: CfgInput): set<Id> {
    set n | n in input.nodes :: n.owner
  }

  lemma OwnersAll(input: CfgInput, r: CfgResults, f: Family)
    requires CfgValid(input)
    ensures OwnersGrowth(input, r, Owners(input))(f) == WholeGrowth(input, r)(f)
  {
    hide Rooted, OwnedBy, NodeDone, EdgeDone;
    var s := Owners(input);
    CountSame(Among(NodeOwner, Anything(), s), Anything(), input.nodes);
    CountSame(Among(NodeOwner, NodeDone(input, r.dominators), s), NodeDone(input, r.dominators), input.nodes);
    CountSame(Among(NodeOwner, NodeDone(input, r.postDominators), s), NodeDone(input, r.postDominators), input.nodes);
    CountSame(Among(EdgeOwner, Anything(), s), Anything(), input.edges);
    CountSame(Among(EdgeOwner, EdgeDone(input), s), EdgeDone(input), input.edges);
    CountEvery(input.nodes);
    CountEvery(input.edges);
  }

  lemma NextNode(f: Family, nodes: seq<CfgNode>, n: CfgNode, strict: NodeAnswers, complete: bool)
    ensures NodeFacts(f, nodes + [n], strict, complete) ==
            NodeFacts(f, nodes, strict, complete) + NodeFacts(f, [n], strict, complete)
  {
    assert forall x :: x in nodes + [n] <==> x in nodes || x in [n];
  }

  lemma NextEdge(edges: seq<CfgEdge>, e: CfgEdge, dependents: CfgEdge -> set<Id>, complete: bool)
    ensures EdgeFacts(edges + [e], dependents, complete) ==
            EdgeFacts(edges, dependents, complete) + EdgeFacts([e], dependents, complete)
  {
    assert forall x :: x in edges + [e] <==> x in edges || x in [e];
  }

  lemma NextOwner(input: CfgInput, r: CfgResults, s: set<Id>, o: Id, complete: bool)
    ensures CfgFacts(input, r, s + {o}, complete) ==
            CfgFacts(input, r, s, complete)
            + OwnerFacts(OwnedBy(NodeOwner, input.nodes, o), OwnedBy(EdgeOwner, input.edges, o), r, complete)
  {
    hide OwnerFacts, OwnedBy;
  }

  // Calls.

  /** Distinct resolved calls: caller, callee and site. */
  function ResolvedRows(calls: seq<CallSite>): set<(Id, Id, Id)> {
    set k | k in calls && k.resolution.Exact? :: (k.caller, k.resolution.callee, k.site)
  }

  function CallFacts(rows: set<(Id, Id, Id)>): set<Fact> {
    set row | row in rows :: Fact(CallEdge, row.0, Callee(row.1, row.2), true)
  }

  function Unresolved(calls: seq<CallSite>): nat {
    if calls == [] then 0
    else Unresolved(calls[..|calls| - 1]) + if calls[|calls| - 1].resolution.Exact? then 0 else 1
  }

  function Members(components: seq<seq<Id>>): nat {
    if components == [] then 0 else Members(components[..|components| - 1]) + |components[|components| - 1]|
  }

  function MembershipFacts(components: seq<seq<Id>>, complete: bool): set<Fact> {
    set c, m | c in components && m in c :: Fact(SccMembership, m, Component(c), complete)
  }

  function SourceFacts(s: Id, reached: map<Id, nat>, complete: bool): set<Fact> {
    set t | t in reached :: Fact(ReachablePair, s, Steps(t, reached[t]), complete)
  }

  function PairFacts(pairs: map<Id, map<Id, nat>>, sources: set<Id>, complete: bool): set<Fact>
    requires sources <= pairs.Keys
  {
    set s, x | s in sources && x in SourceFacts(s, pairs[s], complete) :: x
  }

  function SummaryFactsOf(c: Id, effects: set<Id>, resources: set<Id>, complete: bool): set<Fact> {
    (set e | e in effects :: Fact(CallableEffect, c, Value(e), complete))
    + (set r | r in resources :: Fact(CallableResource, c, Value(r), complete))
    + {Fact(CallableSummary, c, Summary(effects, resources), complete)}
  }

  function SummaryFacts(callables: set<Id>, effects: map<Id, set<Id>>, resources: map<Id, set<Id>>,
                        complete: set<Id>): set<Fact>
    requires callables <= effects.Keys && callables <= resources.Keys
  {
    set c, x | c in callables && x in SummaryFactsOf(c, effects[c], resources[c], c in complete) :: x
  }

  function DataFacts(rows: seq<DefUse>, complete: bool): set<Fact> {
    set row | row in rows :: Fact(DataDependence, row.use, Location(row.definition, row.location), complete)
  }

  /** Accepted calls: one caller per site, and no target observed twice. */
  ghost predicate ValidCalls(calls: seq<CallSite>) {
    forall i, j :: 0 <= i < j < |calls| && calls[i].site == calls[j].site ==>
      calls[i].caller == calls[j].caller && calls[i].resolution != calls[j].resolution
  }

  /** Resolved rows and unresolved calls together are all calls. */
  lemma {:induction false} CallsCount(calls: seq<CallSite>)
    requires ValidCalls(calls)
    ensures |ResolvedRows(calls)| + Unresolved(calls) == |calls|
  {
    if calls == [] {
      assert ResolvedRows(calls) == {};
    } else {
      hide ResolvedRows, ValidCalls;
      var init, last := calls[..|calls| - 1], calls[|calls| - 1];
      InitValid(calls);
      CallsCount(init);
      ResolvedNext(init, last);
      assert calls == init + [last];
      if last.resolution.Exact? { NotRepeated(calls, |init|); }
    }
  }

  lemma InitValid(calls: seq<CallSite>)
    requires ValidCalls(calls) && calls != []
    ensures ValidCalls(calls[..|calls| - 1])
  {
  }

  lemma ResolvedNext(init: seq<CallSite>, last: CallSite)
    ensures ResolvedRows(init + [last]) ==
            if last.resolution.Exact? then ResolvedRows(init) + {(last.caller, last.resolution.callee, last.site)}
            else ResolvedRows(init)
  {
    assert forall k :: k in init + [last] <==> k in init || k == last;
  }

  lemma NotRepeated(calls: seq<CallSite>, n: nat)
    requires ValidCalls(calls) && n < |calls| && calls[n].resolution.Exact?
    ensures (calls[n].caller, calls[n].resolution.callee, calls[n].site) !in ResolvedRows(calls[..n])
  {
    forall k | k in calls[..n] && k.resolution.Exact?
      ensures (k.caller, k.resolution.callee, k.site) != (calls[n].caller, calls[n].resolution.callee, calls[n].site)
    {
      var i :| 0 <= i < n && calls[..n][i] == k;
      assert calls[i] == k;
    }
  }

  lemma {:induction false} DistinctCount(s: seq<Id>)
    requires NoRepeats(s)
    ensures |Elements(s)| == |s|
  {
    if s != [] {
      var init := s[..|s| - 1];
      DistinctCount(init);
      assert Elements(s) == Elements(init) + {s[|s| - 1]};
    }
  }

  /** The sources that contribute and those that do not make up all callables. */
  lemma SourcesSplit(s: set<Id>, m: nat)
    requires m <= |Ascending(s)|
    ensures |set x | x in Ascending(s)[..m]| == m && m + |Ascending(s)[m..]| == |s|
  {
    hide Ascending;
    var order := Ascending(s);
    AscendingMeaning(s);
    assert NoRepeats(order) && NoRepeats(order[..m]);
    DistinctCount(order);
    DistinctCount(order[..m]);
    assert Elements(order) == s;
    assert Elements(order[..m]) == set x | x in order[..m];
  }

  lemma {:induction false} MembersScheduled(components: seq<seq<Id>>)
    requires NoRepeatsAcross(components)
    ensures Members(components) == |Scheduled(components)|
  {
    if components != [] {
      var n := |components| - 1;
      MembersScheduled(components[..n]);
      DistinctCount(components[n]);
      PrefixSchedule(components, n);
      assert components[..n + 1] == components;
    }
  }

  lemma MembersCount(components: seq<seq<Id>>, callables: set<Id>)
    requires IsSchedule(components, callables)
    ensures Members(components) == |callables|
  {
    MembersScheduled(components);
  }

  lemma NoFacts(f: Family, strict: NodeAnswers, complete: bool)
    ensures NodeFacts(f, [], strict, complete) == {}
  {
  }

  lemma NoEdgeFacts(dependents: CfgEdge -> set<Id>, complete: bool)
    ensures EdgeFacts([], dependents, complete) == {}
  {
  }

  lemma NextDatum(rows: seq<DefUse>, row: DefUse, complete: bool)
    ensures DataFacts(rows + [row], complete) == DataFacts(rows, complete) + DataFacts([row], complete)
  {
    assert forall x :: x in rows + [row] <==> x in rows || x in [row];
  }

  lemma NextSummary(past: set<Id>, effects: map<Id, set<Id>>, resources: map<Id, set<Id>>, complete: set<Id>, c: Id)
    requires past + {c} <= effects.Keys && past + {c} <= resources.Keys
    ensures SummaryFacts(past + {c}, effects, resources, complete) ==
            SummaryFacts(past, effects, resources, complete)
                + SummaryFactsOf(c, effects[c], resources[c], c in complete)
  {
    hide SummaryFactsOf;
  }

  function Common(a: set<Id>, b: set<Id>): nat {
    |a * b|
  }

  lemma OneMoreCommon(past: set<Id>, complete: set<Id>, c: Id)
    requires c !in past
    ensures Common(past + {c}, complete) == Common(past, complete) + if c in complete then 1 else 0
  {
    if c in complete { assert (past + {c}) * complete == past * complete + {c}; }
    else { assert (past + {c}) * complete == past * complete; }
  }

  lemma CommonEnds(all: set<Id>, complete: set<Id>)
    requires complete <= all
    ensures Common({}, complete) == 0 && Common(all, complete) == |complete|
  {
    assert {} * complete == {} && all * complete == complete;
  }

  lemma NextCall(rows: set<(Id, Id, Id)>, row: (Id, Id, Id))
    ensures CallFacts(rows + {row}) == CallFacts(rows) + {Fact(CallEdge, row.0, Callee(row.1, row.2), true)}
  {
  }

  lemma NextSource(pairs: map<Id, map<Id, nat>>, sources: set<Id>, s: Id, complete: bool)
    requires sources + {s} <= pairs.Keys
    ensures PairFacts(pairs, sources + {s}, complete) ==
            PairFacts(pairs, sources, complete) + SourceFacts(s, pairs[s], complete)
  {
    hide SourceFacts;
  }

  function MemberFacts(component: seq<Id>, n: nat, complete: bool): set<Fact>
    requires n <= |component|
  {
    set m | m in component[..n] :: Fact(SccMembership, m, Component(component), complete)
  }

  lemma NextMember(component: seq<Id>, i: nat, complete: bool)
    requires i < |component|
    ensures MemberFacts(component, i + 1, complete) ==
            MemberFacts(component, i, complete) + {Fact(SccMembership, component[i], Component(component), complete)}
  {
    assert forall m :: m in component[..i + 1] <==> m in component[..i] || m == component[i];
  }

  lemma MemberFactsEnds(component: seq<Id>, complete: bool)
    ensures MemberFacts(component, 0, complete) == {}
    ensures MemberFacts(component, |component|, complete) == MembershipFacts([component], complete)
  {
    assert component[..|component|] == component;
  }

  lemma NextComponent(components: seq<seq<Id>>, component: seq<Id>, complete: bool)
    ensures MembershipFacts(components + [component], complete) ==
            MembershipFacts(components, complete) + MembershipFacts([component], complete)
  {
    assert forall c :: c in components + [component] <==> c in components || c in [component];
  }

  lemma NothingDerived(sources: map<Id, map<Id, nat>>, complete: bool)
    ensures DataFacts([], complete) == {} && CallFacts({}) == {} && PairFacts(sources, {}, complete) == {}
    ensures MembershipFacts([], complete) == {}
  {
  }

  lemma NoSummaryFacts(effects: map<Id, set<Id>>, resources: map<Id, set<Id>>, complete: set<Id>)
    ensures SummaryFacts({}, effects, resources, complete) == {}
  {
  }
}
