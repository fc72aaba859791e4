/** What the census of a given input says, family by family. */
module CensusReport {
  import opened Prelude
  import opened Digraph
  import opened CallSummaries
  import opened CallAnalysis
  import opened SummaryPass
  import opened CensusTally
  import opened CensusFacts
  import opened CfgAnswers
  import opened Census

  /** A coverage row with nothing open. */
  predicate Covered(c: Coverage) {
    c.requested == c.completed && c.remainder == 0 && c.unknown == 0
  }

  /** The calls of the given input, with the completeness that its coverage rows report. */
  function CallsGiven(given: Given): Input {
    Input(given.calls, given.locals, Covered(given.coverage.calls), Covered(given.coverage.locals))
  }

  lemma StagedCalls(given: Given)
    ensures Staged(given).calls == CallsGiven(given)
    ensures Staged(given).coverage == given.coverage && Staged(given).cfg.nodes == given.cfg.nodes
    ensures forall e :: e in Staged(given).cfg.edges <==> e in given.cfg.edges
    ensures forall row :: row in Staged(given).defUse <==> row in given.defUse
  {
    hide Distinct;
  }

  // Facts.

  /** All calls fit their bounds. */
  predicate CallsFit(given: Given, b: Bounds) {
    |Callables(CallsGiven(given))| <= b.callables && |given.calls| <= b.callSites
  }

  predicate AllResolved(given: Given) {
    forall k :: k in given.calls ==> k.resolution.Exact?
  }

  lemma {:induction false} UnresolvedIff(calls: seq<CallSite>)
    ensures Unresolved(calls) == 0 <==> forall k :: k in calls ==> k.resolution.Exact?
  {
    if calls != [] {
      var init, last := calls[..|calls| - 1], calls[|calls| - 1];
      UnresolvedIff(init);
      assert calls == init + [last];
    }
  }

  lemma FamilyOf(given: Given, r: CfgResults, b: Bounds, components: seq<seq<Id>>, o: CallOutcome, fact: Fact)
    requires b.iterations >= 1 && (CallsFit(given, b) ==> IsOutcome(CallsGiven(given), b, o))
    ensures Staged(given).calls == CallsGiven(given)
    ensures fact in AllFacts(Staged(given), r, b, components, o) <==>
            match fact.family
            case Dominator => fact in CfgPart(Staged(given), r, b)
            case PostDominator => fact in CfgPart(Staged(given), r, b)
            case ControlDependence => fact in CfgPart(Staged(given), r, b)
            case DataDependence => fact in DataFacts(Staged(given).defUse, Covered(given.coverage.defUse))
            case _ => CallsFit(given, b) && fact in GraphFacts(CallsGiven(given), b, components, o)
  {
    hide IsOutcome, CfgFacts, ResolvedRows, Callables, Unresolved, CompleteCallables;
    StagedCalls(given);
    if fact in CfgPart(Staged(given), r, b) { CfgFamilies(Staged(given), r, b, fact); }
    if CallsFit(given, b) && fact in GraphFacts(CallsGiven(given), b, components, o) {
      CallFamilies(CallsGiven(given), b, components, o, fact);
    }
  }

  lemma CfgFamilies(e: Everything, r: CfgResults, b: Bounds, fact: Fact)
    requires fact in CfgPart(e, r, b)
    ensures fact.family in {Dominator, PostDominator, ControlDependence}
  {
    hide Rooted, OwnedBy;
  }

  lemma CallFamilies(input: Input, b: Bounds, components: seq<seq<Id>>, o: CallOutcome, fact: Fact)
    requires b.iterations >= 1 && IsOutcome(input, b, o) && fact in GraphFacts(input, b, components, o)
    ensures fact.family !in {Dominator, PostDominator, ControlDependence, DataDependence}
  {
    hide IsOutcome, ResolvedRows, Callables, Unresolved, CompleteCallables;
  }

  /** A data dependence is derived exactly for a given row, complete exactly as the coverage of the rows is. */
  lemma DataFactsIff(given: Given, r: CfgResults, b: Bounds, components: seq<seq<Id>>, o: CallOutcome, definition: Id,
                     use: Id, location: Id, complete: bool)
    requires b.iterations >= 1 && (CallsFit(given, b) ==> IsOutcome(CallsGiven(given), b, o))
    ensures Staged(given).calls == CallsGiven(given)
    ensures Fact(DataDependence, use, Location(definition, location), complete)
            in AllFacts(Staged(given), r, b, components, o) <==>
            && complete == Covered(given.coverage.defUse)
            && exists owner :: DefUse(owner, definition, use, location) in given.defUse
  {
    hide IsOutcome, AllFacts, CfgPart, GraphFacts;
    var fact := Fact(DataDependence, use, Location(definition, location), complete);
    FamilyOf(given, r, b, components, o, fact);
    StagedCalls(given);
    if fact in DataFacts(Staged(given).defUse, Covered(given.coverage.defUse)) {
      var row :| row in Staged(given).defUse
                 && fact == Fact(DataDependence, row.use, Location(row.definition, row.location), complete);
      assert DefUse(row.owner, definition, use, location) == row;
    }
  }

  /** A call edge is derived exactly for a resolved call. */
  lemma CallFactsIff(given: Given, r: CfgResults, b: Bounds, components: seq<seq<Id>>, o: CallOutcome, caller: Id,
                     callee: Id, site: Id, complete: bool)
    requires b.iterations >= 1 && (CallsFit(given, b) ==> IsOutcome(CallsGiven(given), b, o))
    ensures Staged(given).calls == CallsGiven(given)
    ensures Fact(CallEdge, caller, Callee(callee, site), complete) in AllFacts(Staged(given), r, b, components, o) <==>
            CallsFit(given, b) && complete && CallSite(site, caller, Exact(callee)) in given.calls
  {
    hide IsOutcome, AllFacts, CfgPart, MembershipFacts, PairFacts, SummaryFacts, Unresolved, Callables,
         CompleteCallables;
    var fact := Fact(CallEdge, caller, Callee(callee, site), complete);
    FamilyOf(given, r, b, components, o, fact);
    if CallsFit(given, b) {
      OnlyCallEdges(CallsGiven(given), b, components, o, fact);
      if CallSite(site, caller, Exact(callee)) in given.calls {
        assert (caller, callee, site) in ResolvedRows(given.calls);
      }
    }
  }

  /** Facts of the call families lie where their family says. */
  lemma OnlyCallEdges(input: Input, b: Bounds, components: seq<seq<Id>>, o: CallOutcome, fact: Fact)
    requires b.iterations >= 1 && IsOutcome(input, b, o)
    ensures var topology := Unresolved(input.calls) == 0 && input.callCoverage;
            fact in GraphFacts(input, b, components, o) <==>
            match fact.family
            case CallEdge => fact in CallFacts(ResolvedRows(input.calls))
            case SccMembership => fact in MembershipFacts(components, topology)
            case ReachablePair => fact in PairFacts(o.pairs, o.pairs.Keys, topology)
            case CallableEffect =>
              fact in SummaryFacts(Callables(input), o.effects, o.resources, CompleteCallables(input, b))
            case CallableResource =>
              fact in SummaryFacts(Callables(input), o.effects, o.resources, CompleteCallables(input, b))
            case CallableSummary =>
              fact in SummaryFacts(Callables(input), o.effects, o.resources, CompleteCallables(input, b))
            case _ => false
  {
    hide IsOutcome, ResolvedRows, Callables, Unresolved, CompleteCallables;
  }

  /** Membership in a component is derived exactly for its members, complete if every call is resolved and covered. */
  lemma MemberFactsIff(given: Given, r: CfgResults, b: Bounds, components: seq<seq<Id>>, o: CallOutcome, member: Id,
                       component: seq<Id>, complete: bool)
    requires b.iterations >= 1 && (CallsFit(given, b) ==> IsOutcome(CallsGiven(given), b, o))
    ensures Staged(given).calls == CallsGiven(given)
    ensures Fact(SccMembership, member, Component(component), complete)
            in AllFacts(Staged(given), r, b, components, o) <==>
            && CallsFit(given, b) && complete == (AllResolved(given) && Covered(given.coverage.calls))
            && component in components && member in component
  {
    hide IsOutcome, AllFacts, CfgPart, GraphFacts, Unresolved, Callables;
    var fact := Fact(SccMembership, member, Component(component), complete);
    FamilyOf(given, r, b, components, o, fact);
    UnresolvedIff(given.calls);
    if CallsFit(given, b) { OnlyCallEdges(CallsGiven(given), b, components, o, fact); }
  }

  /** A reachable pair is derived exactly for what the search found, with its distance. */
  lemma PairFactsIff(given: Given, r: CfgResults, b: Bounds, components: seq<seq<Id>>, o: CallOutcome, source: Id,
                     target: Id, steps: nat, complete: bool)
    requires b.iterations >= 1 && (CallsFit(given, b) ==> IsOutcome(CallsGiven(given), b, o))
    ensures Staged(given).calls == CallsGiven(given)
    ensures Fact(ReachablePair, source, Steps(target, steps), complete)
            in AllFacts(Staged(given), r, b, components, o) <==>
            && CallsFit(given, b) && complete == (AllResolved(given) && Covered(given.coverage.calls))
            && source in o.pairs && target in o.pairs[source] && o.pairs[source][target] == steps
  {
    hide IsOutcome, AllFacts, CfgPart, GraphFacts, Unresolved, Callables;
    var fact := Fact(ReachablePair, source, Steps(target, steps), complete);
    FamilyOf(given, r, b, components, o, fact);
    UnresolvedIff(given.calls);
    if CallsFit(given, b) {
      var topology := Unresolved(given.calls) == 0 && Covered(given.coverage.calls);
      OnlyCallEdges(CallsGiven(given), b, components, o, fact);
      if source in o.pairs && target in o.pairs[source] && o.pairs[source][target] == steps && complete == topology {
        assert fact in SourceFacts(source, o.pairs[source], topology);
      }
    }
  }

  /** Effects, resources and summaries are derived exactly as the rows have them, complete or not. */
  lemma SummaryFactsIff(given: Given, r: CfgResults, b: Bounds, components: seq<seq<Id>>, o: CallOutcome, c: Id, v: Id,
                        effects: set<Id>, resources: set<Id>, complete: bool)
    requires b.iterations >= 1 && (CallsFit(given, b) ==> IsOutcome(CallsGiven(given), b, o))
    ensures Staged(given).calls == CallsGiven(given)
    ensures var known := CallsFit(given, b) && c in o.effects && c in o.resources
                         && complete == (c in CompleteCallables(CallsGiven(given), b));
            var all := AllFacts(Staged(given), r, b, components, o);
            && (Fact(CallableEffect, c, Value(v), complete) in all <==> known && v in o.effects[c])
            && (Fact(CallableResource, c, Value(v), complete) in all <==> known && v in o.resources[c])
            && (Fact(CallableSummary, c, Summary(effects, resources), complete) in all <==>
                  known && effects == o.effects[c] && resources == o.resources[c])
  {
    hide AllFacts, CfgPart, GraphFacts, Unresolved, Callables, CompleteCallables, RowsAre, ArePairs, ExactAt;
    var e, s := Fact(CallableEffect, c, Value(v), complete), Fact(CallableResource, c, Value(v), complete);
    var t := Fact(CallableSummary, c, Summary(effects, resources), complete);
    FamilyOf(given, r, b, components, o, e);
    FamilyOf(given, r, b, components, o, s);
    FamilyOf(given, r, b, components, o, t);
    if CallsFit(given, b) {
      OnlyCallEdges(CallsGiven(given), b, components, o, e);
      OnlyCallEdges(CallsGiven(given), b, components, o, s);
      OnlyCallEdges(CallsGiven(given), b, components, o, t);
      SummaryFactsAre(CallsGiven(given), b, o, c, v, effects, resources, complete);
    }
  }

  lemma SummaryFactsAre(input: Input, b: Bounds, o: CallOutcome, c: Id, v: Id, effects: set<Id>, resources: set<Id>,
                        complete: bool)
    requires b.iterations >= 1 && o.effects.Keys == o.resources.Keys == Callables(input)
    ensures var known := c in o.effects && c in o.resources && complete == (c in CompleteCallables(input, b));
            var all := SummaryFacts(Callables(input), o.effects, o.resources, CompleteCallables(input, b));
            && (Fact(CallableEffect, c, Value(v), complete) in all <==> known && v in o.effects[c])
            && (Fact(CallableResource, c, Value(v), complete) in all <==> known && v in o.resources[c])
            && (Fact(CallableSummary, c, Summary(effects, resources), complete) in all <==>
                  known && effects == o.effects[c] && resources == o.resources[c])
  {
    hide Callables, CompleteCallables, SummaryFacts;
    var complete' := CompleteCallables(input, b);
    SummaryMember(Callables(input), o.effects, o.resources, complete', Fact(CallableEffect, c, Value(v), complete));
    SummaryMember(Callables(input), o.effects, o.resources, complete', Fact(CallableResource, c, Value(v), complete));
    SummaryMember(Callables(input), o.effects, o.resources, complete',
                  Fact(CallableSummary, c, Summary(effects, resources), complete));
  }

  lemma SummaryMember(callables: set<Id>, effects: map<Id, set<Id>>, resources: map<Id, set<Id>>, complete: set<Id>,
                      fact: Fact)
    requires callables <= effects.Keys && callables <= resources.Keys
    ensures fact in SummaryFacts(callables, effects, resources, complete) <==>
            fact.subject in callables &&
            fact in SummaryFactsOf(fact.subject, effects[fact.subject], resources[fact.subject],
                                   fact.subject in complete)
  {
    forall c, x | c in callables && x in SummaryFactsOf(c, effects[c], resources[c], c in complete)
      ensures x.subject == c
    {
    }
  }

  // Rows.

  lemma GapTogether(g: Upstream, h: Upstream, f: Family)
    ensures Gap(Together(g, h)(f)) == Gap(g(f)) + Gap(h(f))
  {
  }

  lemma GapPassing(i: InputFamily, c: Coverage, f: Family)
    ensures Gap(Passing(i, c)(f)) == if Feeds(i, f) then c.remainder + c.unknown else 0
  {
  }

  lemma OpenUnits(c: Coverages, f: Family)
    ensures var cfg, calls := c.cfg.remainder + c.cfg.unknown, c.calls.remainder + c.calls.unknown;
            var locals := c.locals.remainder + c.locals.unknown;
            Gap(Inherits(c)(f)) == match f
            case Dominator => cfg
            case PostDominator => cfg
            case ControlDependence => cfg
            case DataDependence => c.defUse.remainder + c.defUse.unknown
            case CallEdge => calls
            case SccMembership => calls
            case ReachablePair => calls
            case CallableEffect => calls + locals
            case CallableResource => calls + locals
            case CallableSummary => calls + locals
  {
    hide Together, Passing, Gap;
    var p, q, u, v := Passing(Cfg, c.cfg), Passing(DefUseReaching, c.defUse), Passing(CallTargets, c.calls),
        Passing(LocalEffectResource, c.locals);
    GapTogether(p, q, f);
    GapTogether(Together(p, q), u, f);
    GapTogether(Together(Together(p, q), u), v, f);
    GapPassing(Cfg, c.cfg, f);
    GapPassing(DefUseReaching, c.defUse, f);
    GapPassing(CallTargets, c.calls, f);
    GapPassing(LocalEffectResource, c.locals, f);
  }

  lemma FinalRow(w: Delta, c: Coverage, lost: bool)
    requires w.done <= w.units
    ensures Final(w, c, lost).requested == w.units + Gap(c) + if lost then 1 else 0
    ensures Final(w, c, lost).completed == w.done
  {
  }

  /** Units requested of each family: what the input lists, what its coverage leaves open, and one for lost facts. */
  lemma RequestedRows(t: Tally, given: Given, r: CfgResults, b: Bounds, o: CallOutcome, lost: set<Family>, f: Family)
    requires b.iterations >= 1 && IsReport(t, Work(Staged(given), r, b, o), given.coverage, lost)
    ensures f in t && Staged(given).calls == CallsGiven(given)
    ensures var c, callables := given.coverage, |Callables(CallsGiven(given))|;
            var cfg, calls := c.cfg.remainder + c.cfg.unknown, c.calls.remainder + c.calls.unknown;
            t[f].requested == (if f in lost then 1 else 0) + match f
            case Dominator => |given.cfg.nodes| + cfg
            case PostDominator => |given.cfg.nodes| + cfg
            case ControlDependence => |Staged(given).cfg.edges| + cfg
            case DataDependence => |Staged(given).defUse| + c.defUse.remainder + c.defUse.unknown
            case CallEdge => |given.calls| + calls
            case SccMembership => callables + Unresolved(given.calls) + calls
            case ReachablePair => callables + Unresolved(given.calls) + calls
            case CallableEffect => callables + calls + c.locals.remainder + c.locals.unknown
            case CallableResource => callables + calls + c.locals.remainder + c.locals.unknown
            case CallableSummary => callables + calls + c.locals.remainder + c.locals.unknown
  {
    assert f in t;
    hide Callables, Unresolved, Work, Inherits, Final, Gap, Distinct, IsReport;
    StagedCalls(given);
    WorkUnits(Staged(given), r, b, o, f);
    OpenUnits(given.coverage, f);
    FinalRow(Work(Staged(given), r, b, o)(f), Inherits(given.coverage)(f), f in lost);
  }

  lemma WorkDone(given: Given, r: CfgResults, b: Bounds, o: CallOutcome, f: Family)
    requires b.iterations >= 1 && !Feeds(Cfg, f)
    ensures Staged(given).calls == CallsGiven(given)
    ensures var fits := CallsFit(given, b);
            Work(Staged(given), r, b, o)(f).done == match f
            case DataDependence => |Staged(given).defUse|
            case CallEdge => if fits then |ResolvedRows(given.calls)| else 0
            case SccMembership => if fits then |Callables(CallsGiven(given))| else 0
            case ReachablePair => if fits then o.sources else 0
            case _ => if fits then |CompleteCallables(CallsGiven(given), b)| else 0
  {
    hide Callables, Unresolved, ResolvedRows, CompleteCallables, Distinct, CfgWork;
    StagedCalls(given);
    CallDone(CallsGiven(given), b, o, f);
  }

  lemma CallDone(input: Input, b: Bounds, o: CallOutcome, f: Family)
    requires b.iterations >= 1
    ensures var fits := |Callables(input)| <= b.callables && |input.calls| <= b.callSites;
            CallWork(input, b, o)(f).done ==
            if !fits || !Feeds(CallTargets, f) then 0
            else if f == CallEdge then |ResolvedRows(input.calls)|
            else if f == SccMembership then |Callables(input)|
            else if f == ReachablePair then o.sources
            else |CompleteCallables(input, b)|
  {
    hide Callables, Unresolved, ResolvedRows, CompleteCallables;
  }

  /** Units completed of each call family. */
  lemma CompletedRows(t: Tally, given: Given, r: CfgResults, b: Bounds, o: CallOutcome, lost: set<Family>, f: Family)
    requires b.iterations >= 1 && IsReport(t, Work(Staged(given), r, b, o), given.coverage, lost)
    requires !Feeds(Cfg, f)
    ensures f in t && Staged(given).calls == CallsGiven(given)
    ensures var fits := CallsFit(given, b);
            t[f].completed == match f
            case DataDependence => |Staged(given).defUse|
            case CallEdge => if fits then |ResolvedRows(given.calls)| else 0
            case SccMembership => if fits then |Callables(CallsGiven(given))| else 0
            case ReachablePair => if fits then o.sources else 0
            case _ => if fits then |CompleteCallables(CallsGiven(given), b)| else 0
  {
    assert f in t;
    hide Callables, ResolvedRows, CompleteCallables, Work, Final, Inherits, Distinct;
    WorkDone(given, r, b, o, f);
    FinalRow(Work(Staged(given), r, b, o)(f), Inherits(given.coverage)(f), f in lost);
  }

  /** The node is reached, in an owner with one entry and an exit. */
  function ReachedNode(input: CfgInput, strict: NodeAnswers): CfgNode -> bool {
    (n: CfgNode) => RootedOwner(input, n.owner) && strict(n.owner, n.node).Some?
  }

  function RootedEdge(input: CfgInput): CfgEdge -> bool {
    (e: CfgEdge) => RootedOwner(input, e.owner)
  }

  lemma ReachedAreDone(input: CfgInput, strict: NodeAnswers)
    ensures CountIf(ReachedNode(input, strict), input.nodes) == CountIf(NodeDone(input, strict), input.nodes)
  {
    var p, q := ReachedNode(input, strict), NodeDone(input, strict);
    forall n | n in input.nodes ensures p(n) == q(n) { RootedIs(input, n.owner); }
    CountSame(p, q, input.nodes);
  }

  lemma CfgDone(input: CfgInput, r: CfgResults, b: Bounds)
    ensures var w := CfgWork(input, r, b);
            if |input.nodes| <= b.cfgNodes && |input.edges| <= b.cfgEdges then
              && w(Dominator).done == CountIf(ReachedNode(input, r.dominators), input.nodes)
              && w(PostDominator).done == CountIf(ReachedNode(input, r.postDominators), input.nodes)
              && w(ControlDependence).done == CountIf(RootedEdge(input), input.edges)
            else w(Dominator).done == 0 && w(PostDominator).done == 0 && w(ControlDependence).done == 0
  {
    hide CountIf, Rooted, OwnedBy;
    ReachedAreDone(input, r.dominators);
    ReachedAreDone(input, r.postDominators);
    CountSame(RootedEdge(input), EdgeDone(input), input.edges);
  }

  /** Units completed of each control-flow family: the edges of owners with one entry and an exit, and those of their
      nodes that are reached. */
  lemma CompletedCfgRows(t: Tally, given: Given, r: CfgResults, b: Bounds, o: CallOutcome, lost: set<Family>)
    requires b.iterations >= 1 && IsReport(t, Work(Staged(given), r, b, o), given.coverage, lost)
    ensures Dominator in t && PostDominator in t && ControlDependence in t
    ensures var input := Staged(given).cfg;
            if |input.nodes| <= b.cfgNodes && |input.edges| <= b.cfgEdges then
              && t[Dominator].completed == CountIf(ReachedNode(input, r.dominators), input.nodes)
              && t[PostDominator].completed == CountIf(ReachedNode(input, r.postDominators), input.nodes)
              && t[ControlDependence].completed == CountIf(RootedEdge(input), input.edges)
            else t[Dominator].completed == 0 && t[PostDominator].completed == 0 && t[ControlDependence].completed == 0
  {
    hide Inherits, Final, Distinct, CallWork, CfgWork, CountIf, ReachedNode, RootedEdge;
    var w := Work(Staged(given), r, b, o);
    assert Dominator in t && PostDominator in t && ControlDependence in t;
    FinalRow(w(Dominator), Inherits(given.coverage)(Dominator), Dominator in lost);
    FinalRow(w(PostDominator), Inherits(given.coverage)(PostDominator), PostDominator in lost);
    FinalRow(w(ControlDependence), Inherits(given.coverage)(ControlDependence), ControlDependence in lost);
    CfgDone(Staged(given).cfg, r, b);
  }
}
