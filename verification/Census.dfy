/** The completeness census: every requested unit of every family is accounted for. */
module Census {
  import opened Prelude
  import opened Digraph
  import opened CallSummaries
  import opened CallAnalysis
  import opened Reachability
  import opened SummaryPass
  import opened CensusTally
  import opened CensusFacts
  import opened CfgAnswers

  class AnalysisState {
    var facts: set<Fact>
    var tally: Tally
    var exhausted: set<Family>
    const maxRows: nat
    /** Every fact that was ever derived. */
    ghost var derived: set<Fact>

    constructor (maxRows: nat)
      ensures Valid() && this.maxRows == maxRows && forall f :: f in tally ==> tally[f] == Progress(0, 0, 0, 0)
      ensures facts == {} && exhausted == {} && derived == {}
    {
      facts, exhausted, derived := {}, {}, {};
      var none := Progress(0, 0, 0, 0);
      tally := map[Dominator := none, PostDominator := none, ControlDependence := none, DataDependence := none,
                   CallEdge := none, SccMembership := none, ReachablePair := none,
                   CallableEffect := none, CallableResource := none, CallableSummary := none];
      this.maxRows := maxRows;
      new;
      forall f: Family ensures f in tally {
        match f {
          case Dominator => case PostDominator => case ControlDependence => case DataDependence =>
          case CallEdge => case SccMembership => case ReachablePair =>
          case CallableEffect => case CallableResource => case CallableSummary =>
        }
      }
    }

    /** A derived fact is stored, or its family is known to have lost facts; only a full store loses facts. */
    ghost predicate Valid()
      reads this
    {
      && Total(tally) && facts <= derived && |facts| <= maxRows
      && (forall r :: r in derived ==> r in facts || r.family in exhausted)
      && (exhausted != {} ==> |facts| == maxRows)
      && (forall f :: f in exhausted ==> exists r :: r in derived && r.family == f)
    }

    lemma TallyIsTotal()
      requires Valid()
      ensures Total(tally)
    {
    }

    lemma DerivedIsDecided()
      requires Valid()
      ensures Decided(maxRows, facts, derived) && |facts| <= maxRows
    {
    }

    method InsertFact(row: Fact)
      requires Valid()
      modifies `facts, `exhausted, `derived
      ensures Valid() && derived == old(derived) + {row}
      ensures old(facts) <= facts
      ensures facts == if |old(facts)| < maxRows then old(facts) + {row} else old(facts)
      ensures exhausted == if |old(facts)| < maxRows then old(exhausted) else old(exhausted) + {row.family}
    {
      if |facts| < maxRows {
        facts := facts + {row};
      } else {
        exhausted := exhausted + {row.family};
      }
      derived := derived + {row};
    }

    method InsertFacts(rows: set<Fact>)
      requires Valid()
      modifies `facts, `exhausted, `derived
      ensures Valid() && derived == old(derived) + rows
      ensures old(facts) <= facts
    {
      var rest := rows;
      while rest != {}
        invariant Valid() && rest <= rows && derived == old(derived) + (rows - rest)
        invariant old(facts) <= facts
        modifies `facts, `exhausted, `derived
        decreases rest
      {
        var row :| row in rest;
        InsertFact(row);
        rest := rest - {row};
      }
    }

    method Complete(f: Family, n: nat)
      requires Valid()
      modifies `tally
      ensures Valid() && Accrued(old(tally), tally, Only(f, Delta(n, n)))
    {
      hide Accrued;
      OneMore(tally, f, tally[f].(completed := tally[f].completed + n), Delta(n, n));
      tally := tally[f := tally[f].(completed := tally[f].completed + n)];
    }

    method Miss(f: Family, n: nat)
      requires Valid()
      modifies `tally
      ensures Valid() && Accrued(old(tally), tally, Only(f, Delta(0, n)))
    {
      hide Accrued;
      OneMore(tally, f, tally[f].(unknown := tally[f].unknown + n), Delta(0, n));
      tally := tally[f := tally[f].(unknown := tally[f].unknown + n)];
    }

    /** A resource bound was hit before any work: everything requested is unknown. */
    method MissAll(fs: set<Family>)
      requires Valid()
      modifies `tally
      ensures Valid() && AllMissed(old(tally), tally, fs)
    {
      var rest := fs;
      while rest != {}
        invariant Valid() && rest <= fs && AllMissed(old(tally), tally, fs - rest)
        modifies `tally
        decreases rest
      {
        var f :| f in rest;
        tally := tally[f := tally[f].(unknown := tally[f].requested)];
        rest := rest - {f};
      }
      assert fs - rest == fs;
    }

    // Control-flow families.

    method DeriveNode(f: Family, node: CfgNode, strict: NodeAnswers, complete: bool)
      requires Valid()
      modifies this
      ensures Valid() && Accrued(old(tally), tally, Only(f, Delta(if HasAnswer(strict)(node) then 1 else 0, 1)))
      ensures derived == old(derived) + NodeFacts(f, [node], strict, complete)
      ensures old(facts) <= facts
    {
      hide Accrued;
      match strict(node.owner, node.node) {
        case None =>
          assert NodeFacts(f, [node], strict, complete) == {};
          Miss(f, 1);
        case Some(ids) =>
          InsertFacts(set x | x in ids :: Fact(f, node.node, Object(x), complete));
          assert NodeFacts(f, [node], strict, complete) == set x | x in ids :: Fact(f, node.node, Object(x), complete);
          Complete(f, 1);
      }
    }

    /** One unit per node: unknown when the node has no answer, otherwise its facts. */
    method DeriveNodes(f: Family, nodes: seq<CfgNode>, strict: NodeAnswers, complete: bool)
      requires Valid()
      modifies this
      ensures Valid() && Accrued(old(tally), tally, Only(f, Delta(CountIf(HasAnswer(strict), nodes), |nodes|)))
      ensures derived == old(derived) + NodeFacts(f, nodes, strict, complete)
      ensures old(facts) <= facts
    {
      hide Valid, Accrued, NodeFacts, HasAnswer, Total;
      ghost var n: nat := 0;
      TallyIsTotal();
      NothingAccrued(tally, Only(f, Delta(0, 0)));
      NoFacts(f, strict, complete);
      assert nodes[..0] == [] && nodes[0..] == nodes;
      for i := 0 to |nodes|
        invariant Valid() && Accrued(old(tally), tally, Only(f, Delta(n, i)))
        invariant n + CountIf(HasAnswer(strict), nodes[i..]) == CountIf(HasAnswer(strict), nodes)
        invariant derived == old(derived) + NodeFacts(f, nodes[..i], strict, complete)
        invariant old(facts) <= facts
      {
        ghost var before, d := tally, if HasAnswer(strict)(nodes[i]) then 1 else 0;
        DeriveNode(f, nodes[i], strict, complete);
        OnlyTwice(old(tally), before, tally, f, Delta(n, i), Delta(d, 1));
        n := n + d;
        CountNext(HasAnswer(strict), nodes, i);
        NextNode(f, nodes[..i], nodes[i], strict, complete);
        assert nodes[..i + 1] == nodes[..i] + [nodes[i]];
      }
      assert nodes[|nodes|..] == [] && nodes[..|nodes|] == nodes;
    }

    method DeriveEdge(edge: CfgEdge, dependents: CfgEdge -> set<Id>, complete: bool)
      requires Valid()
      modifies this
      ensures Valid() && Accrued(old(tally), tally, Only(ControlDependence, Delta(1, 1)))
      ensures derived == old(derived) + EdgeFacts([edge], dependents, complete)
      ensures old(facts) <= facts
    {
      InsertFacts(set y | y in dependents(edge) :: Fact(ControlDependence, y, Object(edge.source), complete));
      assert EdgeFacts([edge], dependents, complete)
          == set y | y in dependents(edge) :: Fact(ControlDependence, y, Object(edge.source), complete);
      Complete(ControlDependence, 1);
    }

    method DeriveEdges(edges: seq<CfgEdge>, dependents: CfgEdge -> set<Id>, complete: bool)
      requires Valid()
      modifies this
      ensures Valid() && Accrued(old(tally), tally, Only(ControlDependence, Delta(|edges|, |edges|)))
      ensures derived == old(derived) + EdgeFacts(edges, dependents, complete)
      ensures old(facts) <= facts
    {
      hide Valid, Accrued, Total, EdgeFacts;
      TallyIsTotal();
      NothingAccrued(tally, Only(ControlDependence, Delta(0, 0)));
      NoEdgeFacts(dependents, complete);
      assert edges[..0] == [];
      for i := 0 to |edges|
        invariant Valid() && Accrued(old(tally), tally, Only(ControlDependence, Delta(i, i)))
        invariant derived == old(derived) + EdgeFacts(edges[..i], dependents, complete)
        invariant old(facts) <= facts
      {
        ghost var before, d := tally, derived;
        DeriveEdge(edges[i], dependents, complete);
        OnlyTwice(old(tally), before, tally, ControlDependence, Delta(i, i), Delta(1, 1));
        NextEdge(edges[..i], edges[i], dependents, complete);
        DerivedTwice(old(derived), d, derived, EdgeFacts(edges[..i], dependents, complete),
                     EdgeFacts([edges[i]], dependents, complete));
        assert edges[..i + 1] == edges[..i] + [edges[i]];
      }
      assert edges[..|edges|] == edges;
    }

    method DeriveOwner(nodes: seq<CfgNode>, edges: seq<CfgEdge>, r: CfgResults, complete: bool)
      requires Valid()
      modifies this
      ensures Valid() && Accrued(old(tally), tally, OwnerGrowth(nodes, edges, r))
      ensures derived == old(derived) + OwnerFacts(nodes, edges, r, complete)
      ensures old(facts) <= facts
    {
      hide Valid, Accrued, Total, NodeFacts, EdgeFacts, CountIf;
      ghost var t := tally;
      var entries, exits := CountIf((n: CfgNode) => n.entry, nodes), CountIf((n: CfgNode) => n.exit, nodes);
      if entries != 1 || exits == 0 {
        assert !Rooted(nodes);
        Miss(Dominator, |nodes|);
        ghost var a := tally;
        Miss(PostDominator, |nodes|);
        ghost var b := tally;
        Miss(ControlDependence, |edges|);
        CfgMoves(t, a, b, tally, Delta(0, |nodes|), Delta(0, |nodes|), Delta(0, |edges|));
      } else {
        assert Rooted(nodes);
        DeriveNodes(Dominator, nodes, r.dominators, complete);
        ghost var a := tally;
        DeriveNodes(PostDominator, nodes, r.postDominators, complete);
        ghost var b := tally;
        DeriveEdges(edges, r.dependents, complete);
        CfgMoves(t, a, b, tally, Delta(CountIf(HasAnswer(r.dominators), nodes), |nodes|),
                 Delta(CountIf(HasAnswer(r.postDominators), nodes), |nodes|), Delta(|edges|, |edges|));
      }
    }

    /** Owner by owner, in the order of their texts. */
    method DeriveOwners(input: CfgInput, r: CfgResults, complete: bool)
      requires Valid() && CfgValid(input)
      modifies this
      ensures Valid() && Accrued(old(tally), tally, WholeGrowth(input, r))
      ensures derived == old(derived) + CfgFacts(input, r, Owners(input), complete)
      ensures old(facts) <= facts
      ensures OwnersDecided(maxRows, facts, old(derived), input, r, complete)
    {
      hide Valid, Accrued, Total, CfgFacts, OwnerFacts, OwnersGrowth, OwnerGrowth, WholeGrowth, CountIf, OwnedBy,
           Rooted, CfgValid, Owners, FirstOwners, Ascending, Decided;
      var order := Ascending(Owners(input));
      AscendingMeaning(Owners(input));
      FirstOwnersEnds(input, 0);
      forall f ensures OwnersGrowth(input, r, {})(f) == Delta(0, 0) { OwnersNone(input, r, f); }
      TallyIsTotal();
      NothingAccrued(tally, OwnersGrowth(input, r, {}));
      NoOwners(input, r, complete);
      DerivedIsDecided();
      for i := 0 to |order|
        invariant Valid() && Accrued(old(tally), tally, OwnersGrowth(input, r, FirstOwners(input, i)))
        invariant derived == old(derived) + CfgFacts(input, r, FirstOwners(input, i), complete)
        invariant old(facts) <= facts
        invariant forall n: nat :: n <= i ==>
                    Decided(maxRows, facts, old(derived) + CfgFacts(input, r, FirstOwners(input, n), complete))
      {
        FirstOwnersNext(input, i);
        ghost var stored := facts;
        DeriveNextOwner(old(tally), old(derived), input, r, FirstOwners(input, i), order[i], complete);
        DerivedIsDecided();
        forall n: nat | n <= i + 1
          ensures Decided(maxRows, facts, old(derived) + CfgFacts(input, r, FirstOwners(input, n), complete))
        {
          if n <= i {
            DecidedStays(maxRows, stored, facts, old(derived) + CfgFacts(input, r, FirstOwners(input, n), complete));
          }
        }
      }
      forall n: nat
        ensures Decided(maxRows, facts, old(derived) + CfgFacts(input, r, FirstOwners(input, n), complete))
      {
        FirstOwnersEnds(input, n);
        FirstOwnersEnds(input, |order|);
        assert n > |order| ==> FirstOwners(input, n) == FirstOwners(input, |order|);
      }
      FirstOwnersEnds(input, |order|);
      forall f ensures OwnersGrowth(input, r, Owners(input))(f) == WholeGrowth(input, r)(f) { OwnersAll(input, r, f); }
      AccruedSame(old(tally), tally, OwnersGrowth(input, r, Owners(input)), WholeGrowth(input, r));
    }

    /** One more owner on top of the owners in `past`. */
    method DeriveNextOwner(ghost t: Tally, ghost d: set<Fact>, input: CfgInput, r: CfgResults, ghost past: set<Id>,
                           o: Id, complete: bool)
      requires Valid() && o !in past && Accrued(t, tally, OwnersGrowth(input, r, past))
      requires derived == d + CfgFacts(input, r, past, complete)
      modifies this
      ensures Valid() && Accrued(t, tally, OwnersGrowth(input, r, past + {o}))
      ensures derived == d + CfgFacts(input, r, past + {o}, complete)
      ensures old(facts) <= facts
    {
      hide Valid, Accrued, Total, CfgFacts, OwnerFacts, OwnersGrowth, OwnerGrowth, CountIf, OwnedBy, Rooted;
      ghost var before := tally;
      var nodes, edges := OwnedBy(NodeOwner, input.nodes, o), OwnedBy(EdgeOwner, input.edges, o);
      DeriveOwner(nodes, edges, r, complete);
      forall f
        ensures OwnersGrowth(input, r, past + {o})(f) ==
                Plus(OwnersGrowth(input, r, past), OwnerGrowth(nodes, edges, r))(f)
      {
        OwnersNext(input, r, past, o, f);
      }
      AccruedJoins(t, before, tally, OwnersGrowth(input, r, past), OwnerGrowth(nodes, edges, r),
                   OwnersGrowth(input, r, past + {o}));
      NextOwner(input, r, past, o, complete);
    }

    method RefuseCfg(input: CfgInput, ghost r: CfgResults)
      requires Valid() && |input.nodes| <= U64_MAX && |input.edges| <= U64_MAX
      modifies this
      ensures Valid() && Balanced(old(tally), tally, Fed(Cfg), Undone(WholeGrowth(input, r)))
      ensures derived == old(derived)
      ensures old(facts) <= facts
    {
      TallyIsTotal();
      tally := RequestCfg(tally, |input.nodes|, |input.edges|);
      ghost var asked := tally;
      CfgRequested(old(tally), input, r);
      hide Requested, AllMissed, Balanced, WholeGrowth, Fed, RequestCfg;
      MissAll(Fed(Cfg));
      SettlesUndone(old(tally), asked, tally, Fed(Cfg), WholeGrowth(input, r));
    }

    method DeriveAnswered(input: CfgInput, r: CfgResults, complete: bool)
      requires Valid() && CfgValid(input) && |input.nodes| <= U64_MAX && |input.edges| <= U64_MAX
      modifies this
      ensures Valid() && Balanced(old(tally), tally, Fed(Cfg), WholeGrowth(input, r))
      ensures derived == old(derived) + CfgFacts(input, r, Owners(input), complete)
      ensures old(facts) <= facts
      ensures OwnersDecided(maxRows, facts, old(derived), input, r, complete)
    {
      TallyIsTotal();
      tally := RequestCfg(tally, |input.nodes|, |input.edges|);
      ghost var asked := tally;
      CfgRequested(old(tally), input, r);
      hide Accrued, CfgFacts, CfgValid, WholeGrowth, Owners, Requested, Balanced, Fed, RequestCfg, OwnersDecided;
      DeriveOwners(input, r, complete);
      Settles(old(tally), asked, tally, Fed(Cfg), WholeGrowth(input, r));
    }

    /** Too large a graph leaves everything unknown; otherwise exactly the answered units are completed. */
    method DeriveCfg(input: CfgInput, b: Bounds, trees: map<Id, OwnerTrees>, complete: bool)
      returns (ghost r: CfgResults)
      requires Valid() && CfgAccepted(input) && AreTrees(input, trees)
      requires |input.nodes| <= U64_MAX && |input.edges| <= U64_MAX
      modifies this
      ensures Valid() && Balanced(old(tally), tally, Fed(Cfg), CfgWork(input, r, b))
      ensures FitsCfg(input, b) ==> AreAnswers(input, r)
      ensures derived == old(derived) + if FitsCfg(input, b) then CfgFacts(input, r, Owners(input), complete) else {}
      ensures old(facts) <= facts
      ensures FitsCfg(input, b) ==> OwnersDecided(maxRows, facts, old(derived), input, r, complete)
    {
      hide Valid, CfgFacts, CfgAccepted, WholeGrowth, Owners, Balanced, AreTrees, AreAnswers, Fed, CfgValid,
           OwnersDecided;
      if |input.nodes| > b.cfgNodes || |input.edges| > b.cfgEdges {
        r := NO_ANSWERS;
        RefuseCfg(input, r);
      } else {
        var answers := Answer(input, trees);
        r := answers;
        AcceptedIsValid(input);
        DeriveAnswered(input, answers, complete);
      }
    }

    // Data dependence.

    /** Data rows are requested and completed at once. */
    method RequestData(n: nat)
      requires Valid() && n <= U64_MAX
      modifies `tally
      ensures Valid() && Balanced(old(tally), tally, Fed(DefUseReaching), Only(DataDependence, Delta(n, n)))
    {
      tally := tally[DataDependence := Progress(Saturating(n), Saturating(n), 0, 0)];
    }

    method DeriveDatum(row: DefUse, complete: bool)
      requires Valid()
      modifies `facts, `exhausted, `derived
      ensures Valid() && derived == old(derived) + DataFacts([row], complete)
      ensures old(facts) <= facts
    {
      InsertFact(Fact(DataDependence, row.use, Location(row.definition, row.location), complete));
      assert DataFacts([row], complete) == {Fact(DataDependence, row.use, Location(row.definition, row.location),
                                                 complete)};
    }

    method DeriveData(rows: seq<DefUse>, complete: bool)
      requires Valid() && |rows| <= U64_MAX
      modifies this
      ensures Valid() && Balanced(old(tally), tally, Fed(DefUseReaching), Only(DataDependence, Delta(|rows|, |rows|)))
      ensures derived == old(derived) + DataFacts(rows, complete)
      ensures old(facts) <= facts
    {
      hide Valid, DataFacts, Balanced;
      RequestData(|rows|);
      NothingDerived(map[], complete);
      assert rows[..0] == [];
      for i := 0 to |rows|
        invariant Valid() && derived == old(derived) + DataFacts(rows[..i], complete)
        invariant old(facts) <= facts
        modifies `facts, `exhausted, `derived
      {
        ghost var d := derived;
        DeriveDatum(rows[i], complete);
        NextDatum(rows[..i], rows[i], complete);
        DerivedTwice(old(derived), d, derived, DataFacts(rows[..i], complete), DataFacts([rows[i]], complete));
        assert rows[..i + 1] == rows[..i] + [rows[i]];
      }
      assert rows[..|rows|] == rows;
    }

    // Call families.

    method DeriveCallEdges(calls: seq<CallSite>)
      requires Valid()
      modifies this
      ensures Valid() && Accrued(old(tally), tally, Only(CallEdge, Delta(|ResolvedRows(calls)|, |ResolvedRows(calls)|)))
      ensures derived == old(derived) + CallFacts(ResolvedRows(calls))
      ensures old(facts) <= facts
    {
      hide Valid, Accrued, Total, ResolvedRows, CallFacts;
      var rows := ResolvedRows(calls);
      TallyIsTotal();
      NothingAccrued(tally, Only(CallEdge, Delta(0, 0)));
      NothingDerived(map[], true);
      PartsStart(rows);
      hide Only, Parts;
      var rest := rows;
      ghost var past: set<(Id, Id, Id)>, n: nat := {}, 0;
      while rest != {}
        invariant Valid() && Parts(rows, past, rest) && n == |past|
        invariant Accrued(old(tally), tally, Only(CallEdge, Delta(n, n)))
        invariant derived == old(derived) + CallFacts(past)
        invariant old(facts) <= facts
        decreases rest
      {
        var row :| row in rest;
        PartsNext(rows, past, rest, row);
        ghost var t, d := tally, derived;
        InsertFact(Fact(CallEdge, row.0, Callee(row.1, row.2), true));
        Complete(CallEdge, 1);
        OnlyTwice(old(tally), t, tally, CallEdge, Delta(n, n), Delta(1, 1));
        NextCall(past, row);
        DerivedTwice(old(derived), d, derived, CallFacts(past), {Fact(CallEdge, row.0, Callee(row.1, row.2), true)});
        rest, past, n := rest - {row}, past + {row}, n + 1;
      }
      PartsEnd(rows, past);
    }

    method MissUnresolved(calls: seq<CallSite>)
      requires Valid()
      modifies `tally
      ensures Valid()
      ensures Accrued(old(tally), tally, Each(CallEdge, SccMembership, ReachablePair, Delta(0, Unresolved(calls))))
    {
      hide Valid, Accrued, Total;
      TallyIsTotal();
      NothingAccrued(tally, Each(CallEdge, SccMembership, ReachablePair, Delta(0, 0)));
      assert calls[..0] == [];
      for i := 0 to |calls|
        invariant Valid()
        invariant Accrued(old(tally), tally, Each(CallEdge, SccMembership, ReachablePair,
                                                  Delta(0, Unresolved(calls[..i]))))
      {
        assert calls[..i + 1][..i] == calls[..i];
        if !calls[i].resolution.Exact? {
          ghost var t := tally;
          Miss(CallEdge, 1);
          ghost var a := tally;
          Miss(SccMembership, 1);
          ghost var b := tally;
          Miss(ReachablePair, 1);
          ThreeFamilies(t, a, b, tally, CallEdge, SccMembership, ReachablePair, Delta(0, 1));
          EachTwice(old(tally), t, tally, CallEdge, SccMembership, ReachablePair, Delta(0, Unresolved(calls[..i])),
                    Delta(0, 1));
        }
      }
      assert calls[..|calls|] == calls;
    }

    method DeriveMembership(component: seq<Id>, complete: bool)
      requires Valid()
      modifies this
      ensures Valid() && Accrued(old(tally), tally, Only(SccMembership, Delta(|component|, |component|)))
      ensures derived == old(derived) + MembershipFacts([component], complete)
      ensures old(facts) <= facts
    {
      hide Valid, Accrued, Total, MemberFacts, MembershipFacts;
      MemberFactsEnds(component, complete);
      TallyIsTotal();
      NothingAccrued(tally, Only(SccMembership, Delta(0, 0)));
      for i := 0 to |component|
        invariant Valid() && Accrued(old(tally), tally, Only(SccMembership, Delta(i, i)))
        invariant derived == old(derived) + MemberFacts(component, i, complete)
        invariant old(facts) <= facts
      {
        ghost var before, d := tally, derived;
        InsertFact(Fact(SccMembership, component[i], Component(component), complete));
        Complete(SccMembership, 1);
        OnlyTwice(old(tally), before, tally, SccMembership, Delta(i, i), Delta(1, 1));
        NextMember(component, i, complete);
        DerivedTwice(old(derived), d, derived, MemberFacts(component, i, complete),
                     {Fact(SccMembership, component[i], Component(component), complete)});
      }
    }

    method DeriveComponents(components: seq<seq<Id>>, complete: bool)
      requires Valid()
      modifies this
      ensures Valid() && Accrued(old(tally), tally, Only(SccMembership,
                                                         Delta(Members(components), Members(components))))
      ensures derived == old(derived) + MembershipFacts(components, complete)
      ensures old(facts) <= facts
    {
      hide Valid, Accrued, Total, MembershipFacts;
      NothingDerived(map[], complete);
      TallyIsTotal();
      NothingAccrued(tally, Only(SccMembership, Delta(0, 0)));
      assert components[..0] == [];
      for i := 0 to |components|
        invariant Valid()
        invariant Accrued(old(tally), tally, Only(SccMembership,
                                                  Delta(Members(components[..i]), Members(components[..i]))))
        invariant derived == old(derived) + MembershipFacts(components[..i], complete)
        invariant old(facts) <= facts
      {
        ghost var before, n, k := tally, Members(components[..i]), |components[i]|;
        DeriveMembership(components[i], complete);
        OnlyTwice(old(tally), before, tally, SccMembership, Delta(n, n), Delta(k, k));
        assert components[..i + 1][..i] == components[..i];
        NextComponent(components[..i], components[i], complete);
        assert components[..i + 1] == components[..i] + [components[i]];
      }
      assert components[..|components|] == components;
    }

    method DeriveSource(source: Id, reached: map<Id, nat>, complete: bool)
      requires Valid()
      modifies this
      ensures Valid() && Accrued(old(tally), tally, Only(ReachablePair, Delta(1, 1)))
      ensures derived == old(derived) + SourceFacts(source, reached, complete)
      ensures old(facts) <= facts
    {
      InsertFacts(SourceFacts(source, reached, complete));
      Complete(ReachablePair, 1);
    }

    method DerivePairs(pairs: map<Id, map<Id, nat>>, complete: bool)
      requires Valid()
      modifies this
      ensures Valid() && Accrued(old(tally), tally, Only(ReachablePair, Delta(|pairs.Keys|, |pairs.Keys|)))
      ensures derived == old(derived) + PairFacts(pairs, pairs.Keys, complete)
      ensures old(facts) <= facts
    {
      hide Valid, Accrued, Total, PairFacts, SourceFacts;
      TallyIsTotal();
      NothingAccrued(tally, Only(ReachablePair, Delta(0, 0)));
      NothingDerived(pairs, complete);
      ghost var all := pairs.Keys;
      PartsStart(all);
      hide Only, Parts;
      var rest := pairs.Keys;
      ghost var past: set<Id>, n: nat := {}, 0;
      while rest != {}
        invariant Valid() && Parts(all, past, rest) && past <= all && rest <= all && n == |past|
        invariant Accrued(old(tally), tally, Only(ReachablePair, Delta(n, n)))
        invariant derived == old(derived) + PairFacts(pairs, past, complete)
        invariant old(facts) <= facts
        decreases rest
      {
        var source :| source in rest;
        PartsNext(all, past, rest, source);
        ghost var t, d := tally, derived;
        DeriveSource(source, pairs[source], complete);
        OnlyTwice(old(tally), t, tally, ReachablePair, Delta(n, n), Delta(1, 1));
        NextSource(pairs, past, source, complete);
        DerivedTwice(old(derived), d, derived, PairFacts(pairs, past, complete),
                     SourceFacts(source, pairs[source], complete));
        rest, past, n := rest - {source}, past + {source}, n + 1;
      }
      PartsEnd(all, past);
    }

    /** Each source contributes all its pairs, or one unknown unit. */
    method DeriveReachable(g: Adjacency, bound: nat, complete: bool)
      returns (ghost pairs: map<Id, map<Id, nat>>, ghost m: nat)
      requires Valid() && Closed(g)
      modifies this
      ensures Valid() && m <= |g.Keys| && Accrued(old(tally), tally, Only(ReachablePair, Delta(m, |g.Keys|)))
      ensures ArePairs(g, bound, pairs, m)
      ensures derived == old(derived) + PairFacts(pairs, pairs.Keys, complete)
      ensures old(facts) <= facts
    {
      hide Accrued, AllContribute, PairsBounded, Closed, Total, PairFacts;
      var found, unknown, leading := DeriveReachability(g, bound);
      SourcesSplit(g.Keys, leading);
      DerivePairs(found, complete);
      ghost var before := tally;
      Miss(ReachablePair, |unknown|);
      OnlyTwice(old(tally), before, tally, ReachablePair, Delta(|found.Keys|, |found.Keys|), Delta(0, |unknown|));
      pairs, m := found, leading;
    }

    method Account(f: Family, complete: bool)
      requires Valid()
      modifies `tally
      ensures Valid() && Accrued(old(tally), tally, Only(f, Delta(if complete then 1 else 0, 1)))
    {
      if complete { Complete(f, 1); } else { Miss(f, 1); }
    }

    method EmitSummary(c: Id, effects: set<Id>, resources: set<Id>, complete: bool)
      requires Valid()
      modifies this
      ensures Valid()
      ensures Accrued(old(tally), tally, Each(CallableEffect, CallableResource, CallableSummary,
                                              Delta(if complete then 1 else 0, 1)))
      ensures derived == old(derived) + SummaryFactsOf(c, effects, resources, complete)
      ensures old(facts) <= facts
    {
      hide Valid, Accrued, Total;
      var d := if complete then 1 else 0;
      InsertFacts(SummaryFactsOf(c, effects, resources, complete));
      ghost var t := tally;
      Account(CallableEffect, complete);
      ghost var a := tally;
      Account(CallableResource, complete);
      ghost var b := tally;
      Account(CallableSummary, complete);
      ThreeFamilies(t, a, b, tally, CallableEffect, CallableResource, CallableSummary, Delta(d, 1));
    }

    method EmitSummaries(callables: set<Id>, effects: map<Id, set<Id>>, resources: map<Id, set<Id>>, complete: set<Id>)
      requires Valid() && effects.Keys == resources.Keys == callables && complete <= callables
      modifies this
      ensures Valid()
      ensures Accrued(old(tally), tally, Each(CallableEffect, CallableResource, CallableSummary,
                                              Delta(|complete|, |callables|)))
      ensures derived == old(derived) + SummaryFacts(callables, effects, resources, complete)
      ensures old(facts) <= facts
    {
      hide Valid, Accrued, Total, SummaryFactsOf, SummaryFacts, Common;
      TallyIsTotal();
      NothingAccrued(tally, Each(CallableEffect, CallableResource, CallableSummary, Delta(0, 0)));
      NoSummaryFacts(effects, resources, complete);
      CommonEnds(callables, complete);
      PartsStart(callables);
      hide Each, Parts;
      var rest := callables;
      ghost var past: set<Id>, n: nat, k: nat := {}, 0, 0;
      while rest != {}
        invariant Valid() && Parts(callables, past, rest) && past <= callables && n == Common(past, complete)
                  && k == |past|
        invariant Accrued(old(tally), tally, Each(CallableEffect, CallableResource, CallableSummary, Delta(n, k)))
        invariant derived == old(derived) + SummaryFacts(past, effects, resources, complete)
        invariant old(facts) <= facts
        decreases rest
      {
        var c :| c in rest;
        PartsNext(callables, past, rest, c);
        ghost var t, d, one: nat := tally, derived, if c in complete then 1 else 0;
        EmitSummary(c, effects[c], resources[c], c in complete);
        EachTwice(old(tally), t, tally, CallableEffect, CallableResource, CallableSummary, Delta(n, k), Delta(one, 1));
        OneMoreCommon(past, complete, c);
        NextSummary(past, effects, resources, complete, c);
        DerivedTwice(old(derived), d, derived, SummaryFacts(past, effects, resources, complete),
                     SummaryFactsOf(c, effects[c], resources[c], c in complete));
        rest, past, n, k := rest - {c}, past + {c}, n + one, k + 1;
      }
      PartsEnd(callables, past);
    }

    method DeriveGraphUnits(input: Input, b: Bounds, components: seq<seq<Id>>, schedule: seq<seq<Id>>)
      returns (ghost o: CallOutcome)
      requires Valid() && ValidCalls(input.calls) && b.iterations >= 1 && AreComponents(CallGraph(input), components)
      requires IsSchedule(components, Callables(input))
      requires IsSchedule(schedule, Callables(input)) && forall group :: group in schedule ==> group != []
      modifies this
      ensures Valid() && IsOutcome(input, b, o) && Accrued(old(tally), tally, GraphGrowth(input, b, o))
      ensures derived == old(derived) + GraphFacts(input, b, components, o)
      ensures old(facts) <= facts && CallsDecided(maxRows, facts, old(derived), input, components, o)
    {
      hide Valid, Accrued, Total, AreComponents, IsSchedule, Callables, CallGraph, ResolvedRows, ExactAt,
           RowsAre, CompleteRows, Summaries, ArePairs, CallFacts, MembershipFacts, PairFacts, SummaryFacts, ValidCalls,
           CallGrowth, Decided, CallsDecided;
      ghost var t0 := tally;
      var topology := Unresolved(input.calls) == 0 && input.callCoverage;
      DeriveCallEdges(input.calls);
      DerivedIsDecided();
      ghost var t1, f1 := tally, facts;
      MissUnresolved(input.calls);
      ghost var t2 := tally;
      DeriveComponents(components, topology);
      DerivedIsDecided();
      ghost var t3, f3 := tally, facts;
      CallGraphClosed(input);
      ghost var pairs, m := DeriveReachable(CallGraph(input), b.reachablePairs, topology);
      DerivedIsDecided();
      ghost var t4, f4 := tally, facts;
      var effects, resources, complete := DeriveSummaries(input, b.summaryValues, b.iterations, components, schedule);
      CompleteAreCallables(input, b);
      EmitSummaries(Callables(input), effects, resources, complete);
      MembersCount(components, Callables(input));
      GraphKeys(input);
      CallsCount(input.calls);
      o := CallOutcome(pairs, m, effects, resources);
      CallMoves(t0, t1, t2, t3, t4, tally, |ResolvedRows(input.calls)|, |input.calls|, Unresolved(input.calls),
                |Callables(input)|, m, |complete|);
      DerivedIsDecided();
      CallsStillDecided(maxRows, f1, f3, f4, facts, old(derived), input, components, o);
    }

    /** Too many calls leave everything unknown; otherwise exactly what the graph algorithms answer is completed. */
    method DeriveCalls(input: Input, b: Bounds, components: seq<seq<Id>>, schedule: seq<seq<Id>>)
      returns (ghost o: CallOutcome)
      requires Valid() && ValidCalls(input.calls) && |input.calls| <= U64_MAX
      requires |Callables(input)| + Unresolved(input.calls) <= U64_MAX
      requires b.iterations >= 1 && AreComponents(CallGraph(input), components)
               && IsSchedule(components, Callables(input))
      requires IsSchedule(schedule, Callables(input)) && forall group :: group in schedule ==> group != []
      modifies this
      ensures Valid() && (FitsCalls(input, b) ==> IsOutcome(input, b, o))
      ensures Balanced(old(tally), tally, Fed(CallTargets), CallWork(input, b, o))
      ensures derived == old(derived) + if FitsCalls(input, b) then GraphFacts(input, b, components, o) else {}
      ensures old(facts) <= facts
      ensures FitsCalls(input, b) ==> CallsDecided(maxRows, facts, old(derived), input, components, o)
    {
      hide Accrued, AreComponents, IsSchedule, Callables, CallGraph, ValidCalls, GraphFacts, Unresolved, RequestCalls,
           GraphGrowth, Requested, AllMissed, Balanced, CompleteCallables, ArePairs, ExactAt, CallsDecided;
      StillTotal(tally, |input.calls|, Unresolved(input.calls), |Callables(input)|);
      tally := RequestCalls(tally, |input.calls|, Unresolved(input.calls), |Callables(input)|);
      ghost var asked := tally;
      if |Callables(input)| > b.callables || |input.calls| > b.callSites {
        o := CallOutcome(map[], 0, map[], map[]);
        CallsRequested(old(tally), input, b, o);
        MissAll({CallEdge, SccMembership, ReachablePair, CallableEffect, CallableResource, CallableSummary});
        SettlesUndone(old(tally), asked, tally, Fed(CallTargets), GraphGrowth(input, b, o));
      } else {
        o := DeriveGraphUnits(input, b, components, schedule);
        CallsRequested(old(tally), input, b, o);
        Settles(old(tally), asked, tally, Fed(CallTargets), GraphGrowth(input, b, o));
      }
    }

    // Gaps and overflow of the output.

    method RaiseRow(f: Family, coverage: Coverage)
      requires Valid() && AllConserved(tally) && f in tally && tally[f].requested + Gap(coverage) <= U64_MAX
      modifies `tally
      ensures Valid() && AllConserved(tally) && f in old(tally)
              && tally == old(tally)[f := Raised(old(tally)[f], coverage)]
    {
      GapExact(tally[f], coverage);
      tally := tally[f := WithGap(tally[f], coverage)];
    }

    /** What an input lacked is requested again of every family it feeds, and stays open. */
    method AddGap(i: InputFamily, coverage: Coverage)
      requires Valid() && AllConserved(tally) && Room(tally, Passing(i, coverage), 0)
      modifies `tally
      ensures Valid() && AllConserved(tally) && RaisedBy(old(tally), tally, Passing(i, coverage))
    {
      hide Valid, AllConserved, Fed, Feeds, RaisedIn, Raised, Parts;
      TallyIsTotal();
      if IsComplete(coverage) {
        forall f | f in tally
          ensures Raised(tally[f], Passing(i, coverage)(f)) == tally[f]
        {
          NoGap(tally[f], i, coverage, f);
        }
        return;
      }
      FedExactly(i);
      PartsStart(Fed(i));
      NothingRaised(tally, coverage);
      var rest := Fed(i);
      ghost var past: set<Family> := {};
      while rest != {}
        invariant Valid() && AllConserved(tally) && Parts(Fed(i), past, rest)
                  && RaisedIn(old(tally), tally, past, coverage)
        modifies `tally
        decreases rest
      {
        var f :| f in rest;
        PartsNext(Fed(i), past, rest, f);
        RaisedNext(old(tally), tally, past, coverage, f);
        assert Passing(i, coverage)(f) == coverage;
        RaiseRow(f, coverage);
        rest, past := rest - {f}, past + {f};
      }
      PartsEnd(Fed(i), past);
      TallyIsTotal();
      forall f | f in tally
        ensures tally[f] == Raised(old(tally)[f], Passing(i, coverage)(f))
      {
        RaisedFed(old(tally), tally, i, coverage, f);
      }
    }

    /** A family that lost facts to the row bound has one more request, which is unknown. */
    method ReportExhaustion()
      requires Valid() && AllConserved(tally) && forall f :: f in tally ==> tally[f].requested < U64_MAX
      modifies `tally
      ensures Valid() && AllConserved(tally)
      ensures forall f :: f in tally ==> tally[f] == if f in exhausted then OneLost(old(tally)[f]) else old(tally)[f]
    {
      var rest := exhausted;
      while rest != {}
        invariant Valid() && rest <= exhausted && AllConserved(tally)
        invariant forall f :: f in tally ==> tally[f] == if f in exhausted - rest then OneLost(old(tally)[f])
                  else old(tally)[f]
        modifies `tally
        decreases rest
      {
        var f :| f in rest;
        var p := tally[f];
        tally := tally[f := p.(requested := Saturating(p.requested + 1), unknown := Saturating(p.unknown + 1))];
        rest := rest - {f};
      }
    }
  }

  lemma NothingRaised(t: Tally, c: Coverage)
    requires Total(t)
    ensures RaisedIn(t, t, {}, c)
  {
  }

  function OneLost(p: Progress): Progress {
    p.(requested := p.requested + 1, unknown := p.unknown + 1)
  }

  datatype Bounds = Bounds(cfgNodes: nat, cfgEdges: nat, callables: nat, callSites: nat, reachablePairs: nat,
                           summaryValues: nat, iterations: nat, outputRows: nat)

  // Control flow.

  predicate FitsCfg(input: CfgInput, b: Bounds) {
    |input.nodes| <= b.cfgNodes && |input.edges| <= b.cfgEdges
  }

  function CfgWork(input: CfgInput, r: CfgResults, b: Bounds): Growth {
    if FitsCfg(input, b) then WholeGrowth(input, r) else Undone(WholeGrowth(input, r))
  }

  /** The owners whose texts come first are derived first. */
  ghost predicate OwnersDecided(max: nat, facts: set<Fact>, d: set<Fact>, input: CfgInput, r: CfgResults,
                                complete: bool) {
    forall n: nat :: Decided(max, facts, d + CfgFacts(input, r, FirstOwners(input, n), complete))
  }

  lemma OwnersStillDecided(max: nat, facts: set<Fact>, facts': set<Fact>, d: set<Fact>, input: CfgInput, r: CfgResults,
                           complete: bool)
    requires OwnersDecided(max, facts, d, input, r, complete) && facts <= facts' && |facts'| <= max
    ensures OwnersDecided(max, facts', d, input, r, complete)
  {
    hide Decided, CfgFacts, FirstOwners;
    forall n: nat ensures Decided(max, facts', d + CfgFacts(input, r, FirstOwners(input, n), complete)) {
      DecidedStays(max, facts, facts', d + CfgFacts(input, r, FirstOwners(input, n), complete));
    }
  }

  function RequestCfg(t: Tally, nodes: nat, edges: nat): Tally {
    t[Dominator := Progress(Saturating(nodes), 0, 0, 0)][PostDominator := Progress(Saturating(nodes), 0, 0, 0)]
     [ControlDependence := Progress(Saturating(edges), 0, 0, 0)]
  }

  lemma CfgRequested(t: Tally, input: CfgInput, r: CfgResults)
    requires Total(t) && |input.nodes| <= U64_MAX && |input.edges| <= U64_MAX
    ensures Requested(t, RequestCfg(t, |input.nodes|, |input.edges|), Fed(Cfg), WholeGrowth(input, r))
  {
    hide NodeDone, EdgeDone;
  }

  lemma NoOwners(input: CfgInput, r: CfgResults, complete: bool)
    ensures CfgFacts(input, r, {}, complete) == {}
  {
  }

  lemma CfgMoves(t: Tally, a: Tally, b: Tally, c: Tally, dominators: Delta, postDominators: Delta, edges: Delta)
    requires Accrued(t, a, Only(Dominator, dominators)) && Accrued(a, b, Only(PostDominator, postDominators))
    requires Accrued(b, c, Only(ControlDependence, edges))
    ensures Accrued(t, c, CfgGrowth(dominators, postDominators, edges))
  {
    hide Accrued;
    var x, y, z := Only(Dominator, dominators), Only(PostDominator, postDominators), Only(ControlDependence, edges);
    AccruedTwice(t, a, b, x, y);
    AccruedJoins(t, b, c, Plus(x, y), z, CfgGrowth(dominators, postDominators, edges));
  }

  // Calls.

  /** The pairs of the sources that fit the bound, and what is known of the summaries. */
  datatype CallOutcome = CallOutcome(pairs: map<Id, map<Id, nat>>, sources: nat, effects: map<Id, set<Id>>,
                                     resources: map<Id, set<Id>>)

  /** The longest prefix of sources whose pairs fit the bound contributes all its pairs. */
  ghost predicate ArePairs(g: Adjacency, bound: nat, pairs: map<Id, map<Id, nat>>, m: nat) {
    && PairsBounded(g, Ascending(g.Keys), m, bound) && AllContribute(g, pairs)
    && pairs.Keys == set s | s in Ascending(g.Keys)[..m]
  }

  ghost function CompleteCallables(input: Input, b: Bounds): set<Id>
    requires b.iterations >= 1
  {
    CompleteRows(CallGraph(input), Summaries(input, b.summaryValues, b.iterations))
  }

  lemma CompleteAreCallables(input: Input, b: Bounds)
    requires b.iterations >= 1
    ensures CompleteCallables(input, b) <= Callables(input)
  {
    hide Summaries, CompleteIn;
    GraphKeys(input);
  }

  ghost predicate IsOutcome(input: Input, b: Bounds, o: CallOutcome)
    requires b.iterations >= 1
  {
    && o.sources <= |Callables(input)| && ArePairs(CallGraph(input), b.reachablePairs, o.pairs, o.sources)
    && o.effects.Keys == o.resources.Keys == Callables(input)
    && RowsAre(input, b.summaryValues, b.iterations, o.effects, o.resources)
    && forall c :: c in CompleteCallables(input, b) ==> ExactAt(input, b.summaryValues, o.effects, o.resources, c)
  }

  predicate FitsCalls(input: Input, b: Bounds) {
    |Callables(input)| <= b.callables && |input.calls| <= b.callSites
  }

  function CallGrowth(edges: nat, calls: nat, unresolved: nat, callables: nat, sources: nat, complete: nat): Growth {
    f => if f == CallEdge then Delta(edges, calls)
         else if f == SccMembership then Delta(callables, callables + unresolved)
         else if f == ReachablePair then Delta(sources, callables + unresolved)
         else if f == CallableEffect || f == CallableResource || f == CallableSummary then Delta(complete, callables)
         else Delta(0, 0)
  }

  /** Completed: every resolved call, every component member, every source within the bound, every complete summary. */
  ghost function GraphGrowth(input: Input, b: Bounds, o: CallOutcome): Growth
    requires b.iterations >= 1
  {
    CallGrowth(|ResolvedRows(input.calls)|, |input.calls|, Unresolved(input.calls), |Callables(input)|, o.sources,
               |CompleteCallables(input, b)|)
  }

  ghost function CallWork(input: Input, b: Bounds, o: CallOutcome): Growth
    requires b.iterations >= 1
  {
    if FitsCalls(input, b) then GraphGrowth(input, b, o) else Undone(GraphGrowth(input, b, o))
  }

  ghost function GraphFacts(input: Input, b: Bounds, components: seq<seq<Id>>, o: CallOutcome): set<Fact>
    requires b.iterations >= 1 && IsOutcome(input, b, o)
  {
    var topology := Unresolved(input.calls) == 0 && input.callCoverage;
    CallFacts(ResolvedRows(input.calls)) + MembershipFacts(components, topology)
        + PairFacts(o.pairs, o.pairs.Keys, topology)
    + SummaryFacts(Callables(input), o.effects, o.resources, CompleteCallables(input, b))
  }

  /** Call edges come before memberships, these before reachable pairs, and summaries last. */
  ghost predicate CallsDecided(max: nat, facts: set<Fact>, d: set<Fact>, input: Input, components: seq<seq<Id>>,
                               o: CallOutcome) {
    var topology := Unresolved(input.calls) == 0 && input.callCoverage;
    var edges, members := CallFacts(ResolvedRows(input.calls)), MembershipFacts(components, topology);
    && Decided(max, facts, d + edges) && Decided(max, facts, d + edges + members)
    && Decided(max, facts, d + edges + members + PairFacts(o.pairs, o.pairs.Keys, topology))
  }

  lemma CallsStillDecided(max: nat, f1: set<Fact>, f3: set<Fact>, f4: set<Fact>, facts: set<Fact>, d: set<Fact>,
                          input: Input, components: seq<seq<Id>>, o: CallOutcome)
    requires f1 <= f3 <= f4 <= facts && |facts| <= max
    requires var topology := Unresolved(input.calls) == 0 && input.callCoverage;
             var edges, members := CallFacts(ResolvedRows(input.calls)), MembershipFacts(components, topology);
             && Decided(max, f1, d + edges) && Decided(max, f3, d + edges + members)
             && Decided(max, f4, d + edges + members + PairFacts(o.pairs, o.pairs.Keys, topology))
    ensures CallsDecided(max, facts, d, input, components, o)
  {
    hide Decided, CallFacts, MembershipFacts, PairFacts, Unresolved, ResolvedRows;
    var topology := Unresolved(input.calls) == 0 && input.callCoverage;
    var edges, members := CallFacts(ResolvedRows(input.calls)), MembershipFacts(components, topology);
    DecidedStays(max, f1, facts, d + edges);
    DecidedStays(max, f3, facts, d + edges + members);
    DecidedStays(max, f4, facts, d + edges + members + PairFacts(o.pairs, o.pairs.Keys, topology));
  }

  lemma GraphKeys(input: Input)
    ensures CallGraph(input).Keys == Callables(input)
  {
  }

  lemma CallMoves(t0: Tally, t1: Tally, t2: Tally, t3: Tally, t4: Tally, t5: Tally, edges: nat, calls: nat,
                  unresolved: nat, callables: nat, sources: nat, complete: nat)
    requires calls == edges + unresolved
    requires Accrued(t0, t1, Only(CallEdge, Delta(edges, edges)))
    requires Accrued(t1, t2, Each(CallEdge, SccMembership, ReachablePair, Delta(0, unresolved)))
    requires Accrued(t2, t3, Only(SccMembership, Delta(callables, callables)))
    requires Accrued(t3, t4, Only(ReachablePair, Delta(sources, callables)))
    requires Accrued(t4, t5, Each(CallableEffect, CallableResource, CallableSummary, Delta(complete, callables)))
    ensures Accrued(t0, t5, CallGrowth(edges, calls, unresolved, callables, sources, complete))
  {
    hide Accrued;
    var x, y := Only(CallEdge, Delta(edges, edges)), Each(CallEdge, SccMembership, ReachablePair, Delta(0, unresolved));
    var z, w := Only(SccMembership, Delta(callables, callables)), Only(ReachablePair, Delta(sources, callables));
    var v := Each(CallableEffect, CallableResource, CallableSummary, Delta(complete, callables));
    AccruedTwice(t0, t1, t2, x, y);
    AccruedTwice(t0, t2, t3, Plus(x, y), z);
    AccruedTwice(t0, t3, t4, Plus(Plus(x, y), z), w);
    AccruedJoins(t0, t4, t5, Plus(Plus(Plus(x, y), z), w), v,
                 CallGrowth(edges, calls, unresolved, callables, sources, complete));
  }

  function RequestCalls(t: Tally, calls: nat, unresolved: nat, callables: nat): Tally {
    var topology, summary := Progress(Saturating(callables + unresolved), 0, 0, 0),
        Progress(Saturating(callables), 0, 0, 0);
    t[CallEdge := Progress(Saturating(calls), 0, 0, 0)][SccMembership := topology][ReachablePair := topology]
     [CallableEffect := summary][CallableResource := summary][CallableSummary := summary]
  }

  lemma StillTotal(t: Tally, calls: nat, unresolved: nat, callables: nat)
    requires Total(t)
    ensures Total(RequestCalls(t, calls, unresolved, callables))
  {
  }

  lemma CallRequested(t: Tally, edges: nat, calls: nat, unresolved: nat, callables: nat, sources: nat, complete: nat,
                      f: Family)
    requires Total(t) && calls <= U64_MAX && callables + unresolved <= U64_MAX
    requires edges <= calls && sources <= callables && complete <= callables
    ensures var asked, more := RequestCalls(t, calls, unresolved, callables),
            CallGrowth(edges, calls, unresolved, callables, sources, complete);
            && f in asked
            && if Feeds(CallTargets, f)
               then more(f).done <= more(f).units && asked[f] == Progress(more(f).units, 0, 0, 0)
               else more(f) == Delta(0, 0) && asked[f] == t[f]
  {
    assert f in t;
  }

  lemma CallsRequested(t: Tally, input: Input, b: Bounds, o: CallOutcome)
    requires Total(t) && ValidCalls(input.calls) && |input.calls| <= U64_MAX
    requires |Callables(input)| + Unresolved(input.calls) <= U64_MAX && b.iterations >= 1
             && o.sources <= |Callables(input)|
    ensures Requested(t, RequestCalls(t, |input.calls|, Unresolved(input.calls), |Callables(input)|), Fed(CallTargets),
                      GraphGrowth(input, b, o))
  {
    hide Callables, CallGraph, ResolvedRows, ValidCalls, RequestCalls, CallGrowth, Fed, Feeds, CompleteRows,
         Summaries, Unresolved;
    FedExactly(CallTargets);
    CallsCount(input.calls);
    CompleteAreCallables(input, b);
    Proper(CompleteCallables(input, b), Callables(input));
    forall f: Family {
      CallRequested(t, |ResolvedRows(input.calls)|, |input.calls|, Unresolved(input.calls), |Callables(input)|,
                    o.sources, |CompleteCallables(input, b)|, f);
    }
  }

  // The whole analysis.

  datatype Coverages = Coverages(cfg: Coverage, defUse: Coverage, calls: Coverage, locals: Coverage)

  /** What the analysis is given. */
  datatype Given = Given(cfg: CfgInput, defUse: seq<DefUse>, calls: seq<CallSite>, locals: map<Id, Local>,
                         coverage: Coverages)

  /** What the families are derived from. */
  datatype Everything = Everything(cfg: CfgInput, defUse: seq<DefUse>, calls: Input, coverage: Coverages)

  /** Every coverage row balances without overflow. */
  predicate ValidCoverages(c: Coverages) {
    ValidCoverage(c.cfg) && ValidCoverage(c.defUse) && ValidCoverage(c.calls) && ValidCoverage(c.locals)
  }

  predicate ValidCoverage(c: Coverage) {
    Accounted(c) <= U64_MAX && Conserved(c)
  }

  /** Completed, left over and unknown units are those requested, in 64 bits. */
  ghost predicate Balances(c: Coverage) {
    c.requested == c.completed + c.remainder + c.unknown <= 0xFFFF_FFFF_FFFF_FFFF
  }

  lemma ValidIffBalanced(c: Coverages)
    ensures ValidCoverages(c) <==> Balances(c.cfg) && Balances(c.defUse) && Balances(c.calls) && Balances(c.locals)
  {
  }

  /** Edges and data rows are staged without repeats, and the coverage rows say whether calls and local semantics are
      complete. */
  function Staged(given: Given): Everything {
    Everything(given.cfg.(edges := Distinct(given.cfg.edges)), Distinct(given.defUse),
               Input(given.calls, given.locals, IsComplete(given.coverage.calls), IsComplete(given.coverage.locals)),
               given.coverage)
  }

  /** The units of each family and how many are completed, before gaps are added. */
  ghost function Work(e: Everything, r: CfgResults, b: Bounds, o: CallOutcome): Growth
    requires b.iterations >= 1
  {
    f => if Feeds(Cfg, f) then CfgWork(e.cfg, r, b)(f)
         else if Feeds(DefUseReaching, f) then Delta(|e.defUse|, |e.defUse|)
         else CallWork(e.calls, b, o)(f)
  }

  /** The units of each family, before gaps are added. */
  function Asked(e: Everything): Family -> nat {
    var callables, unresolved := |Callables(e.calls)|, Unresolved(e.calls.calls);
    (f: Family) => match f
         case Dominator => |e.cfg.nodes|
         case PostDominator => |e.cfg.nodes|
         case ControlDependence => |e.cfg.edges|
         case DataDependence => |e.defUse|
         case CallEdge => |e.calls.calls|
         case SccMembership => callables + unresolved
         case ReachablePair => callables + unresolved
         case _ => callables
  }

  /** The open units of all inputs a family is derived from. */
  function Inherits(c: Coverages): Upstream {
    Together(Together(Together(Passing(Cfg, c.cfg), Passing(DefUseReaching, c.defUse)), Passing(CallTargets, c.calls)),
             Passing(LocalEffectResource, c.locals))
  }

  /** All sums of the census stay below the 64-bit limit. */
  ghost predicate SumsFit(e: Everything) {
    forall f: Family :: Asked(e)(f) + Gap(Inherits(e.coverage)(f)) + 1 <= U64_MAX
  }

  /** The last row of a family: its work, the open units it inherits, and one more if it lost facts. */
  function Final(w: Delta, c: Coverage, lost: bool): Progress
    requires w.done <= w.units
  {
    if lost then OneLost(Raised(Filled(w), c)) else Raised(Filled(w), c)
  }

  /** The last row balances, and is complete exactly when all work is done,
      nothing was open upstream and no fact was lost. */
  lemma CompleteIff(w: Delta, c: Coverage, lost: bool)
    requires w.done <= w.units
    ensures Conserved(Final(w, c, lost))
    ensures IsComplete(Final(w, c, lost)) <==> w.done == w.units && Gap(c) == 0 && !lost
  {
  }

  ghost predicate IsReport(t: Tally, work: Growth, c: Coverages, lost: set<Family>) {
    && Total(t)
    && forall f :: f in t ==> work(f).done <= work(f).units && t[f] == Final(work(f), Inherits(c)(f), f in lost)
  }

  /** Before gaps are added every row is the work of its family. */
  ghost predicate IsWork(t: Tally, work: Growth) {
    Total(t) && forall f :: f in t ==> work(f).done <= work(f).units && t[f] == Filled(work(f))
  }

  lemma CfgUnits(input: CfgInput, r: CfgResults, b: Bounds, f: Family)
    ensures CfgWork(input, r, b)(f).units == if f == ControlDependence then |input.edges|
            else if Feeds(Cfg, f) then |input.nodes| else 0
  {
    hide NodeDone, EdgeDone, CountIf;
  }

  lemma CallUnits(input: Input, b: Bounds, o: CallOutcome, f: Family)
    requires b.iterations >= 1
    ensures CallWork(input, b, o)(f).units ==
            if f == CallEdge then |input.calls|
            else if f == SccMembership || f == ReachablePair then |Callables(input)| + Unresolved(input.calls)
            else if Feeds(CallTargets, f) then |Callables(input)| else 0
  {
    hide Callables, Unresolved, ResolvedRows, CompleteCallables;
  }

  lemma WorkUnits(e: Everything, r: CfgResults, b: Bounds, o: CallOutcome, f: Family)
    requires b.iterations >= 1
    ensures Work(e, r, b, o)(f).units == Asked(e)(f)
  {
    hide Callables, Unresolved, CfgWork, CallWork;
    CfgUnits(e.cfg, r, b, f);
    CallUnits(e.calls, b, o, f);
  }

  lemma WorkOf(t0: Tally, t1: Tally, t2: Tally, t3: Tally, e: Everything, r: CfgResults, b: Bounds, o: CallOutcome,
               f: Family)
    requires b.iterations >= 1 && Balanced(t0, t1, Fed(Cfg), CfgWork(e.cfg, r, b))
    requires Balanced(t1, t2, Fed(DefUseReaching), Only(DataDependence, Delta(|e.defUse|, |e.defUse|)))
    requires Balanced(t2, t3, Fed(CallTargets), CallWork(e.calls, b, o))
    ensures f in t3 && Work(e, r, b, o)(f).done <= Work(e, r, b, o)(f).units && t3[f] == Filled(Work(e, r, b, o)(f))
  {
    hide CfgWork, CallWork, Filled, Fed, Balanced;
    BalancedAt(t0, t1, Cfg, CfgWork(e.cfg, r, b), f);
    BalancedAt(t1, t2, DefUseReaching, Only(DataDependence, Delta(|e.defUse|, |e.defUse|)), f);
    BalancedAt(t2, t3, CallTargets, CallWork(e.calls, b, o), f);
  }

  lemma WorkIs(t0: Tally, t1: Tally, t2: Tally, t3: Tally, e: Everything, r: CfgResults, b: Bounds, o: CallOutcome)
    requires b.iterations >= 1 && Balanced(t0, t1, Fed(Cfg), CfgWork(e.cfg, r, b))
    requires Balanced(t1, t2, Fed(DefUseReaching), Only(DataDependence, Delta(|e.defUse|, |e.defUse|)))
    requires Balanced(t2, t3, Fed(CallTargets), CallWork(e.calls, b, o))
    ensures IsWork(t3, Work(e, r, b, o)) && RequestsAre(t3, Asked(e)) && AllConserved(t3)
  {
    hide Balanced, Work, Asked, Filled;
    forall f: Family
      ensures f in t3 && Work(e, r, b, o)(f).done <= Work(e, r, b, o)(f).units && t3[f] == Filled(Work(e, r, b, o)(f))
    {
      WorkOf(t0, t1, t2, t3, e, r, b, o, f);
    }
    forall f: Family ensures Work(e, r, b, o)(f).units == Asked(e)(f) {
      WorkUnits(e, r, b, o, f);
    }
    WorkBalances(t3, Work(e, r, b, o), Asked(e));
  }

  lemma WorkBalances(t: Tally, work: Growth, asked: Family -> nat)
    requires IsWork(t, work) && forall f :: work(f).units == asked(f)
    ensures RequestsAre(t, asked) && AllConserved(t)
  {
  }

  ghost predicate RequestsAre(t: Tally, asked: Family -> nat) {
    Total(t) && forall f :: f in t ==> t[f].requested == asked(f)
  }

  lemma AskedFits(e: Everything)
    requires SumsFit(e)
    ensures |e.cfg.nodes| <= U64_MAX && |e.cfg.edges| <= U64_MAX && |e.defUse| <= U64_MAX && |e.calls.calls| <= U64_MAX
    ensures |Callables(e.calls)| + Unresolved(e.calls.calls) <= U64_MAX
  {
    hide Callables, Unresolved, Inherits;
    assert Asked(e)(Dominator) + Gap(Inherits(e.coverage)(Dominator)) + 1 <= U64_MAX;
    assert Asked(e)(ControlDependence) + Gap(Inherits(e.coverage)(ControlDependence)) + 1 <= U64_MAX;
    assert Asked(e)(DataDependence) + Gap(Inherits(e.coverage)(DataDependence)) + 1 <= U64_MAX;
    assert Asked(e)(CallEdge) + Gap(Inherits(e.coverage)(CallEdge)) + 1 <= U64_MAX;
    assert Asked(e)(SccMembership) + Gap(Inherits(e.coverage)(SccMembership)) + 1 <= U64_MAX;
  }

  /** All four inputs pass their open units on. */
  method ApplyCoverage(state: AnalysisState, c: Coverages)
    requires state.Valid() && AllConserved(state.tally) && Room(state.tally, Inherits(c), 1)
    modifies state`tally
    ensures state.Valid() && AllConserved(state.tally) && RaisedBy(old(state.tally), state.tally, Inherits(c))
  {
    hide Room, RaisedBy, AllConserved, Together, Passing;
    var p, q, u, v := Passing(Cfg, c.cfg), Passing(DefUseReaching, c.defUse), Passing(CallTargets, c.calls),
        Passing(LocalEffectResource, c.locals);
    ghost var t := state.tally;
    RoomForFirst(t, Together(Together(p, q), u), v, 1);
    RoomForFirst(t, Together(p, q), u, 1);
    RoomForFirst(t, p, q, 1);
    EnoughRoom(t, p);
    state.AddGap(Cfg, c.cfg);
    RoomForSecond(t, state.tally, p, q, 1);
    EnoughRoom(state.tally, q);
    ghost var t1 := state.tally;
    state.AddGap(DefUseReaching, c.defUse);
    RaisedByTwice(t, t1, state.tally, p, q);
    RoomForSecond(t, state.tally, Together(p, q), u, 1);
    EnoughRoom(state.tally, u);
    ghost var t2 := state.tally;
    state.AddGap(CallTargets, c.calls);
    RaisedByTwice(t, t2, state.tally, Together(p, q), u);
    RoomForSecond(t, state.tally, Together(Together(p, q), u), v, 1);
    EnoughRoom(state.tally, v);
    ghost var t3 := state.tally;
    state.AddGap(LocalEffectResource, c.locals);
    RaisedByTwice(t, t3, state.tally, Together(Together(p, q), u), v);
  }

  lemma EnoughRoom(t: Tally, g: Upstream)
    requires Room(t, g, 1)
    ensures Room(t, g, 0)
  {
  }

  lemma RoomForOneMore(t: Tally, t': Tally, g: Upstream)
    requires Room(t, g, 1) && RaisedBy(t, t', g)
    ensures forall f :: f in t' ==> t'[f].requested < U64_MAX
  {
    forall f | f in t' ensures t'[f].requested < U64_MAX {
      assert f in t;
      RaisedTwice(t[f], g(f), g(f));
    }
  }

  ghost function AllFacts(e: Everything, r: CfgResults, b: Bounds, components: seq<seq<Id>>, o: CallOutcome): set<Fact>
    requires b.iterations >= 1 && (FitsCalls(e.calls, b) ==> IsOutcome(e.calls, b, o))
  {
    CfgPart(e, r, b) + DataFacts(e.defUse, IsComplete(e.coverage.defUse))
    + (if FitsCalls(e.calls, b) then GraphFacts(e.calls, b, components, o) else {})
  }

  ghost function CfgPart(e: Everything, r: CfgResults, b: Bounds): set<Fact> {
    if FitsCfg(e.cfg, b) then CfgFacts(e.cfg, r, Owners(e.cfg), IsComplete(e.coverage.cfg)) else {}
  }

  /** Which facts a full store keeps: those of the first owners, then of all control flow, then data dependences, call
      edges, memberships, pairs and summaries. */
  ghost predicate KeptInOrder(max: nat, facts: set<Fact>, e: Everything, r: CfgResults, b: Bounds,
                              components: seq<seq<Id>>, o: CallOutcome) {
    var early := CfgPart(e, r, b) + DataFacts(e.defUse, IsComplete(e.coverage.defUse));
    && (FitsCfg(e.cfg, b) ==> OwnersDecided(max, facts, {}, e.cfg, r, IsComplete(e.coverage.cfg)))
    && Decided(max, facts, CfgPart(e, r, b)) && Decided(max, facts, early)
    && (FitsCalls(e.calls, b) ==> CallsDecided(max, facts, early, e.calls, components, o))
  }

  lemma KeptSoFar(max: nat, f1: set<Fact>, f2: set<Fact>, facts: set<Fact>, e: Everything, r: CfgResults, b: Bounds,
                  components: seq<seq<Id>>, o: CallOutcome)
    requires f1 <= f2 <= facts && |facts| <= max
    requires FitsCfg(e.cfg, b) ==> OwnersDecided(max, f1, {}, e.cfg, r, IsComplete(e.coverage.cfg))
    requires var early := CfgPart(e, r, b) + DataFacts(e.defUse, IsComplete(e.coverage.defUse));
             && Decided(max, f1, CfgPart(e, r, b)) && Decided(max, f2, early)
             && (FitsCalls(e.calls, b) ==> CallsDecided(max, facts, early, e.calls, components, o))
    ensures KeptInOrder(max, facts, e, r, b, components, o)
  {
    hide Decided, CfgPart, DataFacts, FitsCfg, FitsCalls, CallsDecided, OwnersDecided;
    DecidedStays(max, f1, facts, CfgPart(e, r, b));
    DecidedStays(max, f2, facts, CfgPart(e, r, b) + DataFacts(e.defUse, IsComplete(e.coverage.defUse)));
    if FitsCfg(e.cfg, b) { OwnersStillDecided(max, f1, facts, {}, e.cfg, r, IsComplete(e.coverage.cfg)); }
  }

  /** For an accepted input the final row of every family and the derived facts are exactly determined; every row
      balances, and a complete row means that no derived fact of its family was lost. */
  method Analyze(given: Given, b: Bounds, trees: map<Id, OwnerTrees>, components: seq<seq<Id>>, schedule: seq<seq<Id>>)
    returns (state: AnalysisState?, ghost r: CfgResults, ghost o: CallOutcome)
    requires SumsFit(Staged(given)) && b.iterations >= 1 && AreTrees(Staged(given).cfg, trees)
    requires AreComponents(CallGraph(Staged(given).calls), components)
    requires IsSchedule(components, Callables(Staged(given).calls))
    requires IsSchedule(schedule, Callables(Staged(given).calls)) && forall group :: group in schedule ==> group != []
    ensures state != null <==>
            && CfgAccepted(given.cfg) && ValidCalls(given.calls) && Balances(given.coverage.cfg)
            && Balances(given.coverage.defUse) && Balances(given.coverage.calls) && Balances(given.coverage.locals)
    ensures state != null ==> fresh(state) && state.Valid() && AllConserved(state.tally)
    ensures state != null && FitsCfg(Staged(given).cfg, b) ==> AreAnswers(Staged(given).cfg, r)
    ensures state != null && FitsCalls(Staged(given).calls, b) ==> IsOutcome(Staged(given).calls, b, o)
    ensures state != null ==> IsReport(state.tally, Work(Staged(given), r, b, o), given.coverage, state.exhausted)
    ensures state != null ==> state.derived == AllFacts(Staged(given), r, b, components, o)
    ensures state != null ==> KeptInOrder(b.outputRows, state.facts, Staged(given), r, b, components, o)
    ensures state != null ==>
              forall row :: row in state.derived && IsComplete(state.tally[row.family]) ==> row in state.facts
  {
    hide AreComponents, IsSchedule, Callables, CallGraph, ValidCalls, CfgAccepted, Work, IsOutcome, AllFacts, SumsFit,
         FitsCalls, IsWork, IsReport, Room, AreTrees, AreAnswers, FitsCfg, KeptInOrder, ValidCoverages, Balances;
    ValidIffBalanced(given.coverage);
    var cfgAccepted := ValidateCfg(given.cfg);
    var callsAccepted := ValidateCalls(given.calls);
    if !cfgAccepted || !callsAccepted || !ValidCoverages(given.coverage) {
      return null, NO_ANSWERS, CallOutcome(map[], 0, map[], map[]);
    }
    var e := Staged(given);
    StagedIsAccepted(given.cfg);
    state := new AnalysisState(b.outputRows);
    r, o := DeriveAll(state, e, b, trees, components, schedule);
    Finish(state, e.coverage, Work(e, r, b, o));
  }

  /** Derive the families one after the other. */
  method DeriveAll(state: AnalysisState, e: Everything, b: Bounds, trees: map<Id, OwnerTrees>,
                   components: seq<seq<Id>>, schedule: seq<seq<Id>>)
    returns (ghost r: CfgResults, ghost o: CallOutcome)
    requires state.Valid() && state.derived == {} && CfgAccepted(e.cfg) && AreTrees(e.cfg, trees)
             && state.maxRows == b.outputRows
    requires ValidCalls(e.calls.calls) && SumsFit(e) && b.iterations >= 1
    requires AreComponents(CallGraph(e.calls), components) && IsSchedule(components, Callables(e.calls))
    requires IsSchedule(schedule, Callables(e.calls)) && forall group :: group in schedule ==> group != []
    modifies state
    ensures state.Valid() && AllConserved(state.tally) && Room(state.tally, Inherits(e.coverage), 1)
    ensures FitsCfg(e.cfg, b) ==> AreAnswers(e.cfg, r)
    ensures FitsCalls(e.calls, b) ==> IsOutcome(e.calls, b, o)
    ensures IsWork(state.tally, Work(e, r, b, o)) && state.derived == AllFacts(e, r, b, components, o)
    ensures KeptInOrder(b.outputRows, state.facts, e, r, b, components, o)
  {
    hide AreComponents, IsSchedule, Callables, CallGraph, ValidCalls, CfgAccepted, CfgWork, CallWork, Work, IsOutcome,
         GraphFacts, CfgFacts, DataFacts, Balanced, Inherits, SumsFit, Owners, Room, AllConserved, IsWork, FitsCfg,
         FitsCalls, AreTrees, AreAnswers, AnalysisState.Valid, OwnersDecided, CallsDecided, Decided, KeptInOrder;
    AskedFits(e);
    ghost var t0 := state.tally;
    r := state.DeriveCfg(e.cfg, b, trees, IsComplete(e.coverage.cfg));
    state.DerivedIsDecided();
    ghost var t1, f1 := state.tally, state.facts;
    assert state.derived == CfgPart(e, r, b);
    state.DeriveData(e.defUse, IsComplete(e.coverage.defUse));
    state.DerivedIsDecided();
    ghost var t2, f2 := state.tally, state.facts;
    o := state.DeriveCalls(e.calls, b, components, schedule);
    state.DerivedIsDecided();
    KeptSoFar(b.outputRows, f1, f2, state.facts, e, r, b, components, o);
    WorkIs(t0, t1, t2, state.tally, e, r, b, o);
    RoomForGaps(state.tally, e);
  }

  /** Add what the inputs lacked and report the families that lost facts. */
  method Finish(state: AnalysisState, c: Coverages, ghost work: Growth)
    requires state.Valid() && AllConserved(state.tally) && Room(state.tally, Inherits(c), 1)
             && IsWork(state.tally, work)
    modifies state`tally
    ensures state.Valid() && AllConserved(state.tally) && IsReport(state.tally, work, c, state.exhausted)
    ensures forall row :: row in state.derived && IsComplete(state.tally[row.family]) ==> row in state.facts
  {
    hide Inherits, Room, RaisedBy, IsWork, IsReport;
    ghost var t := state.tally;
    ApplyCoverage(state, c);
    ghost var raised := state.tally;
    RoomForOneMore(t, raised, Inherits(c));
    RaisedTotal(t, raised, Inherits(c));
    state.ReportExhaustion();
    Reported(t, raised, state.tally, work, c, state.exhausted);
  }

  lemma RaisedTotal(t: Tally, t': Tally, g: Upstream)
    requires RaisedBy(t, t', g)
    ensures Total(t) && Total(t')
  {
  }

  lemma RoomForGaps(t: Tally, e: Everything)
    requires SumsFit(e) && RequestsAre(t, Asked(e))
    ensures Room(t, Inherits(e.coverage), 1)
  {
    hide Asked, Inherits;
  }

  lemma Reported(t: Tally, raised: Tally, t': Tally, work: Growth, c: Coverages, lost: set<Family>)
    requires IsWork(t, work) && RaisedBy(t, raised, Inherits(c)) && Total(t')
    requires forall f :: f in t' ==> f in raised && t'[f] == if f in lost then OneLost(raised[f]) else raised[f]
    ensures IsReport(t', work, c, lost)
    ensures forall f :: f in t' && IsComplete(t'[f]) ==> f !in lost
  {
    hide Inherits, Filled, Raised;
    forall f | f in t' && f in lost ensures !IsComplete(t'[f]) {}
  }

  // Validation.

  lemma AcceptedIsValid(input: CfgInput)
    requires CfgAccepted(input)
    ensures CfgValid(input)
  {
    forall e | e in input.edges ensures exists n :: n in input.nodes && n.owner == e.owner {
      var n :| n in input.nodes && NodeKey(n) == (e.owner, e.source);
    }
  }

  lemma StagedIsAccepted(input: CfgInput)
    requires CfgAccepted(input)
    ensures CfgAccepted(input.(edges := Distinct(input.edges)))
  {
    hide Distinct;
  }

  method ValidateCfg(input: CfgInput) returns (ok: bool)
    ensures ok <==> CfgAccepted(input)
  {
    var keys: set<(Id, Id)> := {};
    for i := 0 to |input.nodes|
      invariant forall k, j :: 0 <= k < j < i ==> NodeKey(input.nodes[k]) != NodeKey(input.nodes[j])
      invariant forall x :: x in keys <==> exists k :: 0 <= k < i && NodeKey(input.nodes[k]) == x
    {
      if NodeKey(input.nodes[i]) in keys { return false; }
      keys := keys + {NodeKey(input.nodes[i])};
    }
    forall owner, node ensures (owner, node) in keys <==> HasNode(input.nodes, owner, node) {}
    for i := 0 to |input.edges|
      invariant forall k :: 0 <= k < i ==>
                  (input.edges[k].owner, input.edges[k].source) in keys
                      && (input.edges[k].owner, input.edges[k].target) in keys
    {
      var e := input.edges[i];
      if (e.owner, e.source) !in keys || (e.owner, e.target) !in keys {
        assert e in input.edges;
        return false;
      }
    }
    ok := true;
  }

  /** The callers and targets noted for the first i calls. */
  ghost predicate Noted(calls: seq<CallSite>, i: nat, callerBySite: map<Id, Id>, targets: set<(Id, Resolution)>)
    requires i <= |calls|
  {
    && (forall s :: s in callerBySite ==> exists k :: 0 <= k < i && calls[k].site == s)
    && (forall k :: 0 <= k < i ==>
          calls[k].site in callerBySite && callerBySite[calls[k].site] == calls[k].caller)
    && (forall x :: x in targets <==> exists k :: 0 <= k < i && (calls[k].site, calls[k].resolution) == x)
  }

  /** One more call is fine exactly when its site has no other caller and not this target yet. */
  lemma NotedDecides(calls: seq<CallSite>, i: nat, callerBySite: map<Id, Id>, targets: set<(Id, Resolution)>)
    requires i < |calls| && ValidCalls(calls[..i]) && Noted(calls, i, callerBySite, targets)
    ensures var call := calls[i];
            ValidCalls(calls[..i + 1]) <==>
            && (call.site in callerBySite ==> callerBySite[call.site] == call.caller)
            && (call.site, call.resolution) !in targets
    ensures !ValidCalls(calls[..i + 1]) ==> !ValidCalls(calls)
  {
    var call := calls[i];
    if call.site in callerBySite && callerBySite[call.site] != call.caller {
      var k :| 0 <= k < i && calls[k].site == call.site;
      assert calls[..i + 1][k] == calls[k] && calls[..i + 1][i] == call;
    } else if (call.site, call.resolution) in targets {
      var k :| 0 <= k < i && (calls[k].site, calls[k].resolution) == (call.site, call.resolution);
      assert calls[..i + 1][k] == calls[k] && calls[..i + 1][i] == call;
    } else {
      forall k | 0 <= k < i && calls[k].site == call.site
        ensures calls[k].caller == call.caller && calls[k].resolution != call.resolution
      {
        assert calls[k].resolution == call.resolution ==> (call.site, call.resolution) in targets;
      }
    }
  }

  method ValidateCalls(calls: seq<CallSite>) returns (ok: bool)
    ensures ok <==> ValidCalls(calls)
  {
    var callerBySite: map<Id, Id> := map[];
    var targets: set<(Id, Resolution)> := {};
    for i := 0 to |calls|
      invariant ValidCalls(calls[..i]) && Noted(calls, i, callerBySite, targets)
    {
      hide ValidCalls;
      var call := calls[i];
      NotedDecides(calls, i, callerBySite, targets);
      if call.site in callerBySite && callerBySite[call.site] != call.caller {
        return false;
      }
      if (call.site, call.resolution) in targets {
        return false;
      }
      callerBySite := callerBySite[call.site := call.caller];
      targets := targets + {(call.site, call.resolution)};
    }
    assert calls[..|calls|] == calls;
    ok := true;
  }
}
