/** The control-flow answers of the census are computed from dominator trees and mean what they should. */
module CfgAnswers {
  import opened Prelude
  import opened Digraph
  import opened CensusTally
  import opened CensusFacts
  import Control = ControlDependence

  // The graphs of one owner.

  function OwnNodes(input: CfgInput, o: Id): set<Id> {
    set n | n in input.nodes && n.owner == o :: n.node
  }

  /** The graph up to its exits. */
  function ExitGraph(input: CfgInput, o: Id): Control.Cfg {
    Control.Cfg(OwnNodes(input, o), set e | e in input.edges && e.owner == o :: (e.source, e.target),
                set n | n in input.nodes && n.owner == o && n.exit :: n.node)
  }

  /** The graph turned round: what dominates a node stands on every way back from it to the entry. */
  function EntryGraph(input: CfgInput, o: Id): Control.Cfg {
    Control.Cfg(OwnNodes(input, o), set e | e in input.edges && e.owner == o :: (e.target, e.source),
                set n | n in input.nodes && n.owner == o && n.entry :: n.node)
  }

  predicate RootedOwner(input: CfgInput, o: Id) {
    Rooted(OwnedBy(NodeOwner, input.nodes, o))
  }

  lemma {:induction false} CountedExists<T>(p: T -> bool, items: seq<T>)
    requires CountIf(p, items) > 0
    ensures exists x :: x in items && p(x)
  {
    if !p(items[0]) { CountedExists(p, items[1..]); }
  }

  lemma HasNodeIn(input: CfgInput, o: Id, node: Id)
    requires HasNode(input.nodes, o, node)
    ensures node in OwnNodes(input, o)
  {
  }

  lemma GraphsAreValid(input: CfgInput, o: Id)
    requires CfgAccepted(input) && RootedOwner(input, o)
    ensures Control.Valid(ExitGraph(input, o)) && Control.Valid(EntryGraph(input, o))
  {
    hide OwnedBy, CountIf, HasNode, OwnNodes;
    var nodes := OwnedBy(NodeOwner, input.nodes, o);
    CountedExists((n: CfgNode) => n.entry, nodes);
    CountedExists((n: CfgNode) => n.exit, nodes);
    var entry :| entry in nodes && entry.entry;
    var exit :| exit in nodes && exit.exit;
    assert entry.node in EntryGraph(input, o).exits && exit.node in ExitGraph(input, o).exits;
    forall e | e in input.edges && e.owner == o
      ensures e.source in OwnNodes(input, o) && e.target in OwnNodes(input, o)
    {
      HasNodeIn(input, o, e.source);
      HasNodeIn(input, o, e.target);
    }
    forall n | n in input.nodes && n.owner == o ensures n.node in OwnNodes(input, o) {
      assert NodeKey(n) == (o, n.node);
      HasNodeIn(input, o, n.node) by { assert HasNode(input.nodes, o, n.node) by { OwnKey(input, n); } }
    }
  }

  lemma OwnKey(input: CfgInput, n: CfgNode)
    requires n in input.nodes
    ensures HasNode(input.nodes, n.owner, n.node)
  {
    assert NodeKey(n) == (n.owner, n.node);
  }

  // What the library answers for one owner.

  datatype OwnerTrees = OwnerTrees(dominators: Control.Tree, postDominators: Control.Tree)

  ghost predicate AreTrees(input: CfgInput, trees: map<Id, OwnerTrees>) {
    forall o :: o in Owners(input) && RootedOwner(input, o) ==>
      && o in trees && Control.IsTree(EntryGraph(input, o), trees[o].dominators)
      && Control.IsTree(ExitGraph(input, o), trees[o].postDominators)
  }

  // What the answers mean.

  /** A node has an answer exactly if it reaches the end of the graph, and then all its strict post-dominators. */
  ghost predicate NodesAnswered(g: Control.Cfg, answer: map<Id, set<Id>>) {
    forall x :: x in g.nodes ==>
      && (x in answer <==> Control.ReachesExit(g, Control.Real(x)))
      && (x in answer ==> StrictAbove(g, x, answer[x]))
  }

  ghost predicate StrictAbove(g: Control.Cfg, x: Id, above: set<Id>) {
    forall y :: y in above <==> Control.StrictlyPostDominates(g, Control.Real(y), Control.Real(x))
  }

  ghost predicate EdgesAnswered(g: Control.Cfg, edges: seq<CfgEdge>, o: Id, answer: map<CfgEdge, set<Id>>) {
    forall e :: e in edges && e.owner == o ==> e in answer && DependentsAre(g, e, answer[e])
  }

  ghost predicate DependentsAre(g: Control.Cfg, e: CfgEdge, dependents: set<Id>) {
    forall y :: y in dependents <==>
                Control.DependsVia(g, Control.Real(e.source), Control.Real(e.target), Control.Real(y))
  }

  /** Dominators, post-dominators and dependents of every owner with usable roots are the real ones. */
  ghost predicate AreAnswers(input: CfgInput, r: CfgResults) {
    forall o :: o in Owners(input) && RootedOwner(input, o) ==> OwnerAnswered(input, r, o)
  }

  ghost predicate OwnerAnswered(input: CfgInput, r: CfgResults, o: Id) {
    && AnswersAre(EntryGraph(input, o), o, r.dominators) && AnswersAre(ExitGraph(input, o), o, r.postDominators)
    && forall e :: e in input.edges && e.owner == o ==> DependentsAre(ExitGraph(input, o), e, r.dependents(e))
  }

  ghost predicate AnswersAre(g: Control.Cfg, o: Id, strict: NodeAnswers) {
    forall x :: x in g.nodes ==>
      && (strict(o, x).Some? <==> Control.ReachesExit(g, Control.Real(x)))
      && (strict(o, x).Some? ==> StrictAbove(g, x, strict(o, x).value))
  }

  // Computing them.

  method AnswerNodes(g: Control.Cfg, tree: Control.Tree) returns (answer: map<Id, set<Id>>)
    requires Control.Valid(g) && Control.IsTree(g, tree)
    ensures NodesAnswered(g, answer)
  {
    answer := map[];
    var rest := g.nodes;
    while rest != {}
      invariant rest <= g.nodes && answer.Keys <= g.nodes - rest
      invariant forall x :: x in g.nodes - rest ==>
                  && (x in answer <==> Control.ReachesExit(g, Control.Real(x)))
                  && (x in answer ==> StrictAbove(g, x, answer[x]))
      decreases rest
    {
      hide Control.ReachesExit, Control.StrictlyPostDominates, StrictAbove;
      var x :| x in rest;
      assert Control.Real(x) in tree <==> Control.ReachesExit(g, Control.Real(x));
      if Control.Real(x) in tree {
        var above := Control.StrictPostDominators(g, tree, x);
        AboveIs(g, x, above);
        answer := answer[x := above];
      }
      rest := rest - {x};
    }
  }

  lemma AboveIs(g: Control.Cfg, x: Id, above: set<Id>)
    requires forall y :: y in above <==> Control.StrictlyPostDominates(g, Control.Real(y), Control.Real(x))
    ensures StrictAbove(g, x, above)
  {
  }

  method AnswerEdges(g: Control.Cfg, edges: seq<CfgEdge>, o: Id, tree: Control.Tree)
    returns (answer: map<CfgEdge, set<Id>>)
    requires Control.Valid(g) && Control.IsTree(g, tree)
    requires forall e :: e in edges && e.owner == o ==> (e.source, e.target) in g.edges
    ensures EdgesAnswered(g, edges, o, answer)
  {
    answer := map[];
    for i := 0 to |edges|
      invariant forall e :: e in edges[..i] && e.owner == o ==> e in answer
      invariant forall e :: e in answer ==> e in edges && e.owner == o && DependentsAre(g, e, answer[e])
    {
      hide Control.IsTree, Control.Valid, DependentsAre;
      var e := edges[i];
      if e.owner == o {
        var dependents := Control.DependentsOfEdge(g, tree, e.source, e.target);
        DependentsFound(g, e, dependents);
        answer := answer[e := dependents];
      }
      assert edges[..i + 1] == edges[..i] + [e];
    }
    assert edges[..|edges|] == edges;
  }

  lemma DependentsFound(g: Control.Cfg, e: CfgEdge, dependents: set<Id>)
    requires forall y :: y in dependents <==>
                         Control.DependsVia(g, Control.Real(e.source), Control.Real(e.target), Control.Real(y))
    ensures DependentsAre(g, e, dependents)
  {
  }

  /** The three answers for one owner. */
  datatype OwnerAnswer = OwnerAnswer(dominators: map<Id, set<Id>>, postDominators: map<Id, set<Id>>,
                                     dependents: map<CfgEdge, set<Id>>)

  ghost predicate IsOwnerAnswer(input: CfgInput, o: Id, a: OwnerAnswer) {
    && NodesAnswered(EntryGraph(input, o), a.dominators) && NodesAnswered(ExitGraph(input, o), a.postDominators)
    && EdgesAnswered(ExitGraph(input, o), input.edges, o, a.dependents)
  }

  method AnswerOwner(input: CfgInput, o: Id, trees: OwnerTrees) returns (a: OwnerAnswer)
    requires CfgAccepted(input) && RootedOwner(input, o)
    requires Control.IsTree(EntryGraph(input, o), trees.dominators)
    requires Control.IsTree(ExitGraph(input, o), trees.postDominators)
    ensures IsOwnerAnswer(input, o, a)
  {
    hide Control.IsTree, Control.Valid, CfgAccepted, RootedOwner, NodesAnswered, EdgesAnswered;
    GraphsAreValid(input, o);
    var entry, exit := EntryGraph(input, o), ExitGraph(input, o);
    var dominators := AnswerNodes(entry, trees.dominators);
    var postDominators := AnswerNodes(exit, trees.postDominators);
    var dependents := AnswerEdges(exit, input.edges, o, trees.postDominators);
    a := OwnerAnswer(dominators, postDominators, dependents);
  }

  function Results(answers: map<Id, OwnerAnswer>): CfgResults {
    CfgResults((o: Id, x: Id) => if o in answers && x in answers[o].dominators then Some(answers[o].dominators[x])
                                 else None,
               (o: Id, x: Id) => if o in answers && x in answers[o].postDominators
                                 then Some(answers[o].postDominators[x]) else None,
               (e: CfgEdge) => if e.owner in answers && e in answers[e.owner].dependents
                               then answers[e.owner].dependents[e] else {})
  }

  lemma ResultsAnswer(input: CfgInput, answers: map<Id, OwnerAnswer>, o: Id)
    requires o in answers && IsOwnerAnswer(input, o, answers[o])
    ensures OwnerAnswered(input, Results(answers), o)
  {
    hide Control.ReachesExit, StrictAbove, DependentsAre, EntryGraph, ExitGraph;
  }

  /** Owner by owner, everything the trees say about nodes and edges. */
  method Answer(input: CfgInput, trees: map<Id, OwnerTrees>) returns (r: CfgResults)
    requires CfgAccepted(input) && AreTrees(input, trees)
    ensures AreAnswers(input, r)
  {
    hide CfgAccepted, RootedOwner, IsOwnerAnswer, EntryGraph, ExitGraph, Control.IsTree, OwnerAnswered;
    var answers: map<Id, OwnerAnswer> := map[];
    var rest := Owners(input);
    while rest != {}
      invariant rest <= Owners(input)
      invariant forall o :: o in Owners(input) - rest && RootedOwner(input, o) ==>
                  o in answers && IsOwnerAnswer(input, o, answers[o])
      decreases rest
    {
      var o :| o in rest;
      if Rooted(OwnedBy(NodeOwner, input.nodes, o)) {
        assert RootedOwner(input, o) by { RootedIs(input, o); }
        var a := AnswerOwner(input, o, trees[o]);
        answers := answers[o := a];
      } else {
        assert !RootedOwner(input, o) by { RootedIs(input, o); }
      }
      rest := rest - {o};
    }
    r := Results(answers);
    forall o | o in Owners(input) && RootedOwner(input, o) ensures OwnerAnswered(input, r, o) {
      ResultsAnswer(input, answers, o);
    }
  }

  lemma RootedIs(input: CfgInput, o: Id)
    ensures RootedOwner(input, o) <==> Rooted(OwnedBy(NodeOwner, input.nodes, o))
  {
  }

  // What the facts mean.

  /** A control dependence is derived exactly for the dependent pairs of some owner with usable roots. */
  lemma ControlFactsIff(input: CfgInput, r: CfgResults, complete: bool, x: Id, y: Id)
    requires CfgAccepted(input) && AreAnswers(input, r)
    ensures Fact(ControlDependence, y, Object(x), complete) in CfgFacts(input, r, Owners(input), complete) <==>
            exists o :: o in Owners(input) && RootedOwner(input, o) && Control.Depends(ExitGraph(input, o), x, y)
  {
    hide Rooted, RootedOwner, CfgAccepted;
    var fact := Fact(ControlDependence, y, Object(x), complete);
    forall o | o in Owners(input) && RootedOwner(input, o)
      ensures fact in OwnerFacts(OwnedBy(NodeOwner, input.nodes, o), OwnedBy(EdgeOwner, input.edges, o), r, complete)
              <==> Control.Depends(ExitGraph(input, o), x, y)
    {
      RootedIs(input, o);
      OwnerControlFact(input, r, o, complete, x, y);
    }
    forall o ensures RootedOwner(input, o) <==> Rooted(OwnedBy(NodeOwner, input.nodes, o)) { RootedIs(input, o); }
  }

  lemma OwnerControlFact(input: CfgInput, r: CfgResults, o: Id, complete: bool, x: Id, y: Id)
    requires RootedOwner(input, o) && OwnerAnswered(input, r, o)
    ensures Fact(ControlDependence, y, Object(x), complete)
            in OwnerFacts(OwnedBy(NodeOwner, input.nodes, o), OwnedBy(EdgeOwner, input.edges, o), r, complete)
            <==> Control.Depends(ExitGraph(input, o), x, y)
  {
    hide Rooted, Control.DependsVia, OwnNodes, AnswersAre;
    var edges, g := OwnedBy(EdgeOwner, input.edges, o), ExitGraph(input, o);
    if e :| e in edges && y in r.dependents(e) && e.source == x {
      assert (x, e.target) in g.edges;
    }
    if s :| (x, s) in g.edges && Control.DependsVia(g, Control.Real(x), Control.Real(s), Control.Real(y)) {
      var e :| e in input.edges && e.owner == o && (e.source, e.target) == (x, s);
      assert e in edges && y in r.dependents(e);
    }
  }

  /** The graph in which the answers of a family are post-dominators. */
  function GraphOf(f: Family, input: CfgInput, o: Id): Control.Cfg {
    if f == Dominator then EntryGraph(input, o) else ExitGraph(input, o)
  }

  /** y is a strict dominator (or post-dominator) of x in some owner with usable roots, and x is reached. */
  ghost predicate StandsAbove(f: Family, input: CfgInput, o: Id, x: Id, y: Id) {
    && o in Owners(input) && RootedOwner(input, o) && x in OwnNodes(input, o)
    && Control.ReachesExit(GraphOf(f, input, o), Control.Real(x))
    && Control.StrictlyPostDominates(GraphOf(f, input, o), Control.Real(y), Control.Real(x))
  }

  /** Dominators and post-dominators are derived exactly where they are the real ones. */
  lemma NodeFactsIff(f: Family, input: CfgInput, r: CfgResults, complete: bool, x: Id, y: Id)
    requires f == Dominator || f == PostDominator
    requires CfgAccepted(input) && AreAnswers(input, r)
    ensures Fact(f, x, Object(y), complete) in CfgFacts(input, r, Owners(input), complete) <==>
            exists o :: StandsAbove(f, input, o, x, y)
  {
    hide Rooted, RootedOwner, CfgAccepted, GraphOf, OwnNodes;
    var fact := Fact(f, x, Object(y), complete);
    forall o | o in Owners(input) && RootedOwner(input, o)
      ensures fact in OwnerFacts(OwnedBy(NodeOwner, input.nodes, o), OwnedBy(EdgeOwner, input.edges, o), r, complete)
              <==> StandsAbove(f, input, o, x, y)
    {
      OwnerNodeFact(f, input, r, o, complete, x, y);
    }
    forall o ensures RootedOwner(input, o) <==> Rooted(OwnedBy(NodeOwner, input.nodes, o)) { RootedIs(input, o); }
  }

  lemma NodeFactAt(f: Family, g: Control.Cfg, nodes: seq<CfgNode>, o: Id, strict: NodeAnswers, complete: bool, x: Id,
                   y: Id)
    requires AnswersAre(g, o, strict) && (forall n :: n in nodes ==> n.owner == o)
    requires forall z :: z in g.nodes <==> exists n :: n in nodes && n.node == z
    ensures Fact(f, x, Object(y), complete) in NodeFacts(f, nodes, strict, complete) <==>
            && x in g.nodes && Control.ReachesExit(g, Control.Real(x))
            && Control.StrictlyPostDominates(g, Control.Real(y), Control.Real(x))
  {
    if x in g.nodes && Control.ReachesExit(g, Control.Real(x))
       && Control.StrictlyPostDominates(g, Control.Real(y), Control.Real(x)) {
      var n :| n in nodes && n.node == x;
      assert strict(o, x).Some? && y in strict(n.owner, n.node).value;
    }
  }

  lemma OwnNodesAre(input: CfgInput, o: Id)
    ensures forall z :: z in OwnNodes(input, o) <==> exists n :: n in OwnedBy(NodeOwner, input.nodes, o) && n.node == z
  {
    forall z | z in OwnNodes(input, o) ensures exists n :: n in OwnedBy(NodeOwner, input.nodes, o) && n.node == z {
      var n :| n in input.nodes && n.owner == o && n.node == z;
      assert n in OwnedBy(NodeOwner, input.nodes, o);
    }
  }

  lemma OwnerNodeFact(f: Family, input: CfgInput, r: CfgResults, o: Id, complete: bool, x: Id, y: Id)
    requires (f == Dominator || f == PostDominator) && o in Owners(input)
    requires RootedOwner(input, o) && OwnerAnswered(input, r, o)
    ensures Fact(f, x, Object(y), complete)
            in OwnerFacts(OwnedBy(NodeOwner, input.nodes, o), OwnedBy(EdgeOwner, input.edges, o), r, complete)
            <==> StandsAbove(f, input, o, x, y)
  {
    hide Rooted, Control.ReachesExit, Control.StrictlyPostDominates, DependentsAre, AnswersAre, OwnNodes;
    var nodes := OwnedBy(NodeOwner, input.nodes, o);
    OwnNodesAre(input, o);
    if f == Dominator {
      NodeFactAt(f, EntryGraph(input, o), nodes, o, r.dominators, complete, x, y);
    } else {
      NodeFactAt(f, ExitGraph(input, o), nodes, o, r.postDominators, complete, x, y);
    }
  }

  // The same in terms of the given nodes and edges.

  /** p walks along the edges of owner o. */
  ghost predicate RouteOf(input: CfgInput, o: Id, p: seq<Id>) {
    p != [] && forall i :: 0 <= i < |p| - 1 ==> CfgEdge(o, p[i], p[i + 1]) in input.edges
  }

  ghost predicate IsEntry(input: CfgInput, o: Id, x: Id) {
    exists n :: n in input.nodes && n.owner == o && n.node == x && n.entry
  }

  ghost predicate IsExit(input: CfgInput, o: Id, x: Id) {
    exists n :: n in input.nodes && n.owner == o && n.node == x && n.exit
  }

  /** p leads from an entry of o to x. */
  ghost predicate LeadsTo(input: CfgInput, o: Id, x: Id, p: seq<Id>) {
    RouteOf(input, o, p) && IsEntry(input, o, p[0]) && p[|p| - 1] == x
  }

  /** p leads from x to an exit of o. */
  ghost predicate LeadsOut(input: CfgInput, o: Id, x: Id, p: seq<Id>) {
    RouteOf(input, o, p) && p[0] == x && IsExit(input, o, p[|p| - 1])
  }

  lemma OutIsRoute(input: CfgInput, o: Id, x: Id, p: seq<Id>)
    ensures LeadsOut(input, o, x, p) <==> Control.RouteOut(ExitGraph(input, o), x, p)
  {
    var g := ExitGraph(input, o);
    forall a, b ensures (a, b) in g.edges <==> CfgEdge(o, a, b) in input.edges {
      if (a, b) in g.edges {
        var e :| e in input.edges && e.owner == o && (e.source, e.target) == (a, b);
        assert e == CfgEdge(o, a, b);
      }
      if CfgEdge(o, a, b) in input.edges { assert CfgEdge(o, a, b).owner == o; }
    }
  }

  function Backwards(p: seq<Id>): (r: seq<Id>)
    ensures |r| == |p| && forall i :: 0 <= i < |p| ==> r[i] == p[|p| - 1 - i]
  {
    seq(|p|, i requires 0 <= i < |p| => p[|p| - 1 - i])
  }

  lemma SameBackwards(p: seq<Id>)
    ensures Backwards(Backwards(p)) == p && forall y :: y in Backwards(p) <==> y in p
  {
    var r := Backwards(p);
    forall y | y in p ensures y in r {
      var i :| 0 <= i < |p| && p[i] == y;
      assert r[|p| - 1 - i] == y;
    }
  }

  lemma ToIsRoute(input: CfgInput, o: Id, x: Id, p: seq<Id>)
    ensures LeadsTo(input, o, x, p) <==> Control.RouteOut(EntryGraph(input, o), x, Backwards(p))
  {
    var g, r := EntryGraph(input, o), Backwards(p);
    forall a, b ensures (b, a) in g.edges <==> CfgEdge(o, a, b) in input.edges {
      if (b, a) in g.edges {
        var e :| e in input.edges && e.owner == o && (e.target, e.source) == (b, a);
        assert e == CfgEdge(o, a, b);
      }
      if CfgEdge(o, a, b) in input.edges { assert CfgEdge(o, a, b).owner == o; }
    }
    if RouteOf(input, o, p) {
      forall i | 0 <= i < |r| - 1 ensures (r[i], r[i + 1]) in g.edges {
        var j := |p| - 2 - i;
        assert CfgEdge(o, p[j], p[j + 1]) in input.edges;
      }
    }
    if Control.Route(g.edges, r) {
      forall i | 0 <= i < |p| - 1 ensures CfgEdge(o, p[i], p[i + 1]) in input.edges {
        var j := |p| - 2 - i;
        assert (r[j], r[j + 1]) in g.edges;
      }
    }
  }

  /** Strict dominators are derived exactly where some route leads from the entry to the node and all of them pass. */
  lemma DominatorsIff(input: CfgInput, o: Id, x: Id, y: Id)
    ensures StandsAbove(Dominator, input, o, x, y) <==>
            && o in Owners(input) && RootedOwner(input, o) && x in OwnNodes(input, o) && x != y
            && (exists p :: LeadsTo(input, o, x, p)) && forall p :: LeadsTo(input, o, x, p) ==> y in p
  {
    hide RootedOwner, OwnNodes, LeadsTo, Control.RouteOut;
    var g := EntryGraph(input, o);
    Control.PostDominatesIff(g, x, y);
    if q :| Control.RouteOut(g, x, q) {
      SameBackwards(q);
      ToIsRoute(input, o, x, Backwards(q));
    }
    if p :| LeadsTo(input, o, x, p) { ToIsRoute(input, o, x, p); }
    if forall q :: Control.RouteOut(g, x, q) ==> y in q {
      forall p | LeadsTo(input, o, x, p) ensures y in p {
        ToIsRoute(input, o, x, p);
        SameBackwards(p);
      }
    }
    if forall p :: LeadsTo(input, o, x, p) ==> y in p {
      forall q | Control.RouteOut(g, x, q) ensures y in q {
        SameBackwards(q);
        ToIsRoute(input, o, x, Backwards(q));
      }
    }
  }

  /** Strict post-dominators likewise, on the routes from the node to an exit. */
  lemma PostDominatorsIff(input: CfgInput, o: Id, x: Id, y: Id)
    ensures StandsAbove(PostDominator, input, o, x, y) <==>
            && o in Owners(input) && RootedOwner(input, o) && x in OwnNodes(input, o) && x != y
            && (exists p :: LeadsOut(input, o, x, p)) && forall p :: LeadsOut(input, o, x, p) ==> y in p
  {
    hide RootedOwner, OwnNodes, LeadsOut, Control.RouteOut;
    var g := ExitGraph(input, o);
    Control.PostDominatesIff(g, x, y);
    forall p ensures LeadsOut(input, o, x, p) <==> Control.RouteOut(g, x, p) { OutIsRoute(input, o, x, p); }
  }

  // Usable roots.

  ghost predicate Apart<T(!new)>(items: seq<T>) {
    forall i, j :: 0 <= i < j < |items| ==> items[i] != items[j]
  }

  lemma {:induction false} CountsOnce<T(!new)>(p: T -> bool, items: seq<T>)
    requires Apart(items)
    ensures CountIf(p, items) > 0 <==> exists x :: x in items && p(x)
    ensures CountIf(p, items) <= 1 <==> forall x, y :: x in items && y in items && p(x) && p(y) ==> x == y
  {
    if items != [] {
      var rest := items[1..];
      CountsOnce(p, rest);
      assert items[0] in items && items[0] !in rest && forall x :: x in items <==> x == items[0] || x in rest;
    }
  }

  lemma {:induction false} OwnedDistinct(items: seq<CfgNode>, o: Id)
    requires Apart(items)
    ensures Apart(OwnedBy(NodeOwner, items, o))
  {
    if items != [] {
      OwnedDistinct(items[1..], o);
      assert items[0] !in items[1..];
      assert items[0] !in OwnedBy(NodeOwner, items[1..], o);
    }
  }

  lemma SameNodeSameRow(input: CfgInput, m: CfgNode, n: CfgNode)
    requires CfgAccepted(input) && m in input.nodes && n in input.nodes && NodeKey(m) == NodeKey(n)
    ensures m == n
  {
    var i :| 0 <= i < |input.nodes| && input.nodes[i] == m;
    var j :| 0 <= j < |input.nodes| && input.nodes[j] == n;
  }

  lemma CountsRows(input: CfgInput, o: Id, p: CfgNode -> bool)
    requires CfgAccepted(input)
    ensures var c := CountIf(p, OwnedBy(NodeOwner, input.nodes, o));
            && (c > 0 <==> exists n :: n in input.nodes && n.owner == o && p(n))
            && (c <= 1 <==> forall m, n | m in input.nodes && n in input.nodes && m.owner == o && n.owner == o ::
                              p(m) && p(n) ==> m == n)
  {
    forall i, j | 0 <= i < j < |input.nodes| ensures input.nodes[i] != input.nodes[j] {
      assert NodeKey(input.nodes[i]) != NodeKey(input.nodes[j]);
    }
    OwnedDistinct(input.nodes, o);
    CountsOnce(p, OwnedBy(NodeOwner, input.nodes, o));
  }

  /** An owner has usable roots exactly if it has one entry, no second one, and some exit. */
  lemma RootedIff(input: CfgInput, o: Id)
    requires CfgAccepted(input)
    ensures RootedOwner(input, o) <==>
            && (exists x :: IsEntry(input, o, x) && forall y :: IsEntry(input, o, y) ==> y == x)
            && exists x :: IsExit(input, o, x)
  {
    hide RootedOwner, CfgAccepted, IsEntry, IsExit;
    RootedRows(input, o);
    ExitRows(input, o);
    EntryRows(input, o);
    assert (exists x :: IsEntry(input, o, x) && forall y :: IsEntry(input, o, y) ==> y == x) <==>
           (exists x :: IsEntry(input, o, x)) &&
           (forall x, y :: IsEntry(input, o, x) && IsEntry(input, o, y) ==> x == y);
  }

  lemma RootedRows(input: CfgInput, o: Id)
    requires CfgAccepted(input)
    ensures RootedOwner(input, o) <==>
            && (exists n :: n in input.nodes && n.owner == o && n.entry)
            && (forall m, n | m in input.nodes && n in input.nodes && m.owner == o && n.owner == o ::
                  m.entry && n.entry ==> m == n)
            && exists n :: n in input.nodes && n.owner == o && n.exit
  {
    hide CountIf, OwnedBy, CfgAccepted;
    var entry, exit := (n: CfgNode) => n.entry, (n: CfgNode) => n.exit;
    CountsRows(input, o, entry);
    CountsRows(input, o, exit);
    var nodes := OwnedBy(NodeOwner, input.nodes, o);
    assert RootedOwner(input, o) <==> CountIf(entry, nodes) == 1 && CountIf(exit, nodes) > 0;
  }

  lemma ExitRows(input: CfgInput, o: Id)
    ensures (exists n :: n in input.nodes && n.owner == o && n.exit) <==> exists x :: IsExit(input, o, x)
  {
    if n :| n in input.nodes && n.owner == o && n.exit { assert IsExit(input, o, n.node); }
  }

  lemma EntryRows(input: CfgInput, o: Id)
    requires CfgAccepted(input)
    ensures (exists n :: n in input.nodes && n.owner == o && n.entry) <==> exists x :: IsEntry(input, o, x)
    ensures (forall m, n | m in input.nodes && n in input.nodes && m.owner == o && n.owner == o ::
               m.entry && n.entry ==> m == n) <==>
            forall x, y :: IsEntry(input, o, x) && IsEntry(input, o, y) ==> x == y
  {
    hide CfgAccepted;
    if n :| n in input.nodes && n.owner == o && n.entry { assert IsEntry(input, o, n.node); }
    if forall x, y :: IsEntry(input, o, x) && IsEntry(input, o, y) ==> x == y {
      forall m, n | m in input.nodes && n in input.nodes && m.owner == o && n.owner == o && m.entry && n.entry
        ensures m == n
      {
        assert IsEntry(input, o, m.node) && IsEntry(input, o, n.node);
        SameNodeSameRow(input, m, n);
      }
    }
  }
}
