/** Control dependence from an immediate post-dominator tree.

The graph of one owner is extended by a virtual exit behind its exit nodes. The dominator library
is represented by its contract: `ipdom` maps every node that reaches the virtual exit, except the
virtual exit itself, to its immediate post-dominator. */
module ControlDependence {
  import opened Prelude
  import opened Digraph

  datatype Node = Real(id: Id) | VirtualExit

  datatype Cfg = Cfg(nodes: set<Id>, edges: set<(Id, Id)>, exits: set<Id>)

  ghost predicate Valid(g: Cfg) {
    && g.exits <= g.nodes && g.exits != {}
    && forall e :: e in g.edges ==> e.0 in g.nodes && e.1 in g.nodes
  }

  ghost predicate Edge(g: Cfg, x: Node, y: Node) {
    match (x, y)
    case (Real(a), Real(b)) => (a, b) in g.edges
    case (Real(a), VirtualExit) => a in g.exits
    case (VirtualExit, _) => false
  }

  /** p walks along edges from its first node to the virtual exit. */
  ghost predicate ExitPath(g: Cfg, p: seq<Node>) {
    && p != [] && p[|p| - 1] == VirtualExit
    && forall i :: 0 <= i < |p| - 1 ==> Edge(g, p[i], p[i + 1])
  }

  ghost predicate PathFrom(g: Cfg, x: Node, p: seq<Node>) {
    ExitPath(g, p) && p[0] == x
  }

  ghost predicate ReachesExit(g: Cfg, x: Node) {
    exists p :: PathFrom(g, x, p)
  }

  /** y stands on every path from x to the virtual exit. */
  ghost predicate PostDominates(g: Cfg, y: Node, x: Node) {
    forall p :: PathFrom(g, x, p) ==> y in p
  }

  ghost predicate StrictlyPostDominates(g: Cfg, y: Node, x: Node) {
    x != y && PostDominates(g, y, x)
  }

  lemma SuffixPath(g: Cfg, p: seq<Node>, i: nat)
    requires ExitPath(g, p) && i < |p|
    ensures PathFrom(g, p[i], p[i..])
  {
  }

  lemma ExtendPath(g: Cfg, x: Node, p: seq<Node>)
    requires ExitPath(g, p) && Edge(g, x, p[0])
    ensures PathFrom(g, x, [x] + p)
  {
    var q := [x] + p;
    forall i | 0 <= i < |q| - 1 ensures Edge(g, q[i], q[i + 1]) {
      if i > 0 { assert q[i] == p[i - 1] && q[i + 1] == p[i]; }
    }
  }

  lemma PredecessorReachesExit(g: Cfg, x: Node, s: Node)
    requires Edge(g, x, s) && ReachesExit(g, s)
    ensures ReachesExit(g, x)
  {
    var p :| PathFrom(g, s, p);
    ExtendPath(g, x, p);
  }

  lemma PostDominationSelf(g: Cfg, x: Node)
    ensures PostDominates(g, x, x)
  {
  }

  lemma PostDominationJoins(g: Cfg, z: Node, y: Node, x: Node)
    requires PostDominates(g, z, y) && PostDominates(g, y, x)
    ensures PostDominates(g, z, x)
  {
    forall p | PathFrom(g, x, p) ensures z in p {
      var i :| 0 <= i < |p| && p[i] == y;
      SuffixPath(g, p, i);
      assert z in p[i..];
    }
  }

  /** A shortest path cannot visit each of two nodes after the other. */
  lemma {:induction false} PostDominationOnPath(g: Cfg, x: Node, y: Node, p: seq<Node>)
    requires PostDominates(g, y, x) && PostDominates(g, x, y) && PathFrom(g, x, p)
    ensures x == y
    decreases |p|
  {
    if x != y {
      var i :| 0 <= i < |p| && p[i] == y;
      SuffixPath(g, p, i);
      var q := p[i..];
      var j :| 0 <= j < |q| && q[j] == x;
      SuffixPath(g, q, j);
      PostDominationOnPath(g, x, y, q[j..]);
    }
  }

  lemma PostDominationAntisymmetric(g: Cfg, x: Node, y: Node)
    requires PostDominates(g, y, x) && PostDominates(g, x, y) && ReachesExit(g, x)
    ensures x == y
  {
    var p :| PathFrom(g, x, p);
    PostDominationOnPath(g, x, y, p);
  }

  lemma PostDominatorReachesExit(g: Cfg, y: Node, x: Node)
    requires PostDominates(g, y, x) && ReachesExit(g, x)
    ensures ReachesExit(g, y)
  {
    var p :| PathFrom(g, x, p);
    var i :| 0 <= i < |p| && p[i] == y;
    SuffixPath(g, p, i);
  }

  // The same between real nodes.

  /** p walks along edges from its first node to its last. */
  ghost predicate Route(edges: set<(Id, Id)>, p: seq<Id>) {
    p != [] && forall i :: 0 <= i < |p| - 1 ==> (p[i], p[i + 1]) in edges
  }

  /** p walks from x to some exit. */
  ghost predicate RouteOut(g: Cfg, x: Id, p: seq<Id>) {
    Route(g.edges, p) && p[0] == x && p[|p| - 1] in g.exits
  }

  function Lifted(p: seq<Id>): (r: seq<Node>)
    ensures |r| == |p| + 1 && r[|p|] == VirtualExit && forall i :: 0 <= i < |p| ==> r[i] == Real(p[i])
  {
    seq(|p|, i requires 0 <= i < |p| => Real(p[i])) + [VirtualExit]
  }

  function Lowered(p: seq<Node>): (r: seq<Id>)
    requires p != [] && forall i :: 0 <= i < |p| - 1 ==> p[i].Real?
    ensures |r| == |p| - 1 && forall i :: 0 <= i < |r| ==> r[i] == p[i].id
  {
    seq(|p| - 1, i requires 0 <= i < |p| - 1 => p[i].id)
  }

  lemma LiftedIsPath(g: Cfg, x: Id, p: seq<Id>)
    requires RouteOut(g, x, p)
    ensures PathFrom(g, Real(x), Lifted(p))
  {
  }

  lemma LoweredIsRoute(g: Cfg, x: Id, p: seq<Node>)
    requires PathFrom(g, Real(x), p)
    ensures forall i :: 0 <= i < |p| - 1 ==> p[i].Real?
    ensures RouteOut(g, x, Lowered(p)) && forall y :: Real(y) in p <==> y in Lowered(p)
  {
    forall i | 0 <= i < |p| - 1 ensures p[i].Real? { assert Edge(g, p[i], p[i + 1]); }
    var r := Lowered(p);
    assert |p| > 1;
    forall y | Real(y) in p ensures y in r {
      var i :| 0 <= i < |p| && p[i] == Real(y);
      assert r[i] == y;
    }
  }

  /** A node reaches the virtual exit exactly if some route leads from it to an exit, and y post-dominates x exactly if
      it stands on all of them. */
  lemma PostDominatesIff(g: Cfg, x: Id, y: Id)
    ensures ReachesExit(g, Real(x)) <==> exists p :: RouteOut(g, x, p)
    ensures PostDominates(g, Real(y), Real(x)) <==> forall p :: RouteOut(g, x, p) ==> y in p
  {
    if q :| PathFrom(g, Real(x), q) { LoweredIsRoute(g, x, q); }
    if p :| RouteOut(g, x, p) { LiftedIsPath(g, x, p); }
    if PostDominates(g, Real(y), Real(x)) {
      forall p | RouteOut(g, x, p) ensures y in p {
        LiftedIsPath(g, x, p);
        var i :| 0 <= i <= |p| && Lifted(p)[i] == Real(y);
        assert p[i] == y;
      }
    }
    if forall p :: RouteOut(g, x, p) ==> y in p {
      forall q | PathFrom(g, Real(x), q) ensures Real(y) in q { LoweredIsRoute(g, x, q); }
    }
  }

  // The immediate post-dominator tree.

  type Tree = map<Node, Node>

  /** z is the closest strict post-dominator of x. */
  ghost predicate IsImmediate(g: Cfg, x: Node, z: Node) {
    && StrictlyPostDominates(g, z, x)
    && forall y :: StrictlyPostDominates(g, y, x) ==> PostDominates(g, y, z)
  }

  ghost predicate InGraph(g: Cfg, x: Node) {
    x.VirtualExit? || x.id in g.nodes
  }

  ghost predicate IsTree(g: Cfg, ipdom: Tree) {
    && (forall x :: x in ipdom <==> x != VirtualExit && InGraph(g, x) && ReachesExit(g, x))
    && (forall x :: x in ipdom ==> InGraph(g, ipdom[x]) && IsImmediate(g, x, ipdom[x]))
  }

  lemma ImmediateBelow(g: Cfg, ipdom: Tree, x: Node, y: Node)
    requires IsTree(g, ipdom) && x in ipdom
    ensures PostDominates(g, y, x) <==> y == x || PostDominates(g, y, ipdom[x])
  {
    assert IsImmediate(g, x, ipdom[x]);
    if y == x {
      PostDominationSelf(g, x);
    } else if PostDominates(g, y, ipdom[x]) {
      PostDominationJoins(g, y, ipdom[x], x);
    }
  }

  lemma VirtualExitPostDominates(g: Cfg, x: Node)
    ensures PostDominates(g, VirtualExit, x)
    ensures PostDominates(g, x, VirtualExit) ==> x == VirtualExit
  {
    assert PathFrom(g, VirtualExit, [VirtualExit]);
  }

  // The dependences of one edge.

  /** What the source reports for the edge x -> s: y is control dependent on x because of s. */
  ghost predicate DependsVia(g: Cfg, x: Node, s: Node, y: Node) {
    if ReachesExit(g, s) then s != x && PostDominates(g, y, s) && !StrictlyPostDominates(g, y, x)
    else y == s
  }

  ghost predicate Depends(g: Cfg, x: Id, y: Id) {
    exists s :: (x, s) in g.edges && DependsVia(g, Real(x), Real(s), Real(y))
  }

  /** If s does not post-dominate x, every path from s meets the immediate post-dominator of x. */
  lemma StopPostDominatesSuccessor(g: Cfg, ipdom: Tree, x: Node, s: Node)
    requires IsTree(g, ipdom) && x in ipdom && Edge(g, x, s)
    ensures PostDominates(g, ipdom[x], s)
  {
    assert IsImmediate(g, x, ipdom[x]);
    forall p | PathFrom(g, s, p) ensures ipdom[x] in p {
      ExtendPath(g, x, p);
      assert ipdom[x] in [x] + p;
    }
  }

  /** z is the next node above `current`: it is above everything strictly above `current`. */
  lemma ClimbStep(g: Cfg, ipdom: Tree, current: Node, y: Node)
    requires IsTree(g, ipdom) && current in ipdom
    ensures !PostDominates(g, y, ipdom[current]) <==> !PostDominates(g, y, current) || y == current
  {
    ImmediateBelow(g, ipdom, current, y);
    assert IsImmediate(g, current, ipdom[current]);
    if PostDominates(g, current, ipdom[current]) {
      PostDominationAntisymmetric(g, current, ipdom[current]);
    }
  }

  /** A strict post-dominator of x is exactly a post-dominator of its immediate one. */
  lemma StrictlyAbove(g: Cfg, ipdom: Tree, x: Node, y: Node)
    requires IsTree(g, ipdom) && x in ipdom
    ensures StrictlyPostDominates(g, y, x) <==> PostDominates(g, y, ipdom[x])
  {
    ClimbStep(g, ipdom, x, y);
  }

  /** All post-dominators of x, found by climbing the tree. */
  method PostDominators(g: Cfg, ipdom: Tree, x: Node) returns (chain: set<Node>)
    requires Valid(g) && IsTree(g, ipdom) && x in ipdom
    ensures forall y :: y in chain <==> PostDominates(g, y, x)
  {
    chain := {};
    var current := x;
    PostDominationSelf(g, x);
    ghost var all := (set n | n in g.nodes :: Real(n)) + {VirtualExit};
    while current in ipdom
      invariant InGraph(g, current) && ReachesExit(g, current)
      invariant PostDominates(g, current, x) && chain <= all
      invariant forall y :: y in chain <==> PostDominates(g, y, x) && !PostDominates(g, y, current)
      decreases all - chain
    {
      PostDominationSelf(g, current);
      assert current !in chain && current in all;
      var next := ipdom[current];
      forall y ensures !PostDominates(g, y, next) <==> !PostDominates(g, y, current) || y == current {
        ClimbStep(g, ipdom, current, y);
      }
      assert IsImmediate(g, current, next);
      PostDominationJoins(g, next, current, x);
      PostDominatorReachesExit(g, next, current);
      chain := chain + {current};
      current := next;
    }
    assert current == VirtualExit;
    forall y ensures PostDominates(g, y, current) <==> y == current {
      VirtualExitPostDominates(g, y);
    }
    chain := chain + {current};
  }

  lemma NothingViaPostDominator(g: Cfg, x: Node, s: Node, y: Node)
    requires Edge(g, x, s) && ReachesExit(g, s) && PostDominates(g, s, x)
    ensures !DependsVia(g, x, s, y)
  {
    if s != x && PostDominates(g, y, s) {
      PostDominationJoins(g, y, s, x);
      if y == x {
        PostDominationAntisymmetric(g, s, x);
      }
    }
  }

  function Parent(ipdom: Tree, x: Node): Option<Node> {
    if x in ipdom then Some(ipdom[x]) else None
  }

  /** The runner has climbed from s to `current` and `seen` holds exactly the nodes passed. */
  ghost predicate Climbed(g: Cfg, s: Node, current: Node, seen: set<Node>) {
    && InGraph(g, current) && ReachesExit(g, current) && PostDominates(g, current, s)
    && forall y :: y in seen <==> PostDominates(g, y, s) && !PostDominates(g, y, current)
  }

  lemma ClimbedStep(g: Cfg, ipdom: Tree, s: Node, current: Node, seen: set<Node>)
    requires IsTree(g, ipdom) && Climbed(g, s, current, seen) && current in ipdom
    ensures current !in seen && Climbed(g, s, ipdom[current], seen + {current})
  {
    var next := ipdom[current];
    PostDominationSelf(g, current);
    forall y ensures !PostDominates(g, y, next) <==> !PostDominates(g, y, current) || y == current {
      ClimbStep(g, ipdom, current, y);
    }
    assert IsImmediate(g, current, next);
    PostDominationJoins(g, next, current, s);
    PostDominatorReachesExit(g, next, current);
  }

  lemma ClimbedToStop(g: Cfg, ipdom: Tree, x: Node, s: Node, seen: set<Node>, y: Node)
    requires IsTree(g, ipdom) && x in ipdom && ReachesExit(g, s) && s != x
    requires Climbed(g, s, ipdom[x], seen)
    ensures y in seen <==> DependsVia(g, x, s, y)
  {
    StrictlyAbove(g, ipdom, x, y);
  }

  /** What holds of the runner before each step: on the way to `stop` when s reaches an exit, and
      otherwise at s or already past it. */
  ghost predicate OnTheWay(g: Cfg, s: Node, stop: Option<Node>, runner: Option<Node>, seen: set<Node>) {
    if ReachesExit(g, s) then
      runner.Some? && stop.Some? && Climbed(g, s, runner.value, seen) && PostDominates(g, stop.value, runner.value)
    else
      (runner == Some(s) && seen == {}) || (runner == None && seen == {s})
  }

  lemma OnTheWayStep(g: Cfg, ipdom: Tree, x: Node, s: Node, current: Node, seen: set<Node>)
    requires IsTree(g, ipdom) && OnTheWay(g, s, Parent(ipdom, x), Some(current), seen)
    requires InGraph(g, s) && current != VirtualExit && Some(current) != Parent(ipdom, x)
    ensures current !in seen
    ensures OnTheWay(g, s, Parent(ipdom, x), Parent(ipdom, current), seen + {current})
  {
    if ReachesExit(g, s) {
      ClimbedStep(g, ipdom, s, current, seen);
      ImmediateBelow(g, ipdom, current, ipdom[x]);
    }
  }

  lemma StartOfWay(g: Cfg, ipdom: Tree, x: Node, s: Node)
    requires Valid(g) && IsTree(g, ipdom) && Edge(g, x, s) && InGraph(g, x) && InGraph(g, s)
    ensures OnTheWay(g, s, Parent(ipdom, x), Some(s), {})
  {
    if ReachesExit(g, s) {
      PredecessorReachesExit(g, x, s);
      PostDominationSelf(g, s);
      StopPostDominatesSuccessor(g, ipdom, x, s);
    }
  }

  lemma EndOfWay(g: Cfg, ipdom: Tree, x: Node, s: Node, runner: Option<Node>, seen: set<Node>)
    requires Valid(g) && IsTree(g, ipdom) && Edge(g, x, s) && InGraph(g, x) && InGraph(g, s)
    requires !(ReachesExit(g, s) && PostDominates(g, s, x)) && s != VirtualExit
    requires OnTheWay(g, s, Parent(ipdom, x), runner, seen)
    requires runner.None? || runner == Parent(ipdom, x) || runner.value == VirtualExit || runner.value in seen
    ensures forall y :: y in seen <==> DependsVia(g, x, s, y)
  {
    if ReachesExit(g, s) {
      PredecessorReachesExit(g, x, s);
      PostDominationSelf(g, runner.value);
      VirtualExitPostDominates(g, ipdom[x]);
      PostDominationSelf(g, x);
      forall y ensures y in seen <==> DependsVia(g, x, s, y) { ClimbedToStop(g, ipdom, x, s, seen, y); }
    } else if x in ipdom && runner == Some(ipdom[x]) {
      assert IsImmediate(g, x, ipdom[x]);
      PostDominatorReachesExit(g, ipdom[x], x);
      assert false;
    }
  }

  /** The runner walk for the edge x -> s. */
  method Walk(g: Cfg, ipdom: Tree, x: Id, s: Id) returns (emitted: set<Id>)
    requires Valid(g) && IsTree(g, ipdom) && (x, s) in g.edges
    requires !(ReachesExit(g, Real(s)) && PostDominates(g, Real(s), Real(x)))
    ensures forall y :: y in emitted <==> DependsVia(g, Real(x), Real(s), Real(y))
  {
    var stop := Parent(ipdom, Real(x));
    var runner := Some(Real(s));
    var seen: set<Node> := {};
    emitted := {};
    StartOfWay(g, ipdom, Real(x), Real(s));
    while runner.Some? && runner != stop && runner.value != VirtualExit && runner.value !in seen
      invariant OnTheWay(g, Real(s), stop, runner, seen)
      invariant runner.Some? ==> InGraph(g, runner.value)
      invariant emitted <= g.nodes
      invariant forall y :: y in seen ==> y.Real?
      invariant forall y :: y in emitted <==> Real(y) in seen
      decreases g.nodes - emitted
    {
      var current := runner.value;
      OnTheWayStep(g, ipdom, Real(x), Real(s), current, seen);
      seen := seen + {current};
      emitted := emitted + {current.id};
      runner := Parent(ipdom, current);
    }
    EndOfWay(g, ipdom, Real(x), Real(s), runner, seen);
  }

  /** The nodes reported as dependent on x because of its successor s. */
  method DependentsOfEdge(g: Cfg, ipdom: Tree, x: Id, s: Id) returns (emitted: set<Id>)
    requires Valid(g) && IsTree(g, ipdom) && (x, s) in g.edges
    ensures forall y :: y in emitted <==> DependsVia(g, Real(x), Real(s), Real(y))
  {
    var postDominates := false;
    if Real(x) in ipdom {
      var chain := PostDominators(g, ipdom, Real(x));
      postDominates := Real(s) in chain;
      if postDominates { PostDominatorReachesExit(g, Real(s), Real(x)); }
    } else if ReachesExit(g, Real(s)) {
      PredecessorReachesExit(g, Real(x), Real(s));
    }
    if postDominates {
      emitted := {};
      forall y ensures !DependsVia(g, Real(x), Real(s), y) {
        NothingViaPostDominator(g, Real(x), Real(s), y);
      }
    } else {
      emitted := Walk(g, ipdom, x, s);
    }
  }

  /** Every reported pair (y, x), over all edges in any order: y depends on x. */
  method ControlDependences(g: Cfg, ipdom: Tree, edges: seq<(Id, Id)>) returns (facts: set<(Id, Id)>)
    requires Valid(g) && IsTree(g, ipdom) && forall e :: e in edges <==> e in g.edges
    ensures forall x, y :: (y, x) in facts <==> Depends(g, x, y)
  {
    facts := {};
    for i := 0 to |edges|
      invariant forall x, y :: (y, x) in facts <==>
                  exists k :: 0 <= k < i && edges[k].0 == x && DependsVia(g, Real(x), Real(edges[k].1), Real(y))
    {
      var (x, s) := edges[i];
      assert edges[i] in edges;
      var emitted := DependentsOfEdge(g, ipdom, x, s);
      facts := facts + set y | y in emitted :: (y, x);
    }
    forall x, y ensures (y, x) in facts <==> Depends(g, x, y) {
      if Depends(g, x, y) {
        var s :| (x, s) in g.edges && DependsVia(g, Real(x), Real(s), Real(y));
        assert (x, s) in edges;
      }
      if (y, x) in facts {
        var k :| 0 <= k < |edges| && edges[k].0 == x && DependsVia(g, Real(x), Real(edges[k].1), Real(y));
        assert edges[k] in edges && edges[k] == (x, edges[k].1);
      }
    }
  }

  /** When every node reaches an exit, a report means exactly this: some edge leads from x to
      another node that y post-dominates, while y does not strictly post-dominate x. */
  lemma DependsWhenAllReachExit(g: Cfg, x: Id, y: Id)
    requires Valid(g) && forall n :: n in g.nodes ==> ReachesExit(g, Real(n))
    ensures Depends(g, x, y) <==>
            exists s :: (x, s) in g.edges && s != x && PostDominates(g, Real(y), Real(s)) &&
                        !StrictlyPostDominates(g, Real(y), Real(x))
  {
    forall s | (x, s) in g.edges
      ensures DependsVia(g, Real(x), Real(s), Real(y)) <==>
              s != x && PostDominates(g, Real(y), Real(s)) && !StrictlyPostDominates(g, Real(y), Real(x))
    {
      assert (x, s).1 in g.nodes;
    }
  }

  /** Post-dominators other than the node itself and the virtual exit, as they are emitted. */
  method StrictPostDominators(g: Cfg, ipdom: Tree, x: Id) returns (emitted: set<Id>)
    requires Valid(g) && IsTree(g, ipdom) && Real(x) in ipdom
    ensures forall y :: y in emitted <==> StrictlyPostDominates(g, Real(y), Real(x))
  {
    var chain := PostDominators(g, ipdom, Real(x));
    emitted := set n | n in chain && n.Real? && n != Real(x) :: n.id;
  }
}
