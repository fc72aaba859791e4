/** Finite directed graphs over canonical identities, and bounded paths in them.

The analysis uses an identity only through equality and through the total order of its text, so an
identity is modelled by the rank of its text. */
module Digraph {
  import opened Prelude

  datatype Id = Id(rank: nat)

  type Adjacency = map<Id, set<Id>>

  /** Every edge stays inside the graph. */
  ghost predicate Closed(g: Adjacency) {
    forall c, d :: c in g && d in g[c] ==> d in g
  }

  function Successors(g: Adjacency, c: Id): set<Id> {
    if c in g then g[c] else {}
  }

  /** Some path of at most k edges leads from s to t. */
  ghost predicate Within(g: Adjacency, s: Id, t: Id, k: nat)
    decreases k
  {
    s == t || (k > 0 && exists d :: d in Successors(g, s) && Within(g, d, t, k - 1))
  }

  ghost predicate Reaches(g: Adjacency, s: Id, t: Id) {
    exists k: nat :: Within(g, s, t, k)
  }

  /** Some call chain leads from c back to c. */
  ghost predicate Recursive(g: Adjacency, c: Id) {
    exists d :: d in Successors(g, c) && Reaches(g, d, c)
  }

  lemma WithinGrows(g: Adjacency, s: Id, t: Id, j: nat, k: nat)
    requires j <= k && Within(g, s, t, j)
    ensures Within(g, s, t, k)
    decreases j
  {
    if s != t {
      var d :| d in Successors(g, s) && Within(g, d, t, j - 1);
      WithinGrows(g, d, t, j - 1, k - 1);
    }
  }

  lemma WithinJoins(g: Adjacency, s: Id, t: Id, u: Id, j: nat, k: nat)
    requires Within(g, s, t, j) && Within(g, t, u, k)
    ensures Within(g, s, u, j + k)
    decreases j
  {
    if s == t {
      WithinGrows(g, s, u, k, j + k);
    } else {
      var d :| d in Successors(g, s) && Within(g, d, t, j - 1);
      WithinJoins(g, d, t, u, j - 1, k);
    }
  }

  lemma WithinExtends(g: Adjacency, s: Id, t: Id, u: Id, k: nat)
    requires Within(g, s, t, k) && u in Successors(g, t)
    ensures Within(g, s, u, k + 1)
  {
    assert Within(g, u, u, 0);
    assert Within(g, t, u, 1);
    WithinJoins(g, s, t, u, k, 1);
  }

  /** The last edge of a path that leaves its source. */
  lemma WithinLastEdge(g: Adjacency, s: Id, u: Id, k: nat) returns (t: Id)
    requires k > 0 && Within(g, s, u, k) && s != u
    ensures Within(g, s, t, k - 1) && u in Successors(g, t)
    decreases k
  {
    var d :| d in Successors(g, s) && Within(g, d, u, k - 1);
    if d == u {
      t := s;
    } else {
      t := WithinLastEdge(g, d, u, k - 1);
    }
  }

  lemma WithinStaysInside(g: Adjacency, s: Id, t: Id, k: nat)
    requires Closed(g) && s in g && Within(g, s, t, k)
    ensures t in g
    decreases k
  {
    if s != t {
      var d :| d in Successors(g, s) && Within(g, d, t, k - 1);
      WithinStaysInside(g, d, t, k - 1);
    }
  }

  lemma ReachesJoins(g: Adjacency, s: Id, t: Id, u: Id)
    requires Reaches(g, s, t) && Reaches(g, t, u)
    ensures Reaches(g, s, u)
  {
    var j: nat :| Within(g, s, t, j);
    var k: nat :| Within(g, t, u, k);
    WithinJoins(g, s, t, u, j, k);
  }

  lemma ReachesSelf(g: Adjacency, s: Id)
    ensures Reaches(g, s, s)
  {
    assert Within(g, s, s, 0);
  }

  lemma ReachesEdge(g: Adjacency, s: Id, t: Id)
    requires t in Successors(g, s)
    ensures Reaches(g, s, t)
  {
    assert Within(g, t, t, 0);
    assert Within(g, s, t, 1);
  }

  /** The first edge of a nontrivial path. */
  lemma ReachesFirstEdge(g: Adjacency, s: Id, t: Id) returns (d: Id)
    requires Reaches(g, s, t) && s != t
    ensures d in Successors(g, s) && Reaches(g, d, t)
  {
    var k: nat :| Within(g, s, t, k);
    d :| d in Successors(g, s) && Within(g, d, t, k - 1);
  }

  /** `back` has exactly the edges of g, turned round. */
  ghost predicate IsReverse(g: Adjacency, back: Adjacency) {
    && back.Keys == g.Keys
    && (forall d :: d in back ==> back[d] <= g.Keys)
    && forall c, d :: c in g && d in g ==> (d in g[c] <==> c in back[d])
  }

  ghost predicate ReachesSome(g: Adjacency, c: Id, targets: set<Id>) {
    exists d :: d in targets && Reaches(g, c, d)
  }

  /** The nodes from which some target can be reached. */
  ghost function TransitiveCallers(g: Adjacency, targets: set<Id>): set<Id> {
    set c | c in g && ReachesSome(g, c, targets)
  }

  lemma CallersOfCallers(g: Adjacency, back: Adjacency, targets: set<Id>, d: Id)
    requires IsReverse(g, back) && d in TransitiveCallers(g, targets)
    ensures back[d] <= TransitiveCallers(g, targets)
  {
    var x :| x in targets && Reaches(g, d, x);
    forall c | c in back[d] ensures ReachesSome(g, c, targets) {
      assert d in g[c];
      ReachesEdge(g, c, d);
      ReachesJoins(g, c, d, x);
    }
  }

  lemma TargetsCallThemselves(g: Adjacency, targets: set<Id>)
    requires targets <= g.Keys
    ensures targets <= TransitiveCallers(g, targets)
  {
    forall c | c in targets ensures ReachesSome(g, c, targets) { ReachesSelf(g, c); }
  }

  lemma {:induction false} CallerClosedPath(g: Adjacency, back: Adjacency, closed: set<Id>, c: Id, d: Id, k: nat)
    requires Closed(g) && IsReverse(g, back) && c in g && d in closed && Within(g, c, d, k)
    requires closed <= g.Keys && forall x :: x in closed ==> back[x] <= closed
    ensures c in closed
    decreases k
  {
    if c != d {
      var x :| x in Successors(g, c) && Within(g, x, d, k - 1);
      CallerClosedPath(g, back, closed, x, d, k - 1);
      assert c in back[x];
    }
  }

  /** A set that contains the targets and the callers of its members contains all their
      transitive callers. */
  lemma CallerClosedIsComplete(g: Adjacency, back: Adjacency, targets: set<Id>, closed: set<Id>)
    requires Closed(g) && IsReverse(g, back) && targets <= closed <= g.Keys
    requires forall x :: x in closed ==> back[x] <= closed
    ensures TransitiveCallers(g, targets) <= closed
  {
    forall c | c in TransitiveCallers(g, targets) ensures c in closed {
      var d :| d in targets && Reaches(g, c, d);
      var k: nat :| Within(g, c, d, k);
      CallerClosedPath(g, back, closed, c, d, k);
    }
  }

  // Ascending iteration, as an ordered set is iterated.

  predicate IsLeast(m: Id, s: set<Id>) {
    m in s && forall x :: x in s ==> m.rank <= x.rank
  }

  function Least(s: set<Id>): (m: Id)
    requires s != {}
    ensures IsLeast(m, s)
  {
    LeastExists(s);
    var m :| IsLeast(m, s);
    m
  }

  lemma {:induction false} LeastExists(s: set<Id>)
    requires s != {}
    ensures exists m :: IsLeast(m, s)
    decreases |s|
  {
    var y :| y in s;
    var rest := s - {y};
    assert s == rest + {y};
    if rest == {} {
      assert IsLeast(y, s);
    } else {
      LeastExists(rest);
      var n :| IsLeast(n, rest);
      assert IsLeast(if y.rank <= n.rank then y else n, s);
    }
  }

  /** The elements of s in ascending order. */
  function Ascending(s: set<Id>): seq<Id>
    decreases |s|
  {
    if s == {} then []
    else
      var m := Least(s);
      [m] + Ascending(s - {m})
  }

  lemma {:induction false} AscendingMeaning(s: set<Id>)
    ensures forall x :: x in Ascending(s) <==> x in s
    ensures |Ascending(s)| == |s|
    ensures forall i, j :: 0 <= i < j < |Ascending(s)| ==> Ascending(s)[i].rank < Ascending(s)[j].rank
    decreases |s|
  {
    if s != {} {
      var m := Least(s);
      var rest := Ascending(s - {m});
      AscendingMeaning(s - {m});
      assert Ascending(s) == [m] + rest;
      forall i | 0 <= i < |rest| ensures m.rank < rest[i].rank {
        assert rest[i] in rest;
      }
    }
  }

  /** The first n elements of an ordered set. */
  function First(s: set<Id>, n: nat): seq<Id> {
    var a := Ascending(s);
    if |a| <= n then a else a[..n]
  }

  lemma FirstMeaning(s: set<Id>, n: nat)
    ensures |First(s, n)| == if |s| <= n then |s| else n
    ensures forall x :: x in First(s, n) ==> x in s
    ensures |s| <= n ==> forall x :: x in s ==> x in First(s, n)
  {
    AscendingMeaning(s);
  }
}
