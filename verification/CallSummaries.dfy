/** Bounded interprocedural effect and resource summaries.

A summary row per callable is raised round by round from a snapshot of the previous round until no
row changes or the iteration bound is spent. Rows hold at most `maxValues` effects and resources;
a refused value, an unresolved call, missing local semantics, recursion or an incomplete callee
marks a row incomplete. */
module CallSummaries {
  import opened Prelude
  import opened Digraph
  import opened FixedPoint

  datatype Row = Row(effects: set<Id>, resources: set<Id>, incomplete: bool)

  type Table = map<Id, Row>

  // One bounded insertion pass.

  /** Insert the values in order, refusing new ones while the summary is full. */
  function Absorb(summary: set<Id>, values: seq<Id>, bound: nat): set<Id>
    decreases |values|
  {
    if values == [] then summary
    else if values[0] in summary || |summary| == bound then Absorb(summary, values[1..], bound)
    else Absorb(summary + {values[0]}, values[1..], bound)
  }

  /** Some value is refused on the way. */
  predicate Refuses(summary: set<Id>, values: seq<Id>, bound: nat)
    decreases |values|
  {
    if values == [] then false
    else if values[0] in summary then Refuses(summary, values[1..], bound)
    else if |summary| == bound then true
    else Refuses(summary + {values[0]}, values[1..], bound)
  }

  function Elements(values: seq<Id>): set<Id> {
    set v | v in values
  }

  /** A pass keeps what was there, adds only offered values, stays within the bound, and refuses a
      value exactly when everything together would not fit. */
  lemma {:induction false} AbsorbMeaning(summary: set<Id>, values: seq<Id>, bound: nat)
    requires |summary| <= bound
    ensures summary <= Absorb(summary, values, bound) <= summary + Elements(values)
    ensures |Absorb(summary, values, bound)| <= bound
    ensures Refuses(summary, values, bound) <==> |summary + Elements(values)| > bound
    ensures !Refuses(summary, values, bound) ==>
              Absorb(summary, values, bound) == summary + Elements(values)
    decreases |values|
  {
    if values == [] {
      assert summary + Elements(values) == summary;
    } else {
      var v, rest := values[0], values[1..];
      assert Elements(values) == {v} + Elements(rest);
      if v in summary {
        AbsorbMeaning(summary, rest, bound);
        assert summary + Elements(values) == summary + Elements(rest);
      } else if |summary| == bound {
        AbsorbMeaning(summary, rest, bound);
        Proper(summary + {v}, summary + Elements(values));
      } else {
        AbsorbMeaning(summary + {v}, rest, bound);
        assert summary + Elements(values) == summary + {v} + Elements(rest);
      }
    }
  }

  // One round.

  function AbsorbCallee(own: Row, callee: Row, bound: nat): Row {
    var effects := First(callee.effects, bound);
    var resources := First(callee.resources, bound);
    Row(Absorb(own.effects, effects, bound),
        Absorb(own.resources, resources, bound),
        || own.incomplete
        || Refuses(own.effects, effects, bound)
        || Refuses(own.resources, resources, bound)
        || callee.incomplete)
  }

  function AbsorbCallees(own: Row, callees: seq<Id>, prior: Table, bound: nat): Row {
    if callees == [] then own
    else
      var before := AbsorbCallees(own, callees[..|callees| - 1], prior, bound);
      var last := callees[|callees| - 1];
      if last in prior then AbsorbCallee(before, prior[last], bound) else before
  }

  /** Every row from the same snapshot: no row sees another row of its own round. */
  function Round(g: Adjacency, t: Table, bound: nat): Table {
    map c | c in t :: AbsorbCallees(t[c], Ascending(Successors(g, c)), t, bound)
  }

  function Step(g: Adjacency, bound: nat): Table -> Table {
    t => Round(g, t, bound)
  }

  function Run(g: Adjacency, t: Table, bound: nat, maxIterations: nat): Outcome<Table>
    requires maxIterations >= 1
  {
    if |t| == 0 then Outcome(t, false, 0) else RunFrom(Step(g, bound), t, 1, maxIterations)
  }

  // What a round keeps.

  ghost predicate RowLe(a: Row, b: Row) {
    a.effects <= b.effects && a.resources <= b.resources && (a.incomplete ==> b.incomplete)
  }

  ghost predicate RowFits(r: Row, bound: nat) {
    |r.effects| <= bound && |r.resources| <= bound
  }

  /** Every row of the table over these callables holds at most `bound` effects and resources. */
  ghost predicate Fits(keys: set<Id>, t: Table, bound: nat) {
    t.Keys == keys && forall c :: c in t ==> RowFits(t[c], bound)
  }

  lemma AbsorbCalleeMeaning(own: Row, callee: Row, bound: nat)
    requires RowFits(own, bound) && RowFits(callee, bound)
    ensures var r := AbsorbCallee(own, callee, bound);
            && RowFits(r, bound) && RowLe(own, r)
            && r.effects <= own.effects + callee.effects
            && r.resources <= own.resources + callee.resources
            && (callee.incomplete ==> r.incomplete)
            && (!r.incomplete ==> RowLe(callee, r))
            && (|own.effects + callee.effects| <= bound && |own.resources + callee.resources| <= bound ==>
                  r == Row(own.effects + callee.effects, own.resources + callee.resources,
                           own.incomplete || callee.incomplete))
  {
    var effects := First(callee.effects, bound);
    var resources := First(callee.resources, bound);
    FirstMeaning(callee.effects, bound);
    FirstMeaning(callee.resources, bound);
    assert Elements(effects) == callee.effects;
    assert Elements(resources) == callee.resources;
    AbsorbMeaning(own.effects, effects, bound);
    AbsorbMeaning(own.resources, resources, bound);
  }

  /** A row absorbing callees stays within the bound, never shrinks, and ends complete only if it
      contains every callee's row and every callee's row is complete. */
  lemma {:induction false} AbsorbCalleesMeaning(own: Row, callees: seq<Id>, prior: Table, bound: nat)
    requires RowFits(own, bound) && Fits(prior.Keys, prior, bound)
    ensures RowFits(AbsorbCallees(own, callees, prior, bound), bound)
    ensures RowLe(own, AbsorbCallees(own, callees, prior, bound))
    ensures forall d :: d in callees && d in prior && !AbsorbCallees(own, callees, prior, bound).incomplete ==>
              RowLe(prior[d], AbsorbCallees(own, callees, prior, bound))
    decreases |callees|
  {
    if callees != [] {
      var last, front := callees[|callees| - 1], callees[..|callees| - 1];
      AbsorbCalleesMeaning(own, front, prior, bound);
      if last in prior {
        AbsorbCalleeMeaning(AbsorbCallees(own, front, prior, bound), prior[last], bound);
      }
      assert forall d :: d in callees ==> d == last || d in front;
    }
  }

  /** A row absorbing callees takes every value from itself or a callee. */
  lemma {:induction false} AbsorbCalleesWithin(
      own: Row, callees: seq<Id>, prior: Table, bound: nat, limit: Row)
    requires RowFits(own, bound) && Fits(prior.Keys, prior, bound)
    requires ValuesWithin(own, limit)
    requires forall d :: d in callees && d in prior ==> ValuesWithin(prior[d], limit)
    ensures ValuesWithin(AbsorbCallees(own, callees, prior, bound), limit)
    decreases |callees|
  {
    if callees != [] {
      var last, front := callees[|callees| - 1], callees[..|callees| - 1];
      assert forall d :: d in front ==> d in callees;
      AbsorbCalleesWithin(own, front, prior, bound, limit);
      AbsorbCalleesMeaning(own, front, prior, bound);
      assert last in callees;
      if last in prior {
        AbsorbCalleeMeaning(AbsorbCallees(own, front, prior, bound), prior[last], bound);
      }
    }
  }

  ghost predicate TableLe(a: Table, b: Table) {
    a.Keys == b.Keys && forall c :: c in a ==> RowLe(a[c], b[c])
  }

  lemma RoundMeaning(g: Adjacency, t: Table, bound: nat)
    requires Fits(t.Keys, t, bound)
    ensures Fits(t.Keys, Round(g, t, bound), bound) && TableLe(t, Round(g, t, bound))
  {
    forall c | c in t
      ensures RowFits(Round(g, t, bound)[c], bound) && RowLe(t[c], Round(g, t, bound)[c])
    {
      AbsorbCalleesMeaning(t[c], Ascending(Successors(g, c)), t, bound);
    }
  }

  lemma {:induction false} IterateMeaning(g: Adjacency, t: Table, bound: nat, k: nat)
    requires Fits(t.Keys, t, bound)
    ensures Fits(t.Keys, Iterate(Step(g, bound), t, k), bound)
    ensures TableLe(t, Iterate(Step(g, bound), t, k))
  {
    if k > 0 {
      IterateMeaning(g, t, bound, k - 1);
      RoundMeaning(g, Iterate(Step(g, bound), t, k - 1), bound);
    }
  }

  // Exactness of complete rows.

  /** Everything that the rows c reaches hold between them. */
  ghost function Reached(g: Adjacency, t: Table, c: Id): Row {
    Row(set d, e | d in t && Reaches(g, c, d) && e in t[d].effects :: e,
        set d, e | d in t && Reaches(g, c, d) && e in t[d].resources :: e,
        false)
  }

  ghost predicate ValuesWithin(r: Row, limit: Row) {
    r.effects <= limit.effects && r.resources <= limit.resources
  }

  lemma ReachedIncludes(g: Adjacency, t: Table, c: Id, d: Id)
    requires Reaches(g, c, d)
    ensures ValuesWithin(Reached(g, t, d), Reached(g, t, c))
    ensures d in t ==> ValuesWithin(t[d], Reached(g, t, c))
  {
    forall x | Reaches(g, d, x) ensures Reaches(g, c, x) { ReachesJoins(g, c, d, x); }
    if d in t {
      forall e | e in t[d].effects ensures e in Reached(g, t, c).effects {}
      forall e | e in t[d].resources ensures e in Reached(g, t, c).resources {}
    }
  }

  lemma ReachedLeast(g: Adjacency, t: Table, c: Id, r: Row)
    requires forall d :: Reaches(g, c, d) && d in t ==> ValuesWithin(t[d], r)
    ensures ValuesWithin(Reached(g, t, c), r)
  {
  }

  lemma RoundWithin(g: Adjacency, t: Table, bound: nat, c: Id, limit: Row)
    requires Fits(t.Keys, t, bound) && c in t && ValuesWithin(t[c], limit)
    requires forall d :: d in Successors(g, c) && d in t ==> ValuesWithin(t[d], limit)
    ensures ValuesWithin(Round(g, t, bound)[c], limit)
  {
    AscendingMeaning(Successors(g, c));
    AbsorbCalleesWithin(t[c], Ascending(Successors(g, c)), t, bound, limit);
  }

  /** No row of u holds a value that the rows it reaches do not hold in t. */
  ghost predicate Justified(g: Adjacency, t: Table, bound: nat, u: Table) {
    && Fits(g.Keys, u, bound)
    && forall c :: c in u ==> ValuesWithin(u[c], Reached(g, t, c))
  }

  lemma RoundJustified(g: Adjacency, t: Table, bound: nat, u: Table)
    requires Closed(g) && Justified(g, t, bound, u)
    ensures Justified(g, t, bound, Round(g, u, bound))
  {
    RoundMeaning(g, u, bound);
    forall c | c in g ensures ValuesWithin(Round(g, u, bound)[c], Reached(g, t, c)) {
      forall d | d in Successors(g, c) ensures ValuesWithin(u[d], Reached(g, t, c)) {
        ReachesEdge(g, c, d);
        ReachedIncludes(g, t, c, d);
      }
      RoundWithin(g, u, bound, c, Reached(g, t, c));
    }
  }

  lemma {:induction false} NothingInvented(g: Adjacency, t: Table, bound: nat, k: nat)
    requires Closed(g) && Fits(g.Keys, t, bound)
    ensures Justified(g, t, bound, Iterate(Step(g, bound), t, k))
  {
    if k == 0 {
      forall c | c in g ensures ValuesWithin(t[c], Reached(g, t, c)) {
        ReachesSelf(g, c);
        ReachedIncludes(g, t, c, c);
      }
    } else {
      NothingInvented(g, t, bound, k - 1);
      RoundJustified(g, t, bound, Iterate(Step(g, bound), t, k - 1));
    }
  }

  /** At a fixed point, a row that reaches only complete rows contains all of them. */
  lemma {:induction false} CompleteRowsInclude(g: Adjacency, t: Table, bound: nat, c: Id, d: Id, k: nat)
    requires Closed(g) && Fits(g.Keys, t, bound) && Round(g, t, bound) == t && c in g
    requires forall x :: Reaches(g, c, x) && x in t ==> !t[x].incomplete
    requires Within(g, c, d, k)
    ensures d in g && RowLe(t[d], t[c])
    decreases k
  {
    if c != d {
      var x :| x in Successors(g, c) && Within(g, x, d, k - 1);
      forall y | Reaches(g, x, y) ensures Reaches(g, c, y) {
        ReachesEdge(g, c, x);
        ReachesJoins(g, c, x, y);
      }
      CompleteRowsInclude(g, t, bound, x, d, k - 1);
      ReachesSelf(g, c);
      AscendingMeaning(Successors(g, c));
      AbsorbCalleesMeaning(t[c], Ascending(Successors(g, c)), t, bound);
      assert t[c] == Round(g, t, bound)[c];
    }
  }

  /** Row c of a finished run is complete when the run converged and c reaches no incomplete row. */
  ghost predicate CompleteIn(g: Adjacency, o: Outcome<Table>, c: Id) {
    !o.exhausted && forall d :: Reaches(g, c, d) && d in o.table ==> !o.table[d].incomplete
  }

  ghost function CompleteRows(g: Adjacency, o: Outcome<Table>): set<Id> {
    set c | c in g && CompleteIn(g, o, c)
  }

  lemma RunFixed(g: Adjacency, t: Table, bound: nat, maxIterations: nat)
    requires Fits(t.Keys, t, bound) && maxIterations >= 1
    ensures var o := Run(g, t, bound, maxIterations);
            && o.table == Iterate(Step(g, bound), t, o.iterations)
            && Fits(t.Keys, o.table, bound) && TableLe(t, o.table)
            && (!o.exhausted ==> Round(g, o.table, bound) == o.table)
  {
    if |t| == 0 {
      assert Round(g, t, bound) == t;
    } else {
      RunMeaning(Step(g, bound), t, maxIterations);
    }
    IterateMeaning(g, t, bound, Run(g, t, bound, maxIterations).iterations);
  }

  lemma AllCompleteRowsInclude(g: Adjacency, u: Table, bound: nat, c: Id)
    requires Closed(g) && Fits(g.Keys, u, bound) && Round(g, u, bound) == u && c in g
    requires forall d :: Reaches(g, c, d) && d in u ==> !u[d].incomplete
    ensures forall d :: Reaches(g, c, d) ==> d in g && RowLe(u[d], u[c])
  {
    forall d | Reaches(g, c, d) ensures d in g && RowLe(u[d], u[c]) {
      var k: nat :| Within(g, c, d, k);
      CompleteRowsInclude(g, u, bound, c, d, k);
    }
  }

  lemma InclusiveRowsExact(g: Adjacency, t: Table, bound: nat, u: Table, c: Id)
    requires Justified(g, t, bound, u) && TableLe(t, u) && c in u
    requires forall d :: Reaches(g, c, d) ==> d in u && RowLe(u[d], u[c])
    ensures u[c].effects == Reached(g, t, c).effects && u[c].resources == Reached(g, t, c).resources
  {
    forall d | Reaches(g, c, d) ensures d in t && ValuesWithin(t[d], u[c]) {
      assert RowLe(t[d], u[d]);
    }
    ReachedLeast(g, t, c, u[c]);
    SameValues(u[c], Reached(g, t, c));
  }

  lemma SameValues(a: Row, b: Row)
    requires ValuesWithin(a, b) && ValuesWithin(b, a)
    ensures a.effects == b.effects && a.resources == b.resources
  {
  }

  /** A complete row is exactly the union of the seeds of everything it reaches, none of which was
      seeded incomplete. */
  lemma ExactRows(g: Adjacency, t: Table, bound: nat, maxIterations: nat, c: Id)
    requires Closed(g) && Fits(g.Keys, t, bound) && maxIterations >= 1 && c in g
    requires CompleteIn(g, Run(g, t, bound, maxIterations), c)
    ensures c in Run(g, t, bound, maxIterations).table
    ensures var r := Run(g, t, bound, maxIterations).table[c];
            r.effects == Reached(g, t, c).effects && r.resources == Reached(g, t, c).resources
    ensures forall d :: Reaches(g, c, d) ==> d in t && !t[d].incomplete
  {
    var o := Run(g, t, bound, maxIterations);
    RunFixed(g, t, bound, maxIterations);
    NothingInvented(g, t, bound, o.iterations);
    AllCompleteRowsInclude(g, o.table, bound, c);
    InclusiveRowsExact(g, t, bound, o.table, c);
    forall d | Reaches(g, c, d) ensures d in t && !t[d].incomplete {
      assert RowLe(t[d], o.table[d]);
    }
  }
}
