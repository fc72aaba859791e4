/** How fast summaries settle, and which rows a local change can move. */
module SummaryConvergence {
  import opened Prelude
  import opened Digraph
  import opened FixedPoint
  import opened CallSummaries

  // Without truncation, rounds count call edges.

  /** Unbounded version of AbsorbCallees. */
  ghost function Joined(own: Row, callees: seq<Id>, prior: Table): Row {
    if callees == [] then own
    else
      var before := Joined(own, callees[..|callees| - 1], prior);
      var last := callees[|callees| - 1];
      if last in prior then
        Row(before.effects + prior[last].effects, before.resources + prior[last].resources,
            before.incomplete || prior[last].incomplete)
      else before
  }

  lemma {:induction false} UntruncatedIsJoined(own: Row, callees: seq<Id>, prior: Table, bound: nat, limit: Row)
    requires RowFits(limit, bound) && ValuesWithin(own, limit)
    requires forall d :: d in callees && d in prior ==> ValuesWithin(prior[d], limit)
    ensures AbsorbCallees(own, callees, prior, bound) == Joined(own, callees, prior)
    ensures ValuesWithin(Joined(own, callees, prior), limit)
    decreases |callees|
  {
    if callees != [] {
      var last, front := callees[|callees| - 1], callees[..|callees| - 1];
      assert last in callees && forall d :: d in front ==> d in callees;
      UntruncatedIsJoined(own, front, prior, bound, limit);
      if last in prior {
        UntruncatedCallee(Joined(own, front, prior), prior[last], bound, limit);
      }
    }
  }

  lemma UntruncatedCallee(own: Row, callee: Row, bound: nat, limit: Row)
    requires RowFits(limit, bound) && ValuesWithin(own, limit) && ValuesWithin(callee, limit)
    ensures AbsorbCallee(own, callee, bound) ==
            Row(own.effects + callee.effects, own.resources + callee.resources,
                own.incomplete || callee.incomplete)
  {
    Proper(own.effects, limit.effects);
    Proper(own.resources, limit.resources);
    Proper(callee.effects, limit.effects);
    Proper(callee.resources, limit.resources);
    Proper(own.effects + callee.effects, limit.effects);
    Proper(own.resources + callee.resources, limit.resources);
    AbsorbCalleeMeaning(own, callee, bound);
  }

  /** The row that holds exactly the seeds at most k call edges away from c. */
  ghost function SeedsWithin(g: Adjacency, t: Table, c: Id, k: nat): Row {
    Row(set d, e | d in t && Within(g, c, d, k) && e in t[d].effects :: e,
        set d, e | d in t && Within(g, c, d, k) && e in t[d].resources :: e,
        exists d :: d in t && Within(g, c, d, k) && t[d].incomplete)
  }

  lemma SeedsWithinZero(g: Adjacency, t: Table, c: Id)
    requires c in t
    ensures SeedsWithin(g, t, c, 0) == t[c]
  {
    assert Within(g, c, c, 0);
    SeedsWithinMembers(g, t, c, c, 0);
    SeedsWithinLeast(g, t, c, 0, t[c]);
    RowAntisymmetric(t[c], SeedsWithin(g, t, c, 0));
  }

  lemma SeedsWithinMembers(g: Adjacency, t: Table, c: Id, d: Id, k: nat)
    requires d in t && Within(g, c, d, k)
    ensures RowLe(t[d], SeedsWithin(g, t, c, k))
  {
    var r := SeedsWithin(g, t, c, k);
    forall e | e in t[d].effects ensures e in r.effects {}
    forall e | e in t[d].resources ensures e in r.resources {}
  }

  lemma SeedsWithinLeast(g: Adjacency, t: Table, c: Id, k: nat, r: Row)
    requires forall d :: d in t && Within(g, c, d, k) ==> RowLe(t[d], r)
    ensures RowLe(SeedsWithin(g, t, c, k), r)
  {
  }

  lemma SeedsWithinGrow(g: Adjacency, t: Table, c: Id, j: nat, k: nat)
    requires j <= k
    ensures RowLe(SeedsWithin(g, t, c, j), SeedsWithin(g, t, c, k))
  {
    forall d | d in t && Within(g, c, d, j) ensures RowLe(t[d], SeedsWithin(g, t, c, k)) {
      WithinGrows(g, c, d, j, k);
      SeedsWithinMembers(g, t, c, d, k);
    }
    SeedsWithinLeast(g, t, c, j, SeedsWithin(g, t, c, k));
  }

  lemma SeedsWithinStep(g: Adjacency, t: Table, c: Id, x: Id, k: nat)
    requires x in Successors(g, c)
    ensures RowLe(SeedsWithin(g, t, x, k), SeedsWithin(g, t, c, k + 1))
  {
    forall d | d in t && Within(g, x, d, k) ensures RowLe(t[d], SeedsWithin(g, t, c, k + 1)) {
      assert Within(g, c, d, k + 1);
      SeedsWithinMembers(g, t, c, d, k + 1);
    }
    SeedsWithinLeast(g, t, x, k, SeedsWithin(g, t, c, k + 1));
  }

  lemma {:induction false} JoinedBelow(own: Row, callees: seq<Id>, prior: Table, r: Row)
    requires RowLe(own, r) && forall d :: d in callees && d in prior ==> RowLe(prior[d], r)
    ensures RowLe(Joined(own, callees, prior), r)
    decreases |callees|
  {
    if callees != [] {
      var front := callees[..|callees| - 1];
      assert callees[|callees| - 1] in callees && forall d :: d in front ==> d in callees;
      JoinedBelow(own, front, prior, r);
    }
  }

  lemma {:induction false} JoinedAbove(own: Row, callees: seq<Id>, prior: Table)
    ensures RowLe(own, Joined(own, callees, prior))
    ensures forall d :: d in callees && d in prior ==> RowLe(prior[d], Joined(own, callees, prior))
    decreases |callees|
  {
    if callees != [] {
      var last, front := callees[|callees| - 1], callees[..|callees| - 1];
      JoinedAbove(own, front, prior);
      assert forall d :: d in callees ==> d == last || d in front;
    }
  }

  /** Joining the k-edge rows of c and its callees gives the (k+1)-edge row of c. */
  lemma JoinedSeeds(g: Adjacency, t: Table, u: Table, c: Id, k: nat)
    requires u.Keys == t.Keys && c in u && Successors(g, c) <= t.Keys
    requires forall x :: x == c || x in Successors(g, c) ==> u[x] == SeedsWithin(g, t, x, k)
    ensures Joined(u[c], Ascending(Successors(g, c)), u) == SeedsWithin(g, t, c, k + 1)
  {
    var callees := Ascending(Successors(g, c));
    AscendingMeaning(Successors(g, c));
    var joined, wider := Joined(u[c], callees, u), SeedsWithin(g, t, c, k + 1);
    SeedsWithinGrow(g, t, c, k, k + 1);
    forall x | x in callees && x in u ensures RowLe(u[x], wider) { SeedsWithinStep(g, t, c, x, k); }
    JoinedBelow(u[c], callees, u, wider);
    JoinedAbove(u[c], callees, u);
    forall d | d in t && Within(g, c, d, k + 1) ensures RowLe(t[d], joined) {
      if c == d {
        assert Within(g, c, c, k);
        SeedsWithinMembers(g, t, c, c, k);
      } else {
        var x :| x in Successors(g, c) && Within(g, x, d, k);
        SeedsWithinMembers(g, t, x, d, k);
        assert x in callees;
      }
    }
    SeedsWithinLeast(g, t, c, k + 1, joined);
    RowAntisymmetric(joined, wider);
  }

  lemma RowAntisymmetric(a: Row, b: Row)
    requires RowLe(a, b) && RowLe(b, a)
    ensures a == b
  {
  }

  /** Everything that c reaches holds exactly the seeds at most k call edges away from itself. */
  ghost predicate CountsBelow(g: Adjacency, t: Table, u: Table, c: Id, k: nat) {
    u.Keys == t.Keys && forall d :: d in u && Reaches(g, c, d) ==> u[d] == SeedsWithin(g, t, d, k)
  }

  lemma WithinReached(g: Adjacency, t: Table, c: Id, d: Id, k: nat)
    requires Reaches(g, c, d)
    ensures ValuesWithin(SeedsWithin(g, t, d, k), Reached(g, t, c))
  {
    forall x | x in t && Within(g, d, x, k) ensures RowLe(t[x], Reached(g, t, c).(incomplete := true)) {
      ReachesJoins(g, c, d, x);
      ReachedIncludes(g, t, c, x);
    }
    SeedsWithinLeast(g, t, d, k, Reached(g, t, c).(incomplete := true));
  }

  lemma RoundCountsBelow(g: Adjacency, t: Table, bound: nat, u: Table, c: Id, k: nat)
    requires Closed(g) && t.Keys == g.Keys && RowFits(Reached(g, t, c), bound) && CountsBelow(g, t, u, c, k)
    ensures CountsBelow(g, t, Round(g, u, bound), c, k + 1)
  {
    hide Reaches, Reached, SeedsWithin, AbsorbCallees, Joined;
    forall d | d in u && Reaches(g, c, d) ensures Round(g, u, bound)[d] == SeedsWithin(g, t, d, k + 1) {
      var callees := Ascending(Successors(g, d));
      AscendingMeaning(Successors(g, d));
      forall x | x == d || x in callees
        ensures u[x] == SeedsWithin(g, t, x, k) && ValuesWithin(u[x], Reached(g, t, c))
      {
        if x != d {
          ReachesEdge(g, d, x);
          ReachesJoins(g, c, d, x);
        }
        WithinReached(g, t, c, x, k);
      }
      UntruncatedIsJoined(u[d], callees, u, bound, Reached(g, t, c));
      JoinedSeeds(g, t, u, d, k);
    }
  }

  lemma {:induction false} AllCountEdges(g: Adjacency, t: Table, bound: nat, c: Id, k: nat)
    requires Closed(g) && t.Keys == g.Keys && RowFits(Reached(g, t, c), bound)
    ensures CountsBelow(g, t, Iterate(Step(g, bound), t, k), c, k)
  {
    hide Reaches, Reached, SeedsWithin, Round;
    if k == 0 {
      forall d | d in t ensures t[d] == SeedsWithin(g, t, d, 0) { SeedsWithinZero(g, t, d); }
    } else {
      AllCountEdges(g, t, bound, c, k - 1);
      RoundCountsBelow(g, t, bound, Iterate(Step(g, bound), t, k - 1), c, k - 1);
    }
  }

  /** If all that c reaches fits into one row, then after k rounds row c holds exactly the seeds within k call edges. */
  lemma RoundsCountEdges(g: Adjacency, t: Table, bound: nat, c: Id, k: nat)
    requires Closed(g) && t.Keys == g.Keys && RowFits(Reached(g, t, c), bound) && c in g
    ensures c in Iterate(Step(g, bound), t, k)
    ensures Iterate(Step(g, bound), t, k)[c] == SeedsWithin(g, t, c, k)
  {
    ReachesSelf(g, c);
    AllCountEdges(g, t, bound, c, k);
  }

  // With truncation, too, no change travels further than a simple call chain.

  /** One of the two value sets of a row. */
  function Values(r: Row, effects: bool): set<Id> {
    if effects then r.effects else r.resources
  }

  /** What is refused is left out of a full summary. */
  lemma {:induction false} RefusesWhenFull(summary: set<Id>, values: seq<Id>, bound: nat)
    requires |summary| <= bound && Refuses(summary, values, bound)
    ensures |Absorb(summary, values, bound)| == bound && !(Elements(values) <= Absorb(summary, values, bound))
    decreases |values|
  {
    AbsorbMeaning(summary, values, bound);
    Proper(Absorb(summary, values, bound), summary + Elements(values));
    if values[0] in summary {
      RefusesWhenFull(summary, values[1..], bound);
    } else if |summary| == bound {
      Proper(summary, Absorb(summary, values, bound));
    } else {
      RefusesWhenFull(summary + {values[0]}, values[1..], bound);
    }
  }

  /** The row holds all these values, or is full. */
  ghost predicate HoldsOrFull(r: Row, values: Row, effects: bool, bound: nat) {
    Values(values, effects) <= Values(r, effects) || |Values(r, effects)| == bound
  }

  lemma GrownHolds(r: Row, s: Row, values: Row, effects: bool, bound: nat)
    requires RowLe(r, s) && RowFits(s, bound) && HoldsOrFull(r, values, effects, bound)
    ensures HoldsOrFull(s, values, effects, bound)
  {
    Proper(Values(r, effects), Values(s, effects));
  }

  lemma CalleeHeldOrFull(own: Row, callee: Row, effects: bool, bound: nat)
    requires RowFits(own, bound) && RowFits(callee, bound)
    ensures HoldsOrFull(AbsorbCallee(own, callee, bound), callee, effects, bound)
  {
    var values := First(Values(callee, effects), bound);
    FirstMeaning(Values(callee, effects), bound);
    assert Elements(values) == Values(callee, effects);
    AbsorbMeaning(Values(own, effects), values, bound);
    if Refuses(Values(own, effects), values, bound) { RefusesWhenFull(Values(own, effects), values, bound); }
  }

  /** What a callee offers is taken, unless the row is full. */
  lemma {:induction false} CalleesHeldOrFull(own: Row, callees: seq<Id>, prior: Table, bound: nat, d: Id, effects: bool)
    requires RowFits(own, bound) && Fits(prior.Keys, prior, bound) && d in callees && d in prior
    ensures HoldsOrFull(AbsorbCallees(own, callees, prior, bound), prior[d], effects, bound)
    decreases |callees|
  {
    var last, front := callees[|callees| - 1], callees[..|callees| - 1];
    var before := AbsorbCallees(own, front, prior, bound);
    AbsorbCalleesMeaning(own, front, prior, bound);
    if last in prior { AbsorbCalleeMeaning(before, prior[last], bound); }
    if d == last {
      CalleeHeldOrFull(before, prior[d], effects, bound);
    } else {
      assert d in front;
      CalleesHeldOrFull(own, front, prior, bound, d, effects);
      GrownHolds(before, AbsorbCallees(own, callees, prior, bound), prior[d], effects, bound);
    }
  }

  /** The callee is incomplete, or holds a value that the full row lacks. */
  ghost predicate Spoils(callee: Row, r: Row, bound: nat) {
    || callee.incomplete
    || !(callee.effects <= r.effects || |r.effects| < bound)
    || !(callee.resources <= r.resources || |r.resources| < bound)
  }

  lemma SpoilsForGood(callee: Row, r: Row, s: Row, bound: nat)
    requires Spoils(callee, r, bound) && RowLe(r, s) && RowFits(r, bound) && RowFits(s, bound)
    ensures Spoils(callee, s, bound)
  {
    Proper(r.effects, s.effects);
    Proper(r.resources, s.resources);
  }

  lemma CalleeSpoils(own: Row, callee: Row, bound: nat)
    requires RowFits(own, bound) && RowFits(callee, bound) && !own.incomplete
    requires AbsorbCallee(own, callee, bound).incomplete
    ensures Spoils(callee, AbsorbCallee(own, callee, bound), bound)
  {
    var effects, resources := First(callee.effects, bound), First(callee.resources, bound);
    FirstMeaning(callee.effects, bound);
    FirstMeaning(callee.resources, bound);
    assert Elements(effects) == callee.effects && Elements(resources) == callee.resources;
    if Refuses(own.effects, effects, bound) { RefusesWhenFull(own.effects, effects, bound); }
    if Refuses(own.resources, resources, bound) { RefusesWhenFull(own.resources, resources, bound); }
  }

  /** A row becomes incomplete only through some callee. */
  lemma {:induction false} SomeCalleeSpoils(own: Row, callees: seq<Id>, prior: Table, bound: nat) returns (d: Id)
    requires RowFits(own, bound) && Fits(prior.Keys, prior, bound) && !own.incomplete
    requires AbsorbCallees(own, callees, prior, bound).incomplete
    ensures d in callees && d in prior && Spoils(prior[d], AbsorbCallees(own, callees, prior, bound), bound)
    decreases |callees|
  {
    var last, front := callees[|callees| - 1], callees[..|callees| - 1];
    var before, r := AbsorbCallees(own, front, prior, bound), AbsorbCallees(own, callees, prior, bound);
    AbsorbCalleesMeaning(own, front, prior, bound);
    if last in prior { AbsorbCalleeMeaning(before, prior[last], bound); }
    if before.incomplete {
      d := SomeCalleeSpoils(own, front, prior, bound);
      SpoilsForGood(prior[d], before, r, bound);
    } else {
      d := last;
      CalleeSpoils(before, prior[last], bound);
    }
  }

  // One round.

  lemma ValueFromCallee(g: Adjacency, u: Table, bound: nat, c: Id, effects: bool, v: Id) returns (d: Id)
    requires Fits(u.Keys, u, bound) && c in u
    requires v !in Values(u[c], effects) && v in Values(Round(g, u, bound)[c], effects)
    ensures d in Successors(g, c) && d in u && v in Values(u[d], effects)
  {
    hide Round;
    var around := set x | x in Successors(g, c) && x in u;
    var limit := Row(u[c].effects + set x, e | x in around && e in u[x].effects :: e,
                     u[c].resources + set x, e | x in around && e in u[x].resources :: e, false);
    forall x | x in Successors(g, c) && x in u ensures ValuesWithin(u[x], limit) {
      assert x in around;
    }
    RoundWithin(g, u, bound, c, limit);
    d :| d in around && v in Values(u[d], effects);
  }

  /** A value that a callee has held for a round is in the row by now, or never gets there. */
  lemma OldOfferIsSettled(g: Adjacency, u: Table, bound: nat, c: Id, d: Id, effects: bool, v: Id)
    requires Fits(u.Keys, u, bound) && c in u && d in u && d in Successors(g, c) && v in Values(u[d], effects)
    ensures var w := Round(g, u, bound);
            v in Values(w[c], effects) || v !in Values(Round(g, w, bound)[c], effects)
  {
    var w, callees := Round(g, u, bound), Ascending(Successors(g, c));
    RoundMeaning(g, u, bound);
    RoundMeaning(g, w, bound);
    AscendingMeaning(Successors(g, c));
    CalleesHeldOrFull(u[c], callees, u, bound, d, effects);
    assert w[c] == AbsorbCallees(u[c], callees, u, bound);
    hide Round, AbsorbCallees;
    Proper(Values(w[c], effects), Values(Round(g, w, bound)[c], effects));
  }

  /** A row becomes incomplete through a callee that is, or that holds a value the row does not get. */
  lemma MarkFromCallee(g: Adjacency, u: Table, bound: nat, c: Id) returns (d: Id, effects: bool, v: Id)
    requires Fits(u.Keys, u, bound) && c in u && !u[c].incomplete && Round(g, u, bound)[c].incomplete
    ensures d in Successors(g, c) && d in u
    ensures u[d].incomplete || (v in Values(u[d], effects) && v !in Values(Round(g, u, bound)[c], effects))
  {
    AscendingMeaning(Successors(g, c));
    d := SomeCalleeSpoils(u[c], Ascending(Successors(g, c)), u, bound);
    var r := Round(g, u, bound)[c];
    hide Round, AbsorbCallees;
    effects, v := !(u[d].effects <= r.effects), d;
    if !u[d].incomplete {
      assert !(Values(u[d], effects) <= Values(r, effects));
      v :| v in Values(u[d], effects) && v !in Values(r, effects);
    }
  }

  /** A complete row holds what its callees held a round ago, and they were complete. */
  lemma CompleteRowHolds(g: Adjacency, u: Table, bound: nat, c: Id, d: Id)
    requires Fits(u.Keys, u, bound) && c in u && d in u && d in Successors(g, c) && !Round(g, u, bound)[c].incomplete
    ensures RowLe(u[d], Round(g, u, bound)[c])
  {
    AscendingMeaning(Successors(g, c));
    AbsorbCalleesMeaning(u[c], Ascending(Successors(g, c)), u, bound);
  }

  // Whole chains.

  ghost function After(g: Adjacency, t: Table, bound: nat, k: nat): (u: Table)
    requires Fits(g.Keys, t, bound)
    ensures Fits(g.Keys, u, bound) && TableLe(t, u)
  {
    IterateMeaning(g, t, bound, k);
    Iterate(Step(g, bound), t, k)
  }

  lemma Later(g: Adjacency, t: Table, bound: nat, k: nat)
    requires Fits(g.Keys, t, bound)
    ensures After(g, t, bound, k + 1) == Round(g, After(g, t, bound, k), bound)
    ensures TableLe(After(g, t, bound, k), After(g, t, bound, k + 1))
  {
    RoundMeaning(g, After(g, t, bound, k), bound);
  }

  /** The value is in row c after k rounds, and was not before. */
  ghost predicate NewValue(g: Adjacency, t: Table, bound: nat, k: nat, c: Id, effects: bool, v: Id)
    requires Fits(g.Keys, t, bound) && c in g
  {
    && v in Values(After(g, t, bound, k)[c], effects)
    && (k > 0 ==> v !in Values(After(g, t, bound, k - 1)[c], effects))
  }

  ghost predicate NewMark(g: Adjacency, t: Table, bound: nat, k: nat, c: Id)
    requires Fits(g.Keys, t, bound) && c in g
  {
    After(g, t, bound, k)[c].incomplete && (k > 0 ==> !After(g, t, bound, k - 1)[c].incomplete)
  }

  lemma NewValueStep(g: Adjacency, t: Table, bound: nat, k: nat, c: Id, effects: bool, v: Id) returns (d: Id)
    requires Fits(g.Keys, t, bound) && c in g && k > 0 && NewValue(g, t, bound, k, c, effects, v)
    ensures d in Successors(g, c) && d in g && NewValue(g, t, bound, k - 1, d, effects, v)
  {
    hide After, Round;
    var u := After(g, t, bound, k - 1);
    Later(g, t, bound, k - 1);
    d := ValueFromCallee(g, u, bound, c, effects, v);
    if k > 1 {
      Later(g, t, bound, k - 2);
      if v in Values(After(g, t, bound, k - 2)[d], effects) {
        OldOfferIsSettled(g, After(g, t, bound, k - 2), bound, c, d, effects, v);
      }
    }
  }

  lemma NewMarkStep(g: Adjacency, t: Table, bound: nat, k: nat, c: Id) returns (d: Id, effects: bool, v: Id)
    requires Fits(g.Keys, t, bound) && c in g && k > 0 && NewMark(g, t, bound, k, c)
    ensures d in Successors(g, c) && d in g
    ensures NewMark(g, t, bound, k - 1, d) || NewValue(g, t, bound, k - 1, d, effects, v)
  {
    hide After, Round;
    var u := After(g, t, bound, k - 1);
    Later(g, t, bound, k - 1);
    d, effects, v := MarkFromCallee(g, u, bound, c);
    if k > 1 {
      Later(g, t, bound, k - 2);
      CompleteRowHolds(g, After(g, t, bound, k - 2), bound, c, d);
      assert RowLe(u[c], After(g, t, bound, k)[c]);
    }
  }

  /** k + 1 callables on a call chain from c. */
  ghost predicate Chain(g: Adjacency, c: Id, k: nat, s: set<Id>) {
    s <= g.Keys && |s| == k + 1 && forall x :: x in s ==> Reaches(g, c, x)
  }

  lemma LongerChain(g: Adjacency, c: Id, d: Id, k: nat, s: set<Id>)
    requires c in g && d in Successors(g, c) && Chain(g, d, k, s) && c !in s
    ensures Chain(g, c, k + 1, s + {c})
  {
    ReachesSelf(g, c);
    ReachesEdge(g, c, d);
    forall x | x in s ensures Reaches(g, c, x) { ReachesJoins(g, c, d, x); }
  }

  ghost predicate AllHold(u: Table, s: set<Id>, effects: bool, v: Id) {
    forall x :: x in s ==> x in u && v in Values(u[x], effects)
  }

  lemma AllStillHold(u: Table, w: Table, s: set<Id>, c: Id, effects: bool, v: Id)
    requires TableLe(u, w) && AllHold(u, s, effects, v) && c in w && v in Values(w[c], effects)
    ensures AllHold(w, s + {c}, effects, v)
  {
    forall x | x in s ensures v in Values(w[x], effects) { assert RowLe(u[x], w[x]); }
  }

  /** A value that is new after k rounds has come along k calls, through callables that all hold it. */
  lemma {:induction false} ValueChain(g: Adjacency, t: Table, bound: nat, k: nat, c: Id, effects: bool, v: Id)
    returns (s: set<Id>)
    requires Fits(g.Keys, t, bound) && c in g && NewValue(g, t, bound, k, c, effects, v)
    ensures Chain(g, c, k, s) && AllHold(After(g, t, bound, k), s, effects, v)
    decreases k
  {
    hide After, Reaches;
    if k == 0 {
      ReachesSelf(g, c);
      s := {c};
    } else {
      var d := NewValueStep(g, t, bound, k, c, effects, v);
      var rest := ValueChain(g, t, bound, k - 1, d, effects, v);
      LongerChain(g, c, d, k - 1, rest);
      Later(g, t, bound, k - 1);
      AllStillHold(After(g, t, bound, k - 1), After(g, t, bound, k), rest, c, effects, v);
      s := rest + {c};
    }
  }

  /** Every recursive callable is incomplete from the start. */
  ghost predicate RecursionMarked(g: Adjacency, t: Table) {
    forall c :: c in g && c in t && Recursive(g, c) ==> t[c].incomplete
  }

  /** A mark that is new after k rounds has come along k calls, first as a value and then as a mark. */
  lemma {:induction false} MarkChain(g: Adjacency, t: Table, bound: nat, k: nat, c: Id) returns (s: set<Id>)
    requires Fits(g.Keys, t, bound) && RecursionMarked(g, t) && c in g && NewMark(g, t, bound, k, c)
    ensures Chain(g, c, k, s)
    decreases k
  {
    hide After, Reaches, NewValue;
    if k == 0 {
      ReachesSelf(g, c);
      s := {c};
    } else {
      var d, effects, v := NewMarkStep(g, t, bound, k, c);
      var rest;
      if NewMark(g, t, bound, k - 1, d) {
        rest := MarkChain(g, t, bound, k - 1, d);
      } else {
        rest := ValueChain(g, t, bound, k - 1, d, effects, v);
      }
      assert RowLe(t[c], After(g, t, bound, k - 1)[c]);
      assert !Recursive(g, c);
      LongerChain(g, c, d, k - 1, rest);
      s := rest + {c};
    }
  }

  /** So a round that still changes something is no later than the callables are many. */
  lemma ChangesEnd(g: Adjacency, t: Table, bound: nat, k: nat)
    requires Fits(g.Keys, t, bound) && RecursionMarked(g, t) && k > 0
    requires After(g, t, bound, k) != After(g, t, bound, k - 1)
    ensures k < |g.Keys|
  {
    hide After, RecursionMarked, Reaches, Round;
    var u, w := After(g, t, bound, k - 1), After(g, t, bound, k);
    Later(g, t, bound, k - 1);
    var c :| c in u && u[c] != w[c];
    assert RowLe(u[c], w[c]);
    var s;
    if !u[c].incomplete && w[c].incomplete {
      s := MarkChain(g, t, bound, k, c);
    } else {
      var effects := u[c].effects != w[c].effects;
      assert Values(u[c], effects) != Values(w[c], effects);
      var v :| v in Values(w[c], effects) && v !in Values(u[c], effects);
      s := ValueChain(g, t, bound, k, c, effects, v);
    }
    Proper(s, g.Keys);
  }

  /** As many iterations as there are callables always suffice, whatever is truncated, if recursion is marked. */
  lemma EnoughIterations(g: Adjacency, t: Table, bound: nat, maxIterations: nat)
    requires Fits(g.Keys, t, bound) && RecursionMarked(g, t)
    requires maxIterations >= 1 && maxIterations >= |g|
    ensures !Run(g, t, bound, maxIterations).exhausted && Run(g, t, bound, maxIterations).iterations <= |g|
    ensures g != map[] ==> Run(g, t, bound, maxIterations).iterations >= 1
  {
    hide RecursionMarked, Round;
    assert |g.Keys| == |g| && |t.Keys| == |t|;
    if |g| > 0 {
      if After(g, t, bound, |g|) != After(g, t, bound, |g| - 1) { ChangesEnd(g, t, bound, |g|); }
      StopsBy(Step(g, bound), t, |g|, maxIterations);
    }
  }

  // When rows end complete.

  lemma UnmarkedWithin(g: Adjacency, t: Table, c: Id, d: Id, k: nat)
    requires Reaches(g, c, d) && forall x :: Reaches(g, c, x) && x in t ==> !t[x].incomplete
    ensures !SeedsWithin(g, t, d, k).incomplete
  {
    forall x | x in t && Within(g, d, x, k) ensures !t[x].incomplete { ReachesJoins(g, c, d, x); }
  }

  /** With that many iterations, a row ends complete exactly when it reaches no row that was seeded incomplete and all
      that it reaches fits into one row. */
  lemma CompleteIffReachedFits(g: Adjacency, t: Table, bound: nat, maxIterations: nat, c: Id)
    requires Closed(g) && Fits(g.Keys, t, bound) && RecursionMarked(g, t) && c in g
    requires maxIterations >= 1 && maxIterations >= |g|
    ensures CompleteIn(g, Run(g, t, bound, maxIterations), c) <==>
            && (forall d :: Reaches(g, c, d) && d in t ==> !t[d].incomplete)
            && RowFits(Reached(g, t, c), bound)
  {
    hide Reaches, Run, Reached, RecursionMarked;
    var o := Run(g, t, bound, maxIterations);
    EnoughIterations(g, t, bound, maxIterations);
    RunFixed(g, t, bound, maxIterations);
    if CompleteIn(g, o, c) {
      ExactRows(g, t, bound, maxIterations, c);
      assert RowFits(o.table[c], bound);
    } else if (forall d :: Reaches(g, c, d) && d in t ==> !t[d].incomplete) && RowFits(Reached(g, t, c), bound) {
      AllCountEdges(g, t, bound, c, o.iterations);
      forall d | Reaches(g, c, d) && d in o.table ensures !o.table[d].incomplete {
        UnmarkedWithin(g, t, c, d, o.iterations);
      }
    }
  }

  // Which rows a local change can move.

  ghost predicate SameRow(t: Table, u: Table, c: Id) {
    (c in t <==> c in u) && (c in t ==> t[c] == u[c])
  }

  /** The tables agree on every callable that does not reach x. */
  ghost predicate AgreeOffCallersOf(g: Adjacency, x: Id, t: Table, u: Table) {
    forall c :: !Reaches(g, c, x) ==> SameRow(t, u, c)
  }

  lemma {:induction false} AbsorbCalleesLocal(own: Row, callees: seq<Id>, t: Table, u: Table, bound: nat)
    requires forall d :: d in callees ==> SameRow(t, u, d)
    ensures AbsorbCallees(own, callees, t, bound) == AbsorbCallees(own, callees, u, bound)
    decreases |callees|
  {
    if callees != [] {
      var last, front := callees[|callees| - 1], callees[..|callees| - 1];
      assert last in callees && forall d :: d in front ==> d in callees;
      AbsorbCalleesLocal(own, front, t, u, bound);
      assert SameRow(t, u, last);
    }
  }

  lemma RoundAgrees(g: Adjacency, x: Id, t: Table, u: Table, bound: nat)
    requires AgreeOffCallersOf(g, x, t, u)
    ensures AgreeOffCallersOf(g, x, Round(g, t, bound), Round(g, u, bound))
  {
    forall c | !Reaches(g, c, x) ensures SameRow(Round(g, t, bound), Round(g, u, bound), c) {
      assert SameRow(t, u, c);
      if c in t {
        forall d | d in Successors(g, c) ensures SameRow(t, u, d) {
          if Reaches(g, d, x) {
            ReachesEdge(g, c, d);
            ReachesJoins(g, c, d, x);
            assert false;
          }
        }
        AscendingMeaning(Successors(g, c));
        AbsorbCalleesLocal(t[c], Ascending(Successors(g, c)), t, u, bound);
      }
    }
  }

  lemma {:induction false} IterateAgrees(g: Adjacency, x: Id, t: Table, u: Table, bound: nat, k: nat)
    requires AgreeOffCallersOf(g, x, t, u)
    ensures AgreeOffCallersOf(g, x, Iterate(Step(g, bound), t, k), Iterate(Step(g, bound), u, k))
  {
    if k > 0 {
      IterateAgrees(g, x, t, u, bound, k - 1);
      RoundAgrees(g, x, Iterate(Step(g, bound), t, k - 1), Iterate(Step(g, bound), u, k - 1), bound);
    }
  }

  /** Converged or not, a run ends with the rows after as many rounds as are allowed. */
  lemma RunIsIterate(g: Adjacency, t: Table, bound: nat, maxIterations: nat)
    requires maxIterations >= 1
    ensures Run(g, t, bound, maxIterations).table == Iterate(Step(g, bound), t, maxIterations)
  {
    hide Round;
    var step, o := Step(g, bound), Run(g, t, bound, maxIterations);
    if |t| == 0 {
      EmptyRound(g, t, bound);
      StableForever(step, t, 0, maxIterations);
    } else {
      RunFromMeaning(step, t, 1, maxIterations);
      if !o.exhausted { StableForever(step, t, o.iterations - 1, maxIterations); }
    }
  }

  lemma EmptyRound(g: Adjacency, t: Table, bound: nat)
    requires |t| == 0
    ensures Round(g, t, bound) == t
  {
  }

  /** Two runs from seeds that differ only at callers of x end with the same rows everywhere else, whether or not they
      converge, and with the same completeness where both or neither do. */
  lemma RunsAgree(g: Adjacency, x: Id, t: Table, u: Table, bound: nat, maxIterations: nat, c: Id)
    requires AgreeOffCallersOf(g, x, t, u) && maxIterations >= 1 && !Reaches(g, c, x)
    ensures var a, b := Run(g, t, bound, maxIterations), Run(g, u, bound, maxIterations);
            && SameRow(a.table, b.table, c)
            && (RowsComplete(g, a, c) <==> RowsComplete(g, b, c))
  {
    hide Run;
    var a, b := Run(g, t, bound, maxIterations), Run(g, u, bound, maxIterations);
    RunIsIterate(g, t, bound, maxIterations);
    RunIsIterate(g, u, bound, maxIterations);
    IterateAgrees(g, x, t, u, bound, maxIterations);
    forall d | Reaches(g, c, d) ensures SameRow(a.table, b.table, d) {
      if Reaches(g, d, x) {
        ReachesJoins(g, c, d, x);
        assert false;
      }
    }
  }

  /** No row that c reaches is marked incomplete. */
  ghost predicate RowsComplete(g: Adjacency, o: Outcome<Table>, c: Id) {
    forall d :: Reaches(g, c, d) && d in o.table ==> !o.table[d].incomplete
  }
}
