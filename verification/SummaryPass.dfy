/** The imperative summary derivation: seeding, snapshot rounds, caller closure. */
module SummaryPass {
  import opened Digraph
  import opened FixedPoint
  import opened CallSummaries
  import opened CallAnalysis

  lemma OneMoreCallee(calls: seq<CallSite>, k: CallSite, c: Id)
    ensures CalleesIn(calls + [k], c) ==
            if k.caller == c && k.resolution.Exact? then CalleesIn(calls, c) + {k.resolution.callee}
            else CalleesIn(calls, c)
  {
    assert forall x :: x in calls + [k] <==> x in calls || x == k;
  }

  lemma OneMoreCaller(calls: seq<CallSite>, k: CallSite, d: Id)
    ensures CallersIn(calls + [k], d) ==
            if k.resolution == Exact(d) then CallersIn(calls, d) + {k.caller} else CallersIn(calls, d)
  {
    assert forall x :: x in calls + [k] <==> x in calls || x == k;
  }

  lemma OneMoreCallOut(callables: set<Id>, calls: seq<CallSite>, k: CallSite)
    requires k.resolution.Exact? ==> k.caller in callables
    ensures var m := CalleeMap(callables, calls);
            CalleeMap(callables, calls + [k]) ==
            if k.resolution.Exact? then m[k.caller := m[k.caller] + {k.resolution.callee}] else m
  {
    hide CalleesIn;
    forall c | c in callables
      ensures CalleesIn(calls + [k], c) ==
              if k.caller == c && k.resolution.Exact? then CalleesIn(calls, c) + {k.resolution.callee}
              else CalleesIn(calls, c)
    {
      OneMoreCallee(calls, k, c);
    }
  }

  lemma OneMoreCallIn(callables: set<Id>, calls: seq<CallSite>, k: CallSite)
    requires k.resolution.Exact? ==> k.resolution.callee in callables
    ensures var m := CallerMap(callables, calls);
            CallerMap(callables, calls + [k]) ==
            if k.resolution.Exact? then m[k.resolution.callee := m[k.resolution.callee] + {k.caller}] else m
  {
    hide CallersIn;
    forall c | c in callables
      ensures CallersIn(calls + [k], c) ==
              if k.resolution == Exact(c) then CallersIn(calls, c) + {k.caller} else CallersIn(calls, c)
    {
      OneMoreCaller(calls, k, c);
    }
  }

  lemma CallerMapReverses(input: Input)
    ensures IsReverse(CallGraph(input), CallerMap(Callables(input), input.calls))
  {
    var g, back := CallGraph(input), CallerMap(Callables(input), input.calls);
    forall c, d | c in g && d in g ensures d in g[c] <==> c in back[d] {
      if d in g[c] {
        var k :| k in input.calls && k.caller == c && k.resolution.Exact? && k.resolution.callee == d;
        assert k.resolution == Exact(d);
      }
    }
  }

  /** Callees and callers of the exact calls. */
  method BuildAdjacency(input: Input) returns (adjacency: Adjacency, reverse: Adjacency)
    ensures adjacency == CallGraph(input)
    ensures IsReverse(adjacency, reverse)
  {
    var callables := Callables(input);
    adjacency := map c | c in callables :: {};
    reverse := map c | c in callables :: {};
    forall c | c in callables
      ensures CalleesIn(input.calls[..0], c) == {} && CallersIn(input.calls[..0], c) == {}
    {}
    for i := 0 to |input.calls|
      invariant adjacency == CalleeMap(callables, input.calls[..i])
      invariant reverse == CallerMap(callables, input.calls[..i])
    {
      var k := input.calls[i];
      assert k in input.calls;
      assert input.calls[..i + 1] == input.calls[..i] + [k];
      OneMoreCallOut(callables, input.calls[..i], k);
      OneMoreCallIn(callables, input.calls[..i], k);
      if k.resolution.Exact? {
        var caller, callee := k.caller, k.resolution.callee;
        adjacency := adjacency[caller := adjacency[caller] + {callee}];
        reverse := reverse[callee := reverse[callee] + {caller}];
      }
    }
    assert input.calls[..|input.calls|] == input.calls;
    CallerMapReverses(input);
  }

  /** Add the listed callers, queueing those that are new. */
  method AddCallers(callers: seq<Id>, closed: set<Id>, queue: seq<Id>) returns (closed': set<Id>, queue': seq<Id>)
    ensures closed' == closed + Elements(callers)
    ensures queue <= queue' && (closed' == closed ==> queue' == queue)
    ensures forall q :: q in queue' ==> q in queue || q in closed' - closed
    ensures forall q :: q in closed' - closed ==> q in queue'
  {
    closed', queue' := closed, queue;
    for i := 0 to |callers|
      invariant closed' == closed + Elements(callers[..i])
      invariant queue <= queue' && (closed' == closed ==> queue' == queue)
      invariant forall q :: q in queue' ==> q in queue || q in closed' - closed
      invariant forall q :: q in closed' - closed ==> q in queue'
    {
      assert Elements(callers[..i + 1]) == Elements(callers[..i]) + {callers[i]};
      if callers[i] !in closed' {
        closed' := closed' + {callers[i]};
        queue' := queue' + [callers[i]];
      }
    }
    assert callers[..|callers|] == callers;
  }

  /** Of what is closed so far, only what is queued may have callers outside. */
  ghost predicate Pending(reverse: Adjacency, all: set<Id>, closed: set<Id>, queue: seq<Id>) {
    && closed <= all && all <= reverse.Keys
    && (forall q :: q in queue ==> q in closed)
    && (forall d :: d in closed && d !in queue ==> reverse[d] <= closed)
  }

  lemma PendingNext(reverse: Adjacency, all: set<Id>, closed: set<Id>, queue: seq<Id>, closed': set<Id>,
                    queue': seq<Id>)
    requires Pending(reverse, all, closed, queue) && queue != [] && reverse[queue[0]] <= all
    requires closed' == closed + reverse[queue[0]] && queue[1..] <= queue'
    requires forall q :: q in queue' ==> q in queue[1..] || q in closed' - closed
    requires forall q :: q in closed' - closed ==> q in queue'
    ensures Pending(reverse, all, closed', queue')
  {
    forall d | d in closed' && d !in queue' ensures reverse[d] <= closed' {
      assert d !in queue[1..];
      assert d == queue[0] || d !in queue;
    }
  }

  /** The least superset of `start` closed under callers, breadth first. */
  method CloseUnder(reverse: Adjacency, start: set<Id>, ghost all: set<Id>) returns (closed: set<Id>)
    requires start <= all && forall d :: d in all ==> d in reverse && reverse[d] <= all
    ensures start <= closed <= all
    ensures forall d :: d in closed ==> reverse[d] <= closed
  {
    hide Ascending;
    closed := start;
    var queue := Ascending(start);
    AscendingMeaning(start);
    while queue != []
      invariant start <= closed && Pending(reverse, all, closed, queue)
      decreases all - closed, |queue|
    {
      hide Pending;
      var callers := Ascending(reverse[queue[0]]);
      AscendingMeaning(reverse[queue[0]]);
      ghost var before, waiting := closed, queue;
      closed, queue := AddCallers(callers, closed, queue[1..]);
      PendingNext(reverse, all, before, waiting, closed, queue);
    }
  }

  /** Close a set of callables under callers. */
  method CallerClosure(ghost g: Adjacency, reverse: Adjacency, start: set<Id>) returns (closed: set<Id>)
    requires Closed(g) && IsReverse(g, reverse) && start <= g.Keys
    ensures closed == TransitiveCallers(g, start)
  {
    TargetsCallThemselves(g, start);
    forall d | d in TransitiveCallers(g, start)
      ensures d in reverse && reverse[d] <= TransitiveCallers(g, start)
    {
      CallersOfCallers(g, reverse, start, d);
    }
    closed := CloseUnder(reverse, start, TransitiveCallers(g, start));
    CallerClosedIsComplete(g, reverse, start, closed);
  }

  /** The callables invalidated by a changed callable, which need not be in the graph. */
  method AffectedBy(ghost g: Adjacency, reverse: Adjacency, x: Id) returns (affected: set<Id>)
    requires Closed(g) && IsReverse(g, reverse)
    ensures affected == Affected(g, x)
  {
    if x in reverse {
      affected := CallerClosure(g, reverse, {x});
      TargetsCallThemselves(g, {x});
    } else {
      affected := {x};
      forall c | c in g ensures !ReachesSome(g, c, {x}) {
        if Reaches(g, c, x) {
          var k: nat :| Within(g, c, x, k);
          WithinStaysInside(g, c, x, k);
          assert false;
        }
      }
    }
  }

  /** Insert values in order into one bounded summary. */
  method InsertValues(summary: set<Id>, values: seq<Id>, bound: nat)
    returns (result: set<Id>, refused: bool, inserted: bool)
    ensures result == Absorb(summary, values, bound)
    ensures refused == Refuses(summary, values, bound)
    ensures summary <= result && (inserted <==> result != summary)
  {
    result, refused, inserted := summary, false, false;
    var i := 0;
    while i < |values|
      invariant 0 <= i <= |values| && summary <= result && (inserted <==> result != summary)
      invariant Absorb(result, values[i..], bound) == Absorb(summary, values, bound)
      invariant refused || Refuses(result, values[i..], bound) <==> Refuses(summary, values, bound)
    {
      assert values[i..][0] == values[i] && values[i..][1..] == values[i + 1..];
      if values[i] !in result {
        if |result| == bound {
          refused := true;
        } else {
          result := result + {values[i]};
          inserted := true;
        }
      }
      i := i + 1;
    }
  }

  ghost function Scheduled(groups: seq<seq<Id>>): set<Id> {
    if groups == [] then {}
    else Scheduled(groups[..|groups| - 1]) + Elements(groups[|groups| - 1])
  }

  ghost predicate NoRepeats(group: seq<Id>) {
    forall i, j :: 0 <= i < j < |group| ==> group[i] != group[j]
  }

  ghost predicate NoRepeatsAcross(groups: seq<seq<Id>>) {
    groups == [] ||
    (&& NoRepeatsAcross(groups[..|groups| - 1])
     && NoRepeats(groups[|groups| - 1])
     && Elements(groups[|groups| - 1]) !! Scheduled(groups[..|groups| - 1]))
  }

  /** Every callable stands at exactly one place of the schedule. */
  ghost predicate IsSchedule(groups: seq<seq<Id>>, callables: set<Id>) {
    NoRepeatsAcross(groups) && Scheduled(groups) == callables
  }

  lemma {:induction false} PrefixSchedule(groups: seq<seq<Id>>, i: nat)
    requires NoRepeatsAcross(groups) && i < |groups|
    ensures NoRepeats(groups[i]) && Elements(groups[i]) !! Scheduled(groups[..i])
    ensures Scheduled(groups[..i + 1]) == Scheduled(groups[..i]) + Elements(groups[i])
    ensures Elements(groups[i]) <= Scheduled(groups)
    decreases |groups|
  {
    assert groups[..i + 1][..i] == groups[..i];
    if i < |groups| - 1 {
      var front := groups[..|groups| - 1];
      assert front[..i] == groups[..i] && front[..i + 1] == groups[..i + 1];
      PrefixSchedule(front, i);
    }
  }

  /** Rows in `done` have reached `next`, the others still stand at `prior`. */
  ghost predicate Mixed(rows: Table, prior: Table, next: Table, done: set<Id>) {
    && rows.Keys == prior.Keys == next.Keys
    && forall c :: c in rows ==> rows[c] == if c in done then next[c] else prior[c]
  }

  ghost predicate Moved(prior: Table, next: Table, done: set<Id>) {
    exists c :: c in done && c in prior && c in next && next[c] != prior[c]
  }

  lemma MixedStep(rows: Table, prior: Table, next: Table, done: set<Id>, c: Id)
    requires Mixed(rows, prior, next, done) && c in rows && c !in done
    ensures rows[c] == prior[c]
    ensures Mixed(rows[c := next[c]], prior, next, done + {c})
  {
  }

  lemma MovedStep(prior: Table, next: Table, done: set<Id>, c: Id)
    requires c in prior && c in next
    ensures Moved(prior, next, done + {c}) <==> Moved(prior, next, done) || next[c] != prior[c]
  {
    assert c in done + {c};
  }

  lemma MixedAll(rows: Table, prior: Table, next: Table)
    requires Mixed(rows, prior, next, prior.Keys)
    ensures rows == next && (Moved(prior, next, prior.Keys) <==> next != prior)
  {
  }

  /** Row c of `next` is row c of `prior` after absorbing its callees. */
  ghost predicate IsNext(prior: Table, next: Table, adjacency: Adjacency, bound: nat, c: Id) {
    && c in prior && c in next && c in adjacency
    && next[c] == AbsorbCallees(prior[c], Ascending(adjacency[c]), prior, bound)
  }

  ghost predicate AllNext(prior: Table, next: Table, adjacency: Adjacency, bound: nat) {
    && prior.Keys == next.Keys == adjacency.Keys
    && forall c {:trigger IsNext(prior, next, adjacency, bound, c)} :: c in next ==>
       IsNext(prior, next, adjacency, bound, c)
  }

  lemma RoundIsNext(prior: Table, adjacency: Adjacency, bound: nat)
    requires prior.Keys == adjacency.Keys
    ensures AllNext(prior, Round(adjacency, prior, bound), adjacency, bound)
  {
  }

  /** `step` computes a whole round. */
  ghost predicate Advances(step: Table -> Table, adjacency: Adjacency, bound: nat) {
    forall t: Table {:trigger AllNext(t, step(t), adjacency, bound)} ::
      t.Keys == adjacency.Keys ==> AllNext(t, step(t), adjacency, bound)
  }

  lemma StepAdvances(adjacency: Adjacency, bound: nat)
    ensures Advances(Step(adjacency, bound), adjacency, bound)
  {
    forall t: Table | t.Keys == adjacency.Keys
      ensures AllNext(t, Step(adjacency, bound)(t), adjacency, bound)
    {
      RoundIsNext(t, adjacency, bound);
    }
  }

  function RowsOf(effects: map<Id, set<Id>>, resources: map<Id, set<Id>>, incomplete: set<Id>): Table {
    map c | c in effects && c in resources :: Row(effects[c], resources[c], c in incomplete)
  }

  lemma AbsorbCalleesStep(own: Row, callees: seq<Id>, k: nat, prior: Table, bound: nat)
    requires k < |callees| && forall c :: c in callees ==> c in prior
    ensures callees[k] in prior
    ensures AbsorbCallees(own, callees[..k + 1], prior, bound) ==
            AbsorbCallee(AbsorbCallees(own, callees[..k], prior, bound), prior[callees[k]], bound)
  {
    assert callees[k] in callees;
    assert callees[..k + 1][..k] == callees[..k];
  }

  lemma RowsUpdate(effects: map<Id, set<Id>>, resources: map<Id, set<Id>>, incomplete: set<Id>, c: Id, row: Row)
    requires c in effects && c in resources && (c in incomplete ==> row.incomplete)
    ensures RowsOf(effects[c := row.effects], resources[c := row.resources],
                   if row.incomplete then incomplete + {c} else incomplete) ==
            RowsOf(effects, resources, incomplete)[c := row]
  {
  }

  /** The effects, resources and incompleteness the derivation updates in place. */
  class SummaryState {
    var effects: map<Id, set<Id>>
    var resources: map<Id, set<Id>>
    var incomplete: set<Id>
    var iterations: nat

    ghost predicate Over(callables: set<Id>)
      reads this
    {
      effects.Keys == callables == resources.Keys && incomplete <= callables
    }

    ghost function Rows(): Table
      reads this
    {
      RowsOf(effects, resources, incomplete)
    }

    /** One caller absorbs one callee's snapshot row. */
    method AbsorbOne(caller: Id, callee: Row, bound: nat) returns (changed: bool)
      requires caller in effects && caller in resources
      modifies this`effects, this`resources, this`incomplete
      ensures var own := Row(old(effects)[caller], old(resources)[caller], caller in old(incomplete));
              var row := AbsorbCallee(own, callee, bound);
              && effects == old(effects)[caller := row.effects]
              && resources == old(resources)[caller := row.resources]
              && incomplete == (if row.incomplete then old(incomplete) + {caller} else old(incomplete))
              && RowLe(own, row)
              && (changed <==> row != own)
    {
      var nextEffects, effectRefused, effectInserted :=
        InsertValues(effects[caller], First(callee.effects, bound), bound);
      var nextResources, resourceRefused, resourceInserted :=
        InsertValues(resources[caller], First(callee.resources, bound), bound);
      changed := effectInserted || resourceInserted;
      effects := effects[caller := nextEffects];
      resources := resources[caller := nextResources];
      if effectRefused || resourceRefused {
        if caller !in incomplete { changed := true; }
        incomplete := incomplete + {caller};
      }
      if callee.incomplete {
        if caller !in incomplete { changed := true; }
        incomplete := incomplete + {caller};
      }
    }

    method AbsorbRow(caller: Id, callee: Row, bound: nat, ghost current: Row, ghost next: Row, ghost callables: set<Id>)
      returns (changed: bool)
      requires Over(callables) && caller in callables && Rows()[caller] == current
      requires next == AbsorbCallee(current, callee, bound)
      modifies this`effects, this`resources, this`incomplete
      ensures Over(callables) && Rows() == old(Rows())[caller := next]
      ensures RowLe(current, next) && (changed <==> next != current)
    {
      RowsUpdate(effects, resources, incomplete, caller, next);
      changed := AbsorbOne(caller, callee, bound);
    }

    /** One caller absorbs the snapshot rows of its callees. */
    method UpdateCaller(caller: Id, callees: seq<Id>, priorEffects: map<Id, set<Id>>,
                        priorResources: map<Id, set<Id>>, priorIncomplete: set<Id>, bound: nat,
                        ghost prior: Table, ghost callables: set<Id>)
      returns (changed: bool)
      requires Over(callables) && caller in callables
      requires prior.Keys == priorEffects.Keys == priorResources.Keys
      requires forall c :: c in prior ==> prior[c] == Row(priorEffects[c], priorResources[c], c in priorIncomplete)
      requires forall c :: c in callees ==> c in prior
      modifies this`effects, this`resources, this`incomplete
      ensures Over(callables)
      ensures Rows() == old(Rows())[caller := AbsorbCallees(old(Rows())[caller], callees, prior, bound)]
      ensures changed <==> AbsorbCallees(old(Rows())[caller], callees, prior, bound) != old(Rows())[caller]
    {
      hide AbsorbCallee;
      changed := false;
      ghost var own := Rows()[caller];
      ghost var current := own;
      for k := 0 to |callees|
        invariant Over(callables) && Rows() == old(Rows())[caller := current]
        invariant current == AbsorbCallees(own, callees[..k], prior, bound)
        invariant RowLe(own, current) && (changed <==> current != own)
      {
        var callee := callees[k];
        AbsorbCalleesStep(own, callees, k, prior, bound);
        var row := Row(priorEffects[callee], priorResources[callee], callee in priorIncomplete);
        ghost var next := AbsorbCallee(current, row, bound);
        var moved := AbsorbRow(caller, row, bound, current, next, callables);
        current := next;
        changed := changed || moved;
      }
      assert callees[..|callees|] == callees;
    }

    /** Bring one row from `prior` to `next`. */
    method UpdateRow(caller: Id, adjacency: Adjacency, priorEffects: map<Id, set<Id>>,
                     priorResources: map<Id, set<Id>>, priorIncomplete: set<Id>, bound: nat,
                     ghost prior: Table, ghost next: Table)
      returns (changed: bool)
      requires Closed(adjacency) && Over(adjacency.Keys) && caller in adjacency
      requires prior == RowsOf(priorEffects, priorResources, priorIncomplete)
      requires priorEffects.Keys == priorResources.Keys == adjacency.Keys
      requires IsNext(prior, next, adjacency, bound, caller) && Rows()[caller] == prior[caller]
      modifies this`effects, this`resources, this`incomplete
      ensures Over(adjacency.Keys)
      ensures Rows() == old(Rows())[caller := next[caller]]
      ensures changed <==> next[caller] != prior[caller]
    {
      AscendingMeaning(adjacency[caller]);
      changed := UpdateCaller(caller, Ascending(adjacency[caller]), priorEffects, priorResources,
                              priorIncomplete, bound, prior, adjacency.Keys);
    }

    /** Bring the rows of one group from `prior` to `next`, reading only the snapshot. */
    method SweepGroup(group: seq<Id>, adjacency: Adjacency, priorEffects: map<Id, set<Id>>,
                      priorResources: map<Id, set<Id>>, priorIncomplete: set<Id>, bound: nat,
                      ghost prior: Table, ghost next: Table, ghost done: set<Id>)
      returns (changed: bool)
      requires Closed(adjacency) && Over(adjacency.Keys)
      requires prior == RowsOf(priorEffects, priorResources, priorIncomplete)
      requires priorEffects.Keys == priorResources.Keys == adjacency.Keys
      requires AllNext(prior, next, adjacency, bound)
      requires Mixed(Rows(), prior, next, done)
      requires NoRepeats(group) && Elements(group) <= adjacency.Keys && Elements(group) !! done
      modifies this`effects, this`resources, this`incomplete
      ensures Over(adjacency.Keys) && Mixed(Rows(), prior, next, done + Elements(group))
      ensures changed <==> Moved(prior, next, Elements(group))
    {
      hide IsNext, Closed, RowsOf;
      changed := false;
      assert Elements(group[..0]) == {} && done + {} == done;
      for j := 0 to |group|
        invariant Over(adjacency.Keys) && Mixed(Rows(), prior, next, done + Elements(group[..j]))
        invariant changed <==> Moved(prior, next, Elements(group[..j]))
      {
        var caller := group[j];
        assert caller in Elements(group);
        assert caller !in group[..j];
        assert Elements(group[..j + 1]) == Elements(group[..j]) + {caller};
        assert IsNext(prior, next, adjacency, bound, caller);
        assert done + Elements(group[..j + 1]) == done + Elements(group[..j]) + {caller};
        MixedStep(Rows(), prior, next, done + Elements(group[..j]), caller);
        MovedStep(prior, next, Elements(group[..j]), caller);
        var moved := UpdateRow(caller, adjacency, priorEffects, priorResources, priorIncomplete, bound, prior, next);
        changed := changed || moved;
      }
      assert group[..|group|] == group;
    }

    /** Every row from the snapshot taken at the start of the round, in schedule order. */
    method Sweep(schedule: seq<seq<Id>>, adjacency: Adjacency, bound: nat, ghost next: Table)
      returns (changed: bool)
      requires Closed(adjacency) && Over(adjacency.Keys) && IsSchedule(schedule, adjacency.Keys)
      requires AllNext(Rows(), next, adjacency, bound)
      modifies this`effects, this`resources, this`incomplete
      ensures Over(adjacency.Keys) && Rows() == next
      ensures changed <==> next != old(Rows())
    {
      var priorEffects, priorResources, priorIncomplete := effects, resources, incomplete;
      ghost var prior := Rows();
      changed := false;
      for i := 0 to |schedule|
        invariant Over(adjacency.Keys) && Mixed(Rows(), prior, next, Scheduled(schedule[..i]))
        invariant changed <==> Moved(prior, next, Scheduled(schedule[..i]))
      {
        PrefixSchedule(schedule, i);
        var moved := SweepGroup(schedule[i], adjacency, priorEffects, priorResources, priorIncomplete,
                                bound, prior, next, Scheduled(schedule[..i]));
        changed := changed || moved;
      }
      assert schedule[..|schedule|] == schedule;
      MixedAll(Rows(), prior, next);
    }

    /** One round: every row from the snapshot taken at its start. */
    method OneRound(schedule: seq<seq<Id>>, adjacency: Adjacency, bound: nat, ghost step: Table -> Table)
      returns (changed: bool)
      requires Closed(adjacency) && Over(adjacency.Keys) && IsSchedule(schedule, adjacency.Keys)
      requires Advances(step, adjacency, bound)
      modifies this`effects, this`resources, this`incomplete
      ensures Over(adjacency.Keys) && Rows() == step(old(Rows()))
      ensures changed <==> step(old(Rows())) != old(Rows())
    {
      assert Rows().Keys == adjacency.Keys;
      assert AllNext(Rows(), step(Rows()), adjacency, bound);
      changed := Sweep(schedule, adjacency, bound, step(Rows()));
    }

    /** Rounds until nothing changes or the iteration bound is spent; true when it is spent. */
    method PropagateRounds(schedule: seq<seq<Id>>, adjacency: Adjacency, bound: nat, maxIterations: nat,
                           ghost step: Table -> Table)
      returns (exhausted: bool)
      requires Closed(adjacency) && Over(adjacency.Keys) && IsSchedule(schedule, adjacency.Keys)
      requires maxIterations >= 1 && Advances(step, adjacency, bound)
      modifies this
      ensures Over(adjacency.Keys)
      ensures Outcome(Rows(), exhausted, iterations) == RunFrom(step, old(Rows()), 1, maxIterations)
    {
      ghost var current := Rows();
      ghost var expected := RunFrom(step, current, 1, maxIterations);
      var i := 1;
      while i <= maxIterations
        invariant 1 <= i <= maxIterations + 1 && Over(adjacency.Keys) && current == Rows()
        invariant i <= maxIterations ==> RunFrom(step, current, i, maxIterations) == expected
        invariant i > maxIterations ==> Outcome(current, true, iterations) == expected
      {
        iterations := i;
        var changed := OneRound(schedule, adjacency, bound, step);
        if !changed { return false; }
        current := step(current);
        i := i + 1;
      }
      return true;
    }

    /** Raise every summary to the first unchanged round within the bound. The result does not
        depend on the schedule, as long as each callable stands in it once. */
    method PropagateSummaries(schedule: seq<seq<Id>>, adjacency: Adjacency, bound: nat, maxIterations: nat)
      returns (exhausted: bool)
      requires Closed(adjacency) && Over(adjacency.Keys) && IsSchedule(schedule, adjacency.Keys)
      requires forall group :: group in schedule ==> group != []
      requires maxIterations >= 1 && iterations == 0
      modifies this
      ensures Over(adjacency.Keys)
      ensures Outcome(Rows(), exhausted, iterations) == Run(adjacency, old(Rows()), bound, maxIterations)
    {
      assert Rows().Keys == adjacency.Keys;
      if schedule == [] { return false; }
      ghost var group := schedule[|schedule| - 1];
      assert group in schedule && group[0] in Elements(group);
      StepAdvances(adjacency, bound);
      exhausted := PropagateRounds(schedule, adjacency, bound, maxIterations, Step(adjacency, bound));
    }
  }

  // Seeding.

  method UnresolvedCallers(input: Input) returns (callers: set<Id>)
    ensures forall c :: c in callers <==> HasUnresolvedCall(input, c)
  {
    callers := {};
    for i := 0 to |input.calls|
      invariant forall c :: c in callers <==> exists k :: k in input.calls[..i] && k.caller == c && !k.resolution.Exact?
    {
      assert input.calls[..i + 1] == input.calls[..i] + [input.calls[i]];
      if !input.calls[i].resolution.Exact? { callers := callers + {input.calls[i].caller}; }
    }
    assert input.calls[..|input.calls|] == input.calls;
  }

  ghost predicate Mutual(g: Adjacency, c: Id, d: Id) {
    Reaches(g, c, d) && Reaches(g, d, c)
  }

  /** The strongly connected components of g, each listed without repeats. */
  ghost predicate AreComponents(g: Adjacency, components: seq<seq<Id>>) {
    && (forall i, c :: 0 <= i < |components| && c in components[i] ==> c in g)
    && (forall c :: c in g ==> exists i :: 0 <= i < |components| && c in components[i])
    && (forall i, c, d :: 0 <= i < |components| && c in components[i] && d in g ==>
          (d in components[i] <==> Mutual(g, c, d)))
    && (forall i :: 0 <= i < |components| ==> NoRepeats(components[i]))
  }

  /** A callable lies on a call cycle exactly when its component has another member or an edge to
      itself. */
  lemma RecursiveInComponent(g: Adjacency, component: seq<Id>, c: Id)
    requires Closed(g) && c in component && NoRepeats(component)
    requires forall x :: x in component ==> x in g
    requires forall d :: d in g ==> (d in component <==> Mutual(g, c, d))
    ensures Recursive(g, c) <==> |component| > 1 || c in g[c]
  {
    if |component| > 1 {
      var d := if component[0] == c then component[1] else component[0];
      assert d in component && d != c;
      assert Mutual(g, c, d);
      var x := ReachesFirstEdge(g, c, d);
      ReachesJoins(g, x, d, c);
    } else if c in g[c] {
      ReachesSelf(g, c);
    } else if Recursive(g, c) {
      var d :| d in Successors(g, c) && Reaches(g, d, c);
      ReachesEdge(g, c, d);
      assert Mutual(g, c, d);
      assert false;
    }
  }

  method RecursiveCallables(g: Adjacency, components: seq<seq<Id>>) returns (recursive: set<Id>)
    requires Closed(g) && AreComponents(g, components)
    ensures recursive <= g.Keys
    ensures forall c :: c in g ==> (c in recursive <==> Recursive(g, c))
  {
    recursive := {};
    for i := 0 to |components|
      invariant forall c :: c in recursive ==> c in g && Recursive(g, c)
      invariant forall i', c :: 0 <= i' < i && c in components[i'] && Recursive(g, c) ==> c in recursive
    {
      var component := components[i];
      var isRecursive := |component| > 1 || exists c :: c in component && c in g && c in g[c];
      forall c | c in component ensures Recursive(g, c) <==> isRecursive {
        RecursiveInComponent(g, component, c);
      }
      if isRecursive { recursive := recursive + Elements(component); }
    }
  }

  /** c is doubtful for a reason other than its own local semantics. */
  ghost predicate CallsDoubtful(input: Input, c: Id) {
    || !input.callCoverage || !input.localCoverage || HasUnresolvedCall(input, c)
    || Recursive(CallGraph(input), c)
  }

  method DoubtfulCallers(input: Input, adjacency: Adjacency, components: seq<seq<Id>>) returns (incomplete: set<Id>)
    requires adjacency == CallGraph(input) && AreComponents(adjacency, components)
    ensures incomplete <= Callables(input)
    ensures forall c :: c in Callables(input) ==> (c in incomplete <==> CallsDoubtful(input, c))
  {
    CallGraphClosed(input);
    incomplete := UnresolvedCallers(input);
    if !input.callCoverage || !input.localCoverage { incomplete := incomplete + Callables(input); }
    var recursive := RecursiveCallables(adjacency, components);
    incomplete := incomplete + recursive;
  }

  ghost predicate SeededAt(effects: map<Id, set<Id>>, resources: map<Id, set<Id>>, misfit: set<Id>,
                           locals: map<Id, Local>, bound: nat, c: Id) {
    && c in effects && effects[c] == SeedEffects(locals, bound, c)
    && c in resources && resources[c] == SeedResources(locals, bound, c)
    && (c in misfit <==> !LocalsFit(locals, bound, c))
  }

  lemma SeedNext(effects: map<Id, set<Id>>, resources: map<Id, set<Id>>, misfit: set<Id>,
                 locals: map<Id, Local>, bound: nat, done: set<Id>, c: Id)
    requires c !in done && c !in misfit
    requires forall x :: x in done ==> SeededAt(effects, resources, misfit, locals, bound, x)
    ensures var misfit' := if LocalsFit(locals, bound, c) then misfit else misfit + {c};
            forall x :: x in done + {c} ==>
              SeededAt(effects[c := SeedEffects(locals, bound, c)], resources[c := SeedResources(locals, bound, c)],
                       misfit', locals, bound, x)
  {
    var misfit' := if LocalsFit(locals, bound, c) then misfit else misfit + {c};
    forall x | x in done + {c}
      ensures SeededAt(effects[c := SeedEffects(locals, bound, c)], resources[c := SeedResources(locals, bound, c)],
                       misfit', locals, bound, x)
    {
      if x != c { assert SeededAt(effects, resources, misfit, locals, bound, x); }
    }
  }

  lemma AscendingPrefix(s: set<Id>, i: nat)
    requires i < |Ascending(s)|
    ensures Ascending(s)[i] !in Elements(Ascending(s)[..i])
    ensures Elements(Ascending(s)[..i + 1]) == Elements(Ascending(s)[..i]) + {Ascending(s)[i]}
  {
    AscendingMeaning(s);
  }

  lemma AscendingCovers(s: set<Id>)
    ensures Elements(Ascending(s)[..|Ascending(s)|]) == s && Elements(Ascending(s)[..0]) == {}
  {
    AscendingMeaning(s);
  }

  method SeedOne(locals: map<Id, Local>, bound: nat, c: Id) returns (e: set<Id>, r: set<Id>, fits: bool)
    ensures e == SeedEffects(locals, bound, c) && r == SeedResources(locals, bound, c)
    ensures fits <==> LocalsFit(locals, bound, c)
  {
    if c in locals {
      e, r := Elements(First(locals[c].effects, bound)), Elements(First(locals[c].resources, bound));
      fits := |locals[c].effects| <= bound && |locals[c].resources| <= bound;
    } else {
      e, r, fits := {}, {}, false;
    }
  }

  method SeedLocals(callables: set<Id>, locals: map<Id, Local>, bound: nat)
    returns (effects: map<Id, set<Id>>, resources: map<Id, set<Id>>, misfit: set<Id>)
    ensures effects.Keys == resources.Keys == callables && misfit <= callables
    ensures forall c :: c in callables ==> SeededAt(effects, resources, misfit, locals, bound, c)
  {
    effects, resources, misfit := map[], map[], {};
    var order := Ascending(callables);
    AscendingCovers(callables);
    for i := 0 to |order|
      invariant effects.Keys == resources.Keys == Elements(order[..i]) && misfit <= effects.Keys
      invariant forall c :: c in effects.Keys ==> SeededAt(effects, resources, misfit, locals, bound, c)
    {
      var c := order[i];
      AscendingPrefix(callables, i);
      SeedNext(effects, resources, misfit, locals, bound, effects.Keys, c);
      var e, r, fits := SeedOne(locals, bound, c);
      effects, resources := effects[c := e], resources[c := r];
      if !fits { misfit := misfit + {c}; }
    }
  }

  /** Seed one state from the accepted input. */
  method SeedSummaries(input: Input, bound: nat, adjacency: Adjacency, components: seq<seq<Id>>)
    returns (state: SummaryState)
    requires adjacency == CallGraph(input) && AreComponents(adjacency, components)
    ensures fresh(state) && state.iterations == 0
    ensures state.Over(adjacency.Keys) && state.Rows() == Seeds(input, bound)
  {
    var doubtful := DoubtfulCallers(input, adjacency, components);
    var effects, resources, misfit := SeedLocals(adjacency.Keys, input.locals, bound);
    state := new SummaryState;
    state.iterations := 0;
    state.effects, state.resources, state.incomplete := effects, resources, doubtful + misfit;
    SeededRows(input, bound, effects, resources, doubtful, misfit);
  }

  lemma SeededRows(input: Input, bound: nat, effects: map<Id, set<Id>>, resources: map<Id, set<Id>>,
                   doubtful: set<Id>, misfit: set<Id>)
    requires effects.Keys == resources.Keys == Callables(input)
    requires forall c :: c in effects ==> SeededAt(effects, resources, misfit, input.locals, bound, c)
    requires forall c :: c in effects ==> (c in doubtful <==> CallsDoubtful(input, c))
    ensures RowsOf(effects, resources, doubtful + misfit) == Seeds(input, bound)
  {
    var rows, seeds := RowsOf(effects, resources, doubtful + misfit), Seeds(input, bound);
    forall c | c in effects ensures rows[c] == seeds[c] {
      assert SeededAt(effects, resources, misfit, input.locals, bound, c);
      assert c in doubtful + misfit <==> !Clean(input, bound, c);
    }
  }

  lemma ClosureIsIncompleteness(g: Adjacency, o: Outcome<Table>, incomplete: set<Id>, c: Id)
    requires Closed(g) && o.table.Keys == g.Keys && c in g
    requires forall d :: d in g ==> (d in incomplete <==> o.exhausted || o.table[d].incomplete)
    ensures c in TransitiveCallers(g, incomplete) <==> !CompleteIn(g, o, c)
  {
    if o.exhausted { ReachesSelf(g, c); }
    forall d | Reaches(g, c, d) ensures d in g {
      var k: nat :| Within(g, c, d, k);
      WithinStaysInside(g, c, d, k);
    }
  }

  lemma ClosureComplement(g: Adjacency, o: Outcome<Table>, incomplete: set<Id>)
    requires Closed(g) && o.table.Keys == g.Keys
    requires forall d :: d in g ==> (d in incomplete <==> o.exhausted || o.table[d].incomplete)
    ensures g.Keys - TransitiveCallers(g, incomplete) == CompleteRows(g, o)
  {
    forall c | c in g ensures c in TransitiveCallers(g, incomplete) <==> c !in CompleteRows(g, o) {
      ClosureIsIncompleteness(g, o, incomplete, c);
    }
  }

  ghost predicate Settled(g: Adjacency, o: Outcome<Table>, effects: map<Id, set<Id>>,
                          resources: map<Id, set<Id>>, complete: set<Id>) {
    && effects.Keys == resources.Keys == o.table.Keys == g.Keys
    && (forall c :: c in g ==> effects[c] == o.table[c].effects && resources[c] == o.table[c].resources)
    && complete == CompleteRows(g, o)
  }

  lemma SettledClosure(g: Adjacency, effects: map<Id, set<Id>>, resources: map<Id, set<Id>>,
                       incomplete: set<Id>, exhausted: bool, iterations: nat)
    requires Closed(g) && effects.Keys == resources.Keys == g.Keys
    ensures var all := if exhausted then incomplete + g.Keys else incomplete;
            Settled(g, Outcome(RowsOf(effects, resources, incomplete), exhausted, iterations), effects, resources,
                    g.Keys - TransitiveCallers(g, all))
  {
    var o := Outcome(RowsOf(effects, resources, incomplete), exhausted, iterations);
    ClosureComplement(g, o, if exhausted then incomplete + g.Keys else incomplete);
  }

  /** Propagate, then close incompleteness over callers; an exhausted run leaves nothing complete. */
  method SettleRows(state: SummaryState, adjacency: Adjacency, reverse: Adjacency, schedule: seq<seq<Id>>,
                    bound: nat, maxIterations: nat)
    returns (complete: set<Id>, ghost o: Outcome<Table>)
    requires Closed(adjacency) && IsReverse(adjacency, reverse)
    requires state.Over(adjacency.Keys) && state.iterations == 0
    requires IsSchedule(schedule, adjacency.Keys) && forall group :: group in schedule ==> group != []
    requires maxIterations >= 1
    modifies state
    ensures o == Run(adjacency, old(state.Rows()), bound, maxIterations)
    ensures Settled(adjacency, o, state.effects, state.resources, complete)
  {
    var exhausted := state.PropagateSummaries(schedule, adjacency, bound, maxIterations);
    var incomplete := state.incomplete;
    if exhausted { incomplete := incomplete + adjacency.Keys; }
    o := Outcome(state.Rows(), exhausted, state.iterations);
    SettledClosure(adjacency, state.effects, state.resources, state.incomplete, exhausted, state.iterations);
    incomplete := CallerClosure(adjacency, reverse, incomplete);
    complete := adjacency.Keys - incomplete;
  }

  method DeriveRows(input: Input, bound: nat, maxIterations: nat, components: seq<seq<Id>>, schedule: seq<seq<Id>>)
    returns (effects: map<Id, set<Id>>, resources: map<Id, set<Id>>, complete: set<Id>)
    requires maxIterations >= 1 && AreComponents(CallGraph(input), components)
    requires IsSchedule(schedule, Callables(input)) && forall group :: group in schedule ==> group != []
    ensures Settled(CallGraph(input), Summaries(input, bound, maxIterations), effects, resources, complete)
  {
    var adjacency, reverse := BuildAdjacency(input);
    CallGraphClosed(input);
    var state := SeedSummaries(input, bound, adjacency, components);
    ghost var o;
    complete, o := SettleRows(state, adjacency, reverse, schedule, bound, maxIterations);
    effects, resources := state.effects, state.resources;
  }

  /** Row c promises what a complete summary promises. */
  ghost predicate ExactAt(input: Input, bound: nat, effects: map<Id, set<Id>>, resources: map<Id, set<Id>>, c: Id) {
    && c in effects && c in resources
    && effects[c] == ReachedEffects(input, c) && resources[c] == ReachedResources(input, c)
    && forall d :: Reaches(CallGraph(input), c, d) ==> Clean(input, bound, d)
  }

  lemma SettledIsExact(input: Input, bound: nat, maxIterations: nat, o: Outcome<Table>,
                       effects: map<Id, set<Id>>, resources: map<Id, set<Id>>, complete: set<Id>, c: Id)
    requires maxIterations >= 1 && c in complete && o == Summaries(input, bound, maxIterations)
    requires Settled(CallGraph(input), o, effects, resources, complete)
    ensures ExactAt(input, bound, effects, resources, c)
  {
    hide Summaries, CallGraph, Reaches;
    CallGraphClosed(input);
    assert CompleteIn(CallGraph(input), o, c);
    CompleteSummaryIsExact(input, bound, maxIterations, c);
  }

  /** The emitted rows are those of the fixed point, and each of them is just. */
  ghost predicate RowsAre(input: Input, bound: nat, maxIterations: nat, effects: map<Id, set<Id>>,
                          resources: map<Id, set<Id>>)
    requires maxIterations >= 1
  {
    var rows := Summaries(input, bound, maxIterations).table;
    && effects.Keys == resources.Keys == rows.Keys == Callables(input)
    && forall c :: c in Callables(input) ==>
         && effects[c] == rows[c].effects && resources[c] == rows[c].resources
         && JustAt(input, bound, maxIterations, c, effects[c], resources[c])
  }

  lemma SettledRowsAre(input: Input, bound: nat, maxIterations: nat, effects: map<Id, set<Id>>,
                       resources: map<Id, set<Id>>, complete: set<Id>)
    requires maxIterations >= 1
    requires Settled(CallGraph(input), Summaries(input, bound, maxIterations), effects, resources, complete)
    ensures RowsAre(input, bound, maxIterations, effects, resources)
  {
    hide Summaries, JustAt, CallGraph, Callables, CompleteRows;
    CallGraphClosed(input);
    forall c | c in Callables(input) ensures JustAt(input, bound, maxIterations, c, effects[c], resources[c]) {
      EveryRowIsJust(input, bound, maxIterations, c);
    }
  }

  /** The emitted summaries and the callables whose summary is emitted as complete: those are exact
      unions over everything they reach, and everything they reach is clean. The other rows are fixed too. */
  method DeriveSummaries(input: Input, bound: nat, maxIterations: nat, components: seq<seq<Id>>, schedule: seq<seq<Id>>)
    returns (effects: map<Id, set<Id>>, resources: map<Id, set<Id>>, complete: set<Id>)
    requires maxIterations >= 1 && AreComponents(CallGraph(input), components)
    requires IsSchedule(schedule, Callables(input)) && forall group :: group in schedule ==> group != []
    ensures effects.Keys == resources.Keys == Callables(input)
    ensures RowsAre(input, bound, maxIterations, effects, resources)
    ensures complete == CompleteRows(CallGraph(input), Summaries(input, bound, maxIterations))
    ensures forall c :: c in complete ==> ExactAt(input, bound, effects, resources, c)
  {
    hide RowsAre;
    effects, resources, complete := DeriveRows(input, bound, maxIterations, components, schedule);
    SettledRowsAre(input, bound, maxIterations, effects, resources, complete);
    forall c | c in complete ensures ExactAt(input, bound, effects, resources, c) {
      SettledIsExact(input, bound, maxIterations, Summaries(input, bound, maxIterations), effects, resources, complete,
                     c);
    }
  }
}
