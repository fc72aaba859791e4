/** From accepted calls and local semantics to completed callable summaries. */
module CallAnalysis {
  import opened Prelude
  import opened Digraph
  import opened FixedPoint
  import opened CallSummaries
  import opened SummaryConvergence

  datatype Resolution = Exact(callee: Id) | Dynamic(reason: Id) | Unknown(reason: Id)

  datatype CallSite = CallSite(site: Id, caller: Id, resolution: Resolution)

  datatype Local = Local(effects: set<Id>, resources: set<Id>)

  /** The call-related part of one analysis input; the flags say whether the execution coverage of
      call targets and of local semantics is complete. */
  datatype Input = Input(calls: seq<CallSite>, locals: map<Id, Local>, callCoverage: bool, localCoverage: bool)

  function Callables(input: Input): set<Id> {
    input.locals.Keys
    + (set k | k in input.calls :: k.caller)
    + (set k | k in input.calls && k.resolution.Exact? :: k.resolution.callee)
  }

  function CalleesIn(calls: seq<CallSite>, c: Id): set<Id> {
    set k | k in calls && k.caller == c && k.resolution.Exact? :: k.resolution.callee
  }

  function CallersIn(calls: seq<CallSite>, d: Id): set<Id> {
    set k | k in calls && k.resolution == Exact(d) :: k.caller
  }

  function CalleeMap(callables: set<Id>, calls: seq<CallSite>): Adjacency {
    map c | c in callables :: CalleesIn(calls, c)
  }

  function CallerMap(callables: set<Id>, calls: seq<CallSite>): Adjacency {
    map c | c in callables :: CallersIn(calls, c)
  }

  function CallGraph(input: Input): Adjacency {
    CalleeMap(Callables(input), input.calls)
  }

  lemma CallGraphClosed(input: Input)
    ensures Closed(CallGraph(input)) && CallGraph(input).Keys == Callables(input)
  {
  }

  ghost predicate HasUnresolvedCall(input: Input, c: Id) {
    exists k :: k in input.calls && k.caller == c && !k.resolution.Exact?
  }

  /** The local semantics of c are known and fit into one row. */
  ghost predicate LocalsFit(locals: map<Id, Local>, bound: nat, c: Id) {
    c in locals && |locals[c].effects| <= bound && |locals[c].resources| <= bound
  }

  /** c itself raises no doubt about its summary. */
  ghost predicate Clean(input: Input, bound: nat, c: Id) {
    && input.callCoverage && input.localCoverage
    && !HasUnresolvedCall(input, c)
    && !Recursive(CallGraph(input), c)
    && LocalsFit(input.locals, bound, c)
  }

  function SeedEffects(locals: map<Id, Local>, bound: nat, c: Id): set<Id> {
    if c in locals then Elements(First(locals[c].effects, bound)) else {}
  }

  function SeedResources(locals: map<Id, Local>, bound: nat, c: Id): set<Id> {
    if c in locals then Elements(First(locals[c].resources, bound)) else {}
  }

  /** The rows before the first round. */
  ghost function Seeds(input: Input, bound: nat): Table {
    map c | c in Callables(input) ::
      Row(SeedEffects(input.locals, bound, c), SeedResources(input.locals, bound, c), !Clean(input, bound, c))
  }

  ghost function Summaries(input: Input, bound: nat, maxIterations: nat): Outcome<Table>
    requires maxIterations >= 1
  {
    Run(CallGraph(input), Seeds(input, bound), bound, maxIterations)
  }

  /** The summary of c is emitted as complete. */
  ghost predicate Complete(input: Input, bound: nat, maxIterations: nat, c: Id)
    requires maxIterations >= 1
  {
    CompleteIn(CallGraph(input), Summaries(input, bound, maxIterations), c)
  }

  lemma {:induction false} ElementsSize(values: seq<Id>)
    ensures |Elements(values)| <= |values|
  {
    if values == [] {
      assert Elements(values) == {};
    } else {
      ElementsSize(values[1..]);
      assert Elements(values) == {values[0]} + Elements(values[1..]);
    }
  }

  lemma SeedsFitBound(input: Input, bound: nat)
    ensures Fits(Callables(input), Seeds(input, bound), bound)
  {
    forall c | c in Callables(input) ensures RowFits(Seeds(input, bound)[c], bound) {
      if c in input.locals {
        FirstMeaning(input.locals[c].effects, bound);
        FirstMeaning(input.locals[c].resources, bound);
        ElementsSize(First(input.locals[c].effects, bound));
        ElementsSize(First(input.locals[c].resources, bound));
      }
    }
  }

  lemma CleanSeedsExact(input: Input, bound: nat, c: Id)
    requires LocalsFit(input.locals, bound, c)
    ensures SeedEffects(input.locals, bound, c) == input.locals[c].effects
    ensures SeedResources(input.locals, bound, c) == input.locals[c].resources
  {
    FirstMeaning(input.locals[c].effects, bound);
    FirstMeaning(input.locals[c].resources, bound);
  }

  // What a complete summary promises.

  /** Every effect declared by a callable that c reaches. */
  ghost function ReachedEffects(input: Input, c: Id): set<Id> {
    set d, e | d in input.locals && Reaches(CallGraph(input), c, d) && e in input.locals[d].effects :: e
  }

  ghost function ReachedResources(input: Input, c: Id): set<Id> {
    set d, e | d in input.locals && Reaches(CallGraph(input), c, d) && e in input.locals[d].resources :: e
  }

  lemma ReachedFromSeeds(input: Input, bound: nat, c: Id)
    requires forall d :: Reaches(CallGraph(input), c, d) ==> LocalsFit(input.locals, bound, d)
    ensures Reached(CallGraph(input), Seeds(input, bound), c) ==
            Row(ReachedEffects(input, c), ReachedResources(input, c), false)
  {
    var g, t := CallGraph(input), Seeds(input, bound);
    var r := Reached(g, t, c);
    forall d | Reaches(g, c, d)
      ensures d in t && d in input.locals && t[d].effects == input.locals[d].effects
      ensures t[d].resources == input.locals[d].resources
    {
      CleanSeedsExact(input, bound, d);
    }
    forall e ensures e in r.effects <==> e in ReachedEffects(input, c) {}
    forall e ensures e in r.resources <==> e in ReachedResources(input, c) {}
  }

  /** Under any value bound and any iteration bound, a summary emitted as complete is exactly the
      union of the local semantics of everything reachable by exact calls, and nothing reachable
      has an unresolved call, missing or truncated local semantics, or recursion. */
  lemma CompleteSummaryIsExact(input: Input, bound: nat, maxIterations: nat, c: Id)
    requires maxIterations >= 1 && c in Callables(input) && Complete(input, bound, maxIterations, c)
    ensures c in Summaries(input, bound, maxIterations).table
    ensures Summaries(input, bound, maxIterations).table[c] ==
            Row(ReachedEffects(input, c), ReachedResources(input, c), false)
    ensures forall d :: Reaches(CallGraph(input), c, d) ==> Clean(input, bound, d)
  {
    var g, t := CallGraph(input), Seeds(input, bound);
    CallGraphClosed(input);
    SeedsFitBound(input, bound);
    ExactRows(g, t, bound, maxIterations, c);
    forall d | Reaches(g, c, d) ensures Clean(input, bound, d) {
      assert d in t && !t[d].incomplete;
    }
    ReachedFromSeeds(input, bound, c);
    ReachesSelf(g, c);
  }

  lemma SeedsMarkRecursion(input: Input, bound: nat)
    ensures RecursionMarked(CallGraph(input), Seeds(input, bound))
  {
    hide Recursive;
  }

  /** As many iterations as there are callables are enough for every input and every value bound. */
  lemma AlwaysConverges(input: Input, bound: nat, maxIterations: nat)
    requires maxIterations >= 1 && maxIterations >= |Callables(input)|
    ensures !Summaries(input, bound, maxIterations).exhausted
    ensures Summaries(input, bound, maxIterations).iterations <= |Callables(input)|
    ensures Callables(input) != {} ==> Summaries(input, bound, maxIterations).iterations >= 1
  {
    hide Seeds, Run, RecursionMarked, Callables;
    CallGraphClosed(input);
    assert |CallGraph(input)| == |CallGraph(input).Keys|;
    SeedsFitBound(input, bound);
    SeedsMarkRecursion(input, bound);
    EnoughIterations(CallGraph(input), Seeds(input, bound), bound, maxIterations);
  }

  lemma CleanMeansUnmarked(input: Input, bound: nat, c: Id)
    requires c in Callables(input)
    ensures (forall d :: Reaches(CallGraph(input), c, d) && d in Seeds(input, bound)
                         ==> !Seeds(input, bound)[d].incomplete) <==>
            forall d :: Reaches(CallGraph(input), c, d) ==> Clean(input, bound, d)
  {
    hide Clean;
    var g := CallGraph(input);
    CallGraphClosed(input);
    forall d | Reaches(g, c, d) ensures d in Seeds(input, bound) {
      var k: nat :| Within(g, c, d, k);
      WithinStaysInside(g, c, d, k);
    }
  }

  /** With that many iterations, a summary is complete exactly when everything it reaches is clean and all the effects
      and all the resources it reaches fit into one row. */
  lemma CompleteExactlyWhenClean(input: Input, bound: nat, maxIterations: nat, c: Id)
    requires maxIterations >= 1 && maxIterations >= |Callables(input)| && c in Callables(input)
    ensures Complete(input, bound, maxIterations, c) <==>
            && input.callCoverage && input.localCoverage
            && (forall k :: k in input.calls && Reaches(CallGraph(input), c, k.caller) ==> k.resolution.Exact?)
            && (forall d :: Reaches(CallGraph(input), c, d) ==>
                  !Recursive(CallGraph(input), d) && LocalsFit(input.locals, bound, d))
            && |ReachedEffects(input, c)| <= bound && |ReachedResources(input, c)| <= bound
  {
    hide Seeds, Run, RecursionMarked, Callables, Reaches, CompleteIn, Reached, ReachedEffects, ReachedResources;
    var g, t := CallGraph(input), Seeds(input, bound);
    CallGraphClosed(input);
    assert |g| == |g.Keys|;
    SeedsFitBound(input, bound);
    SeedsMarkRecursion(input, bound);
    CompleteIffReachedFits(g, t, bound, maxIterations, c);
    CleanMeansUnmarked(input, bound, c);
    if forall d :: Reaches(g, c, d) ==> Clean(input, bound, d) { ReachedFromSeeds(input, bound, c); }
    ReachesSelf(g, c);
  }

  // What every row holds, complete or not.

  /** Every effect declared by a callable at most k calls away from c. */
  ghost function EffectsWithin(input: Input, c: Id, k: nat): set<Id> {
    set d, e | d in input.locals && Within(CallGraph(input), c, d, k) && e in input.locals[d].effects :: e
  }

  ghost function ResourcesWithin(input: Input, c: Id, k: nat): set<Id> {
    set d, e | d in input.locals && Within(CallGraph(input), c, d, k) && e in input.locals[d].resources :: e
  }

  ghost predicate ReachedFits(input: Input, bound: nat, c: Id) {
    |ReachedEffects(input, c)| <= bound && |ReachedResources(input, c)| <= bound
  }

  /** Row c holds nothing but what c reaches, at most `bound` of it, among it the first of its own values; and if all
      that c reaches fits, exactly what is at most maxIterations calls away. */
  ghost predicate JustAt(input: Input, bound: nat, maxIterations: nat, c: Id, effects: set<Id>, resources: set<Id>) {
    && effects <= ReachedEffects(input, c) && resources <= ReachedResources(input, c)
    && |effects| <= bound && |resources| <= bound
    && (c in input.locals ==> Elements(First(input.locals[c].effects, bound)) <= effects)
    && (c in input.locals ==> Elements(First(input.locals[c].resources, bound)) <= resources)
    && (ReachedFits(input, bound, c) ==>
          effects == EffectsWithin(input, c, maxIterations) && resources == ResourcesWithin(input, c, maxIterations))
  }

  lemma SeedsWithinReached(input: Input, bound: nat, c: Id)
    requires c in Callables(input)
    ensures ValuesWithin(Reached(CallGraph(input), Seeds(input, bound), c),
                         Row(ReachedEffects(input, c), ReachedResources(input, c), false))
  {
    var g, t := CallGraph(input), Seeds(input, bound);
    var r := Row(ReachedEffects(input, c), ReachedResources(input, c), false);
    forall d | Reaches(g, c, d) && d in t ensures ValuesWithin(t[d], r) {
      if d in input.locals {
        FirstMeaning(input.locals[d].effects, bound);
        FirstMeaning(input.locals[d].resources, bound);
      }
    }
    ReachedLeast(g, t, c, r);
  }

  lemma ReachedLocalsFit(input: Input, bound: nat, c: Id, d: Id)
    requires ReachedFits(input, bound, c) && Reaches(CallGraph(input), c, d) && d in input.locals
    ensures LocalsFit(input.locals, bound, d)
  {
    hide Reaches;
    forall e | e in input.locals[d].effects ensures e in ReachedEffects(input, c) {}
    forall e | e in input.locals[d].resources ensures e in ReachedResources(input, c) {}
    Proper(input.locals[d].effects, ReachedEffects(input, c));
    Proper(input.locals[d].resources, ReachedResources(input, c));
  }

  /** Where everything fits, the seeds within k calls are the locals within k calls. */
  lemma SeedsAreLocals(input: Input, bound: nat, c: Id, k: nat)
    requires ReachedFits(input, bound, c)
    ensures var r := SeedsWithin(CallGraph(input), Seeds(input, bound), c, k);
            r.effects == EffectsWithin(input, c, k) && r.resources == ResourcesWithin(input, c, k)
  {
    var g, t := CallGraph(input), Seeds(input, bound);
    forall d | Within(g, c, d, k) && d in input.locals
      ensures d in t && t[d].effects == input.locals[d].effects && t[d].resources == input.locals[d].resources
    {
      ReachedLocalsFit(input, bound, c, d);
      CleanSeedsExact(input, bound, d);
    }
    var r := SeedsWithin(g, t, c, k);
    forall e ensures e in r.effects <==> e in EffectsWithin(input, c, k) {}
    forall e ensures e in r.resources <==> e in ResourcesWithin(input, c, k) {}
  }

  lemma RowsFitWhenReachedFits(input: Input, bound: nat, c: Id)
    requires c in Callables(input) && ReachedFits(input, bound, c)
    ensures RowFits(Reached(CallGraph(input), Seeds(input, bound), c), bound)
  {
    hide Reached, ReachedEffects, ReachedResources;
    SeedsWithinReached(input, bound, c);
    var r := Reached(CallGraph(input), Seeds(input, bound), c);
    Proper(r.effects, ReachedEffects(input, c));
    Proper(r.resources, ReachedResources(input, c));
  }

  /** Every row of every run is just, whether or not it is complete and whether or not the run converges. */
  lemma EveryRowIsJust(input: Input, bound: nat, maxIterations: nat, c: Id)
    requires maxIterations >= 1 && c in Callables(input)
    ensures c in Summaries(input, bound, maxIterations).table
    ensures var row := Summaries(input, bound, maxIterations).table[c];
            JustAt(input, bound, maxIterations, c, row.effects, row.resources)
  {
    hide Run, Reached, ReachedEffects, ReachedResources, EffectsWithin, ResourcesWithin, SeedsWithin, Round;
    var g, t := CallGraph(input), Seeds(input, bound);
    CallGraphClosed(input);
    SeedsFitBound(input, bound);
    RunIsIterate(g, t, bound, maxIterations);
    IterateMeaning(g, t, bound, maxIterations);
    NothingInvented(g, t, bound, maxIterations);
    SeedsWithinReached(input, bound, c);
    if ReachedFits(input, bound, c) {
      RowsFitWhenReachedFits(input, bound, c);
      RoundsCountEdges(g, t, bound, c, maxIterations);
      SeedsAreLocals(input, bound, c, maxIterations);
    }
  }

  /** A run that has converged is the same after any number of further rounds. */
  lemma SettledForGood(input: Input, bound: nat, maxIterations: nat, k: nat)
    requires maxIterations >= 1 && maxIterations >= |Callables(input)| && k >= maxIterations
    ensures Summaries(input, bound, k).table == Summaries(input, bound, maxIterations).table
  {
    hide Round;
    var g, t := CallGraph(input), Seeds(input, bound);
    SeedsFitBound(input, bound);
    AlwaysConverges(input, bound, maxIterations);
    RunFixed(g, t, bound, maxIterations);
    RunIsIterate(g, t, bound, maxIterations);
    RunIsIterate(g, t, bound, k);
    StableForever(Step(g, bound), t, maxIterations, k);
  }

  /** With as many iterations as callables, every row whose values fit holds all that it reaches, complete or not. */
  lemma RowsReachAll(input: Input, bound: nat, maxIterations: nat, c: Id)
    requires maxIterations >= 1 && maxIterations >= |Callables(input)| && c in Callables(input)
    requires ReachedFits(input, bound, c)
    ensures c in Summaries(input, bound, maxIterations).table
    ensures var row := Summaries(input, bound, maxIterations).table[c];
            row.effects == ReachedEffects(input, c) && row.resources == ReachedResources(input, c)
  {
    hide Summaries, Callables;
    EveryRowIsJust(input, bound, maxIterations, c);
    var row := Summaries(input, bound, maxIterations).table[c];
    forall e | e in ReachedEffects(input, c) ensures e in row.effects {
      var d :| d in input.locals && Reaches(CallGraph(input), c, d) && e in input.locals[d].effects;
      var k: nat :| Within(CallGraph(input), c, d, k);
      RowsReach(input, bound, maxIterations, c, d, k);
      assert e in EffectsWithin(input, c, maxIterations + k);
    }
    forall e | e in ReachedResources(input, c) ensures e in row.resources {
      var d :| d in input.locals && Reaches(CallGraph(input), c, d) && e in input.locals[d].resources;
      var k: nat :| Within(CallGraph(input), c, d, k);
      RowsReach(input, bound, maxIterations, c, d, k);
      assert e in ResourcesWithin(input, c, maxIterations + k);
    }
  }

  lemma RowsReach(input: Input, bound: nat, maxIterations: nat, c: Id, d: Id, k: nat)
    requires maxIterations >= 1 && maxIterations >= |Callables(input)| && c in Callables(input)
    requires ReachedFits(input, bound, c) && Within(CallGraph(input), c, d, k)
    ensures Within(CallGraph(input), c, d, maxIterations + k)
    ensures c in Summaries(input, bound, maxIterations).table
    ensures var row := Summaries(input, bound, maxIterations).table[c];
            && row.effects == EffectsWithin(input, c, maxIterations + k)
            && row.resources == ResourcesWithin(input, c, maxIterations + k)
  {
    hide Summaries, EffectsWithin, ResourcesWithin, Callables, ReachedFits, ReachedEffects, ReachedResources;
    WithinGrows(CallGraph(input), c, d, k, maxIterations + k);
    SettledForGood(input, bound, maxIterations, maxIterations + k);
    EveryRowIsJust(input, bound, maxIterations + k, c);
  }

  /** At convergence a row holds all that the row of a callee holds, or is full. */
  lemma CalleesHeldUnlessFull(input: Input, bound: nat, maxIterations: nat, c: Id, d: Id)
    requires maxIterations >= 1 && maxIterations >= |Callables(input)| && c in Callables(input)
    requires d in Successors(CallGraph(input), c)
    ensures c in Summaries(input, bound, maxIterations).table && d in Summaries(input, bound, maxIterations).table
    ensures var rows := Summaries(input, bound, maxIterations).table;
            && (rows[d].effects <= rows[c].effects || |rows[c].effects| == bound)
            && (rows[d].resources <= rows[c].resources || |rows[c].resources| == bound)
  {
    hide Run, AbsorbCallees;
    var g, t := CallGraph(input), Seeds(input, bound);
    CallGraphClosed(input);
    SeedsFitBound(input, bound);
    AlwaysConverges(input, bound, maxIterations);
    RunFixed(g, t, bound, maxIterations);
    var u := Summaries(input, bound, maxIterations).table;
    AscendingMeaning(Successors(g, c));
    CalleesHeldOrFull(u[c], Ascending(Successors(g, c)), u, bound, d, true);
    CalleesHeldOrFull(u[c], Ascending(Successors(g, c)), u, bound, d, false);
  }

  // What a local change can move.

  /** The inputs differ at most in the local effects and resources of callable x. */
  ghost predicate DifferOnlyAt(a: Input, b: Input, x: Id) {
    && a.calls == b.calls && a.callCoverage == b.callCoverage && a.localCoverage == b.localCoverage
    && a.locals.Keys == b.locals.Keys
    && forall c :: c in a.locals && c != x ==> a.locals[c] == b.locals[c]
  }

  lemma SeedsDifferOnlyAt(a: Input, b: Input, bound: nat, x: Id, c: Id)
    requires DifferOnlyAt(a, b, x) && c != x
    ensures CallGraph(a) == CallGraph(b)
    ensures SameRow(Seeds(a, bound), Seeds(b, bound), c)
  {
  }

  /** The callables that a change of x invalidates: x and its transitive callers. */
  ghost function Affected(g: Adjacency, x: Id): set<Id> {
    {x} + TransitiveCallers(g, {x})
  }

  lemma CallersAreAffected(g: Adjacency, x: Id, c: Id)
    requires Reaches(g, c, x)
    ensures c in Affected(g, x)
  {
    if c != x {
      var d := ReachesFirstEdge(g, c, x);
      assert ReachesSome(g, c, {x});
    }
  }

  /** Every callable outside the transitive callers of x keeps its effects and its resources when only the local
      semantics of x change, whether or not the runs converge; and its completeness if both converge or neither. */
  lemma InvalidationIsSound(a: Input, b: Input, bound: nat, maxIterations: nat, x: Id, c: Id)
    requires DifferOnlyAt(a, b, x) && maxIterations >= 1 && c !in Affected(CallGraph(a), x)
    ensures CallGraph(a) == CallGraph(b)
    ensures SameRow(Summaries(a, bound, maxIterations).table, Summaries(b, bound, maxIterations).table, c)
    ensures RowsComplete(CallGraph(a), Summaries(a, bound, maxIterations), c) <==>
            RowsComplete(CallGraph(b), Summaries(b, bound, maxIterations), c)
    ensures Summaries(a, bound, maxIterations).exhausted == Summaries(b, bound, maxIterations).exhausted ==>
              (Complete(a, bound, maxIterations, c) <==> Complete(b, bound, maxIterations, c))
  {
    hide Run;
    var g := CallGraph(a);
    SeedsDifferOnlyAt(a, b, bound, x, Id(x.rank + 1));
    forall d | !Reaches(g, d, x) ensures SameRow(Seeds(a, bound), Seeds(b, bound), d) {
      ReachesSelf(g, x);
      SeedsDifferOnlyAt(a, b, bound, x, d);
    }
    if Reaches(g, c, x) { CallersAreAffected(g, x, c); }
    RunsAgree(g, x, Seeds(a, bound), Seeds(b, bound), bound, maxIterations, c);
  }

  /** An unaffected callable keeps its completeness exactly if both runs converge, or neither does, or it reaches a row
      that is incomplete anyway: exhaustion makes every summary incomplete, listed or not. */
  lemma UnaffectedKeepsCompletenessIff(a: Input, b: Input, bound: nat, maxIterations: nat, x: Id, c: Id)
    requires DifferOnlyAt(a, b, x) && maxIterations >= 1 && c !in Affected(CallGraph(a), x)
    ensures (Complete(a, bound, maxIterations, c) <==> Complete(b, bound, maxIterations, c)) <==>
            || Summaries(a, bound, maxIterations).exhausted == Summaries(b, bound, maxIterations).exhausted
            || !RowsComplete(CallGraph(a), Summaries(a, bound, maxIterations), c)
  {
    hide Summaries, CallGraph, Affected;
    InvalidationIsSound(a, b, bound, maxIterations, x, c);
  }

  /** With as many iterations as callables, invalidation misses nothing. */
  lemma InvalidationIsCompleteWithin(a: Input, b: Input, bound: nat, maxIterations: nat, x: Id, c: Id)
    requires DifferOnlyAt(a, b, x) && c !in Affected(CallGraph(a), x)
    requires maxIterations >= 1 && maxIterations >= |Callables(a)|
    ensures SameRow(Summaries(a, bound, maxIterations).table, Summaries(b, bound, maxIterations).table, c)
    ensures Complete(a, bound, maxIterations, c) <==> Complete(b, bound, maxIterations, c)
  {
    hide Summaries, Callables, Affected, Complete;
    InvalidationIsSound(a, b, bound, maxIterations, x, c);
    SameCallables(a, b, x);
    AlwaysConverges(a, bound, maxIterations);
    AlwaysConverges(b, bound, maxIterations);
  }

  lemma SameCallables(a: Input, b: Input, x: Id)
    requires DifferOnlyAt(a, b, x)
    ensures Callables(a) == Callables(b)
  {
  }

  /** y calls x and z stands alone; x has the given effects. */
  function ChainAndLoner(effects: set<Id>): Input {
    Input([CallSite(Id(9), Id(1), Exact(Id(0)))],
          map[Id(0) := Local(effects, {}), Id(1) := Local({}, {}), Id(2) := Local({}, {})], true, true)
  }

  lemma ChainAndLonerGraph(effects: set<Id>)
    ensures CallGraph(ChainAndLoner(effects)) == map[Id(0) := {}, Id(1) := {Id(0)}, Id(2) := {}]
  {
    var input := ChainAndLoner(effects);
    assert input.calls[0] in input.calls;
    assert Callables(input) == {Id(0), Id(1), Id(2)};
    assert CalleesIn(input.calls, Id(0)) == {} && CalleesIn(input.calls, Id(2)) == {};
    assert CalleesIn(input.calls, Id(1)) == {Id(0)};
  }

  lemma NoWayOut(g: Adjacency, c: Id, d: Id)
    requires Reaches(g, c, d) && Successors(g, c) == {}
    ensures c == d
  {
    if c != d { var x := ReachesFirstEdge(g, c, d); }
  }

  lemma ChainAndLonerClean(effects: set<Id>, c: Id)
    requires |effects| <= 1 && c in {Id(0), Id(1), Id(2)}
    ensures Clean(ChainAndLoner(effects), 1, c)
  {
    var input := ChainAndLoner(effects);
    var g := CallGraph(input);
    ChainAndLonerGraph(effects);
    assert !Recursive(g, c) by {
      if d :| d in Successors(g, c) && Reaches(g, d, c) { NoWayOut(g, d, c); }
    }
  }

  lemma OneRoundRun(g: Adjacency, t: Table, bound: nat, c: Id)
    requires c in t
    ensures Run(g, t, bound, 1) == Outcome(Round(g, t, bound), Round(g, t, bound) != t, 1)
  {
    assert t != map[];
    assert Step(g, bound)(t) == Round(g, t, bound);
  }

  lemma QuietCallees(callees: seq<Id>, t: Table, bound: nat)
    requires forall c :: c in t ==> t[c] == Row({}, {}, false)
    ensures AbsorbCallees(Row({}, {}, false), callees, t, bound) == Row({}, {}, false)
  {
    UntruncatedIsJoined(Row({}, {}, false), callees, t, bound, Row({}, {}, false));
    JoinedBelow(Row({}, {}, false), callees, t, Row({}, {}, false));
  }

  lemma QuietTableSettled(g: Adjacency, t: Table, bound: nat)
    requires forall c :: c in t ==> t[c] == Row({}, {}, false)
    ensures Round(g, t, bound) == t
  {
    forall c | c in t ensures AbsorbCallees(t[c], Ascending(Successors(g, c)), t, bound) == t[c] {
      QuietCallees(Ascending(Successors(g, c)), t, bound);
    }
  }

  lemma QuietChainSeed(c: Id)
    requires c in {Id(0), Id(1), Id(2)}
    ensures SeedEffects(ChainAndLoner({}).locals, 1, c) == {} && SeedResources(ChainAndLoner({}).locals, 1, c) == {}
  {
    FirstMeaning({}, 1);
  }

  lemma QuietChainSeeds()
    ensures Seeds(ChainAndLoner({}), 1).Keys == {Id(0), Id(1), Id(2)}
    ensures forall c :: c in Seeds(ChainAndLoner({}), 1) ==> Seeds(ChainAndLoner({}), 1)[c] == Row({}, {}, false)
  {
    ChainAndLonerGraph({});
    CallGraphClosed(ChainAndLoner({}));
    forall c | c in {Id(0), Id(1), Id(2)} ensures Seeds(ChainAndLoner({}), 1)[c] == Row({}, {}, false) {
      ChainAndLonerClean({}, c);
      QuietChainSeed(c);
    }
  }

  lemma QuietChainConverges()
    ensures Complete(ChainAndLoner({}), 1, 1, Id(2))
  {
    var a := ChainAndLoner({});
    var g, t := CallGraph(a), Seeds(a, 1);
    CallGraphClosed(a);
    QuietChainSeeds();
    QuietTableSettled(g, t, 1);
    OneRoundRun(g, t, 1, Id(2));
  }

  lemma LoudChainExhausts()
    ensures Summaries(ChainAndLoner({Id(7)}), 1, 1).exhausted
  {
    var b := ChainAndLoner({Id(7)});
    var g, t := CallGraph(b), Seeds(b, 1);
    ChainAndLonerGraph({Id(7)});
    CallGraphClosed(b);
    SeedsFitBound(b, 1);
    ChainAndLonerClean({Id(7)}, Id(1));
    CleanSeedsExact(b, 1, Id(0));
    CleanSeedsExact(b, 1, Id(1));
    assert t[Id(0)].effects == {Id(7)} && t[Id(1)] == Row({}, {}, false);
    MissingCalleeValueChanges(g, t, 1, Id(1), Id(0), Id(7));
    OneRoundRun(g, t, 1, Id(2));
  }

  lemma MissingCalleeValueChanges(g: Adjacency, t: Table, bound: nat, c: Id, d: Id, e: Id)
    requires Fits(t.Keys, t, bound) && c in t && d in t && d in Successors(g, c)
    requires e in t[d].effects && e !in t[c].effects && !t[c].incomplete
    ensures Round(g, t, bound) != t
  {
    AscendingMeaning(Successors(g, c));
    AbsorbCalleesMeaning(t[c], Ascending(Successors(g, c)), t, bound);
    var r := Round(g, t, bound)[c];
    assert !r.incomplete ==> RowLe(t[d], r);
  }

  lemma LonerUnaffected()
    ensures DifferOnlyAt(ChainAndLoner({}), ChainAndLoner({Id(7)}), Id(0))
    ensures Id(2) !in Affected(CallGraph(ChainAndLoner({})), Id(0))
  {
    var g := CallGraph(ChainAndLoner({}));
    ChainAndLonerGraph({});
    if Reaches(g, Id(2), Id(0)) { NoWayOut(g, Id(2), Id(0)); }
  }

  /** Exhaustion does reach unaffected callables: giving x an effect exhausts a one-round run, and the
      summary of the unrelated callable z turns incomplete although z is not affected. */
  lemma ExhaustionEscapesInvalidation()
    ensures DifferOnlyAt(ChainAndLoner({}), ChainAndLoner({Id(7)}), Id(0))
    ensures Id(2) !in Affected(CallGraph(ChainAndLoner({})), Id(0))
    ensures Complete(ChainAndLoner({}), 1, 1, Id(2)) && !Complete(ChainAndLoner({Id(7)}), 1, 1, Id(2))
  {
    LonerUnaffected();
    QuietChainConverges();
    LoudChainExhausts();
  }
}
