/** Progress rows of the completeness census, and how they grow. */
module CensusTally {
  import opened Prelude

  datatype Family =
    | Dominator | PostDominator | ControlDependence
    | DataDependence
    | CallEdge | SccMembership | ReachablePair
    | CallableEffect | CallableResource | CallableSummary

  datatype Progress = Progress(requested: nat, completed: nat, remainder: nat, unknown: nat)

  type Tally = map<Family, Progress>

  function Accounted(p: Progress): nat {
    p.completed + p.remainder + p.unknown
  }

  predicate Conserved(p: Progress) {
    p.requested == Accounted(p)
  }

  predicate IsComplete(p: Progress) {
    p.requested == p.completed && p.remainder == 0 && p.unknown == 0
  }

  function Saturating(n: nat): nat {
    if n <= U64_MAX then n else U64_MAX
  }

  /** Every family has its row. */
  ghost predicate Total(t: Tally) {
    forall f: Family :: f in t
  }

  // Growth.

  /** Of `units` more units, `done` are completed and the others unknown. */
  datatype Delta = Delta(done: nat, units: nat)

  type Growth = Family -> Delta

  ghost predicate Accrued(t: Tally, t': Tally, more: Growth) {
    && Total(t) && Total(t')
    && forall f :: f in t ==>
         && t'[f].requested == t[f].requested && t'[f].remainder == t[f].remainder
         && t'[f].completed == t[f].completed + more(f).done
         && Accounted(t'[f]) == Accounted(t[f]) + more(f).units
  }

  function Plus(a: Growth, b: Growth): Growth {
    f => Delta(a(f).done + b(f).done, a(f).units + b(f).units)
  }

  function Only(g: Family, d: Delta): Growth {
    f => if f == g then d else Delta(0, 0)
  }

  /** The same growth in three families. */
  function Each(g: Family, h: Family, i: Family, d: Delta): Growth {
    f => if f == g || f == h || f == i then d else Delta(0, 0)
  }

  lemma NothingAccrued(t: Tally, none: Growth)
    requires Total(t) && forall f :: none(f) == Delta(0, 0)
    ensures Accrued(t, t, none)
  {
  }

  lemma AccruedTwice(t: Tally, t': Tally, t'': Tally, a: Growth, b: Growth)
    requires Accrued(t, t', a) && Accrued(t', t'', b)
    ensures Accrued(t, t'', Plus(a, b))
  {
  }

  lemma AccruedSame(t: Tally, t': Tally, a: Growth, b: Growth)
    requires Accrued(t, t', a) && forall f :: a(f) == b(f)
    ensures Accrued(t, t', b)
  {
  }

  lemma AccruedJoins(t: Tally, t': Tally, t'': Tally, a: Growth, b: Growth, c: Growth)
    requires Accrued(t, t', a) && Accrued(t', t'', b) && forall f :: c(f) == Plus(a, b)(f)
    ensures Accrued(t, t'', c)
  {
    AccruedTwice(t, t', t'', a, b);
    AccruedSame(t, t'', Plus(a, b), c);
  }

  lemma OneMore(t: Tally, f: Family, p: Progress, d: Delta)
    requires Total(t) && p.requested == t[f].requested && p.remainder == t[f].remainder
    requires p.completed == t[f].completed + d.done && Accounted(p) == Accounted(t[f]) + d.units
    ensures Total(t[f := p]) && Accrued(t, t[f := p], Only(f, d))
  {
  }

  lemma OnlyTwice(t: Tally, t': Tally, t'': Tally, f: Family, a: Delta, b: Delta)
    requires Accrued(t, t', Only(f, a)) && Accrued(t', t'', Only(f, b))
    ensures Accrued(t, t'', Only(f, Delta(a.done + b.done, a.units + b.units)))
  {
    hide Accrued;
    AccruedJoins(t, t', t'', Only(f, a), Only(f, b), Only(f, Delta(a.done + b.done, a.units + b.units)));
  }

  lemma ThreeFamilies(t: Tally, a: Tally, b: Tally, c: Tally, f: Family, g: Family, h: Family, d: Delta)
    requires f != g && g != h && f != h
    requires Accrued(t, a, Only(f, d)) && Accrued(a, b, Only(g, d)) && Accrued(b, c, Only(h, d))
    ensures Accrued(t, c, Each(f, g, h, d))
  {
    hide Accrued;
    var x, y, z := Only(f, d), Only(g, d), Only(h, d);
    AccruedTwice(t, a, b, x, y);
    AccruedJoins(t, b, c, Plus(x, y), z, Each(f, g, h, d));
  }

  lemma EachTwice(t: Tally, t': Tally, t'': Tally, f: Family, g: Family, h: Family, a: Delta, b: Delta)
    requires Accrued(t, t', Each(f, g, h, a)) && Accrued(t', t'', Each(f, g, h, b))
    ensures Accrued(t, t'', Each(f, g, h, Delta(a.done + b.done, a.units + b.units)))
  {
    hide Accrued;
    AccruedJoins(t, t', t'', Each(f, g, h, a), Each(f, g, h, b),
                 Each(f, g, h, Delta(a.done + b.done, a.units + b.units)));
  }

  // Balance.

  ghost predicate AllConserved(t: Tally) {
    Total(t) && forall f :: f in t ==> Conserved(t[f])
  }

  /** The row in which all units are accounted for. */
  function Filled(d: Delta): Progress
    requires d.done <= d.units
  {
    Progress(d.units, d.done, 0, d.units - d.done)
  }

  /** The listed families have fresh requests for all units of `more`; the others are as before. */
  ghost predicate Requested(t: Tally, asked: Tally, fs: set<Family>, more: Growth) {
    && Total(t) && Total(asked)
    && forall f :: f in asked ==>
         if f in fs then more(f).done <= more(f).units && asked[f] == Progress(more(f).units, 0, 0, 0)
         else more(f) == Delta(0, 0) && asked[f] == t[f]
  }

  /** The listed families have balanced rows for all units of `more`; the others are as before. */
  ghost predicate Balanced(t: Tally, t': Tally, fs: set<Family>, more: Growth) {
    && Total(t) && Total(t')
    && forall f :: f in t' ==>
         if f in fs then more(f).done <= more(f).units && t'[f] == Filled(more(f)) else t'[f] == t[f]
  }

  /** Everything requested of the listed families is unknown. */
  ghost predicate AllMissed(asked: Tally, t': Tally, fs: set<Family>) {
    && Total(asked) && Total(t')
    && forall f :: f in t' ==> t'[f] == if f in fs then asked[f].(unknown := asked[f].requested) else asked[f]
  }

  function Undone(g: Growth): Growth {
    f => Delta(0, g(f).units)
  }

  /** Fresh requests that grow by all their units end balanced. */
  lemma Settles(t: Tally, asked: Tally, t': Tally, fs: set<Family>, more: Growth)
    requires Requested(t, asked, fs, more) && Accrued(asked, t', more)
    ensures Balanced(t, t', fs, more)
  {
    forall f | f in t'
      ensures if f in fs then more(f).done <= more(f).units && t'[f] == Filled(more(f)) else t'[f] == t[f]
    {
      assert f in asked;
      assert Accounted(t'[f]) == Accounted(asked[f]) + more(f).units;
    }
  }

  lemma SettlesUndone(t: Tally, asked: Tally, t': Tally, fs: set<Family>, more: Growth)
    requires Requested(t, asked, fs, more) && AllMissed(asked, t', fs)
    ensures Balanced(t, t', fs, Undone(more))
  {
    forall f | f in t'
      ensures if f in fs then t'[f] == Filled(Undone(more)(f)) else t'[f] == t[f]
    {
      assert f in asked;
    }
  }

  // Gaps of the inputs.

  type Coverage = Progress

  datatype InputFamily = Cfg | DefUseReaching | CallTargets | LocalEffectResource

  predicate Feeds(i: InputFamily, f: Family) {
    match i
    case Cfg => f.Dominator? || f.PostDominator? || f.ControlDependence?
    case DefUseReaching => f.DataDependence?
    case CallTargets =>
      f.CallEdge? || f.SccMembership? || f.ReachablePair? || f.CallableEffect? || f.CallableResource?
          || f.CallableSummary?
    case LocalEffectResource => f.CallableEffect? || f.CallableResource? || f.CallableSummary?
  }

  function Fed(i: InputFamily): set<Family> {
    match i
    case Cfg => {Dominator, PostDominator, ControlDependence}
    case DefUseReaching => {DataDependence}
    case CallTargets => {CallEdge, SccMembership, ReachablePair, CallableEffect, CallableResource, CallableSummary}
    case LocalEffectResource => {CallableEffect, CallableResource, CallableSummary}
  }

  lemma FedExactly(i: InputFamily)
    ensures forall f :: f in Fed(i) <==> Feeds(i, f)
  {
  }

  lemma BalancedAt(t: Tally, t': Tally, i: InputFamily, more: Growth, f: Family)
    requires Balanced(t, t', Fed(i), more)
    ensures f in t && f in t'
    ensures if Feeds(i, f) then more(f).done <= more(f).units && t'[f] == Filled(more(f)) else t'[f] == t[f]
  {
    hide Fed, Feeds, Filled;
    FedExactly(i);
    assert f in t';
  }

  function Gap(c: Coverage): nat {
    c.remainder + c.unknown
  }

  function WithGap(p: Progress, c: Coverage): Progress {
    Progress(Saturating(p.requested + Saturating(c.remainder + c.unknown)), p.completed,
             Saturating(p.remainder + c.remainder), Saturating(p.unknown + c.unknown))
  }

  /** The part of an input's coverage that a family inherits. */
  function Inherited(i: InputFamily, c: Coverage, f: Family): Coverage {
    if Feeds(i, f) then c else Progress(0, 0, 0, 0)
  }

  /** The row with the open units of `c` requested on top. */
  function Raised(p: Progress, c: Coverage): Progress {
    Progress(p.requested + Gap(c), p.completed, p.remainder + c.remainder, p.unknown + c.unknown)
  }

  /** Saturating additions are exact as long as the requests stay below the limit. */
  lemma GapExact(p: Progress, c: Coverage)
    requires Conserved(p) && p.requested + Gap(c) <= U64_MAX
    ensures WithGap(p, c) == Raised(p, c) && Conserved(Raised(p, c))
  {
  }

  /** Beyond the limit the balance survives only if the whole saturated request is one kind of open unit. */
  lemma GapKeepsBalanceIff(p: Progress, c: Coverage)
    requires Conserved(p) && p.requested <= U64_MAX && Gap(c) <= U64_MAX
    ensures Conserved(WithGap(p, c)) <==>
            || p.requested + Gap(c) <= U64_MAX
            || (p.completed == 0 && (p.unknown + c.unknown == 0 || p.remainder + c.remainder == 0))
  {
  }

  /** The open units of `c` are requested on top of every listed family, and of no other. */
  ghost predicate RaisedIn(t: Tally, t': Tally, fs: set<Family>, c: Coverage) {
    Total(t) && Total(t') && forall f :: f in t' ==> t'[f] == if f in fs then Raised(t[f], c) else t[f]
  }

  lemma RaisedNext(t: Tally, t': Tally, fs: set<Family>, c: Coverage, f: Family)
    requires RaisedIn(t, t', fs, c) && f !in fs
    ensures f in t' && f in t && t'[f] == t[f] && RaisedIn(t, t'[f := Raised(t'[f], c)], fs + {f}, c)
  {
  }

  lemma NothingOpen(p: Progress, c: Coverage)
    requires Gap(c) == 0
    ensures Raised(p, c) == p
  {
  }

  lemma RaisedFed(t: Tally, t': Tally, i: InputFamily, c: Coverage, f: Family)
    requires RaisedIn(t, t', Fed(i), c)
    ensures f in t && f in t' && t'[f] == Raised(t[f], Inherited(i, c, f))
  {
    hide Fed, Feeds, Raised;
    FedExactly(i);
    assert f in t' && f in t;
    if f in Fed(i) {
      assert t'[f] == Raised(t[f], c);
    } else {
      NothingOpen(t[f], Inherited(i, c, f));
    }
  }

  lemma NoGap(p: Progress, i: InputFamily, c: Coverage, f: Family)
    requires Gap(c) == 0
    ensures Raised(p, Inherited(i, c, f)) == p
  {
  }

  // Gaps of several inputs.

  type Upstream = Family -> Coverage

  function Passing(i: InputFamily, c: Coverage): Upstream {
    f => Inherited(i, c, f)
  }

  function Both(a: Coverage, b: Coverage): Coverage {
    Progress(a.requested + b.requested, a.completed + b.completed, a.remainder + b.remainder, a.unknown + b.unknown)
  }

  function Together(g: Upstream, h: Upstream): Upstream {
    f => Both(g(f), h(f))
  }

  /** Every family's requests leave room for the open units it inherits and `spare` more. */
  ghost predicate Room(t: Tally, g: Upstream, spare: nat) {
    Total(t) && forall f :: f in t ==> t[f].requested + Gap(g(f)) + spare <= U64_MAX
  }

  /** Every family has the open units it inherits requested on top. */
  ghost predicate RaisedBy(t: Tally, t': Tally, g: Upstream) {
    Total(t) && Total(t') && forall f :: f in t' ==> t'[f] == Raised(t[f], g(f))
  }

  lemma RaisedTwice(p: Progress, a: Coverage, b: Coverage)
    ensures Raised(Raised(p, a), b) == Raised(p, Both(a, b)) && Gap(Both(a, b)) == Gap(a) + Gap(b)
    ensures Raised(p, a).requested == p.requested + Gap(a)
  {
  }

  lemma RaisedByTwice(t: Tally, t': Tally, t'': Tally, g: Upstream, h: Upstream)
    requires RaisedBy(t, t', g) && RaisedBy(t', t'', h)
    ensures RaisedBy(t, t'', Together(g, h))
  {
    hide Raised, Both;
    forall f | f in t'' ensures t''[f] == Raised(t[f], Together(g, h)(f)) {
      assert f in t' && f in t;
      RaisedTwice(t[f], g(f), h(f));
    }
  }

  lemma RoomForFirst(t: Tally, g: Upstream, h: Upstream, spare: nat)
    requires Room(t, Together(g, h), spare)
    ensures Room(t, g, spare)
  {
    forall f | f in t ensures t[f].requested + Gap(g(f)) + spare <= U64_MAX {
      assert Gap(Together(g, h)(f)) == Gap(g(f)) + Gap(h(f));
    }
  }

  lemma RoomForSecond(t: Tally, t': Tally, g: Upstream, h: Upstream, spare: nat)
    requires Room(t, Together(g, h), spare) && RaisedBy(t, t', g)
    ensures Room(t', h, spare)
  {
    forall f | f in t' ensures t'[f].requested + Gap(h(f)) + spare <= U64_MAX {
      assert f in t;
      assert Gap(Together(g, h)(f)) == Gap(g(f)) + Gap(h(f));
    }
  }
}
