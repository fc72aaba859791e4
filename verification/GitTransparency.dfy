/** Every plan stems from a scan of the state it names, so the cache changes no plan that scanning would confirm. */
module GitTransparency {
  import opened Prelude
  import opened Bytes
  import opened GitPayload
  import opened GitVector
  import opened GitTable
  import opened GitCache
  import opened GitPlanner
  import opened GitPlans

  // Turns.

  datatype Turn = Turn(request: Request, world: World)

  /** The turn opens the worktree, captures its state and looks for candidates. */
  predicate Looks(t: Turn) {
    Settled(t.request, t.world).None?
  }

  function Start(t: Turn): Vector
    requires Looks(t)
  {
    t.world.before.value
  }

  function Topology(t: Turn): Bytes
    requires Looks(t)
  {
    t.world.open.value.topology
  }

  function ModeIn(t: Turn): Mode
    requires Looks(t)
  {
    ModeOf(t.request, Start(t))
  }

  function ScanIn(t: Turn): Result<CandidateSet, Plan>
    requires Looks(t)
  {
    Scan(t.request, t.world, Start(t))
  }

  /** The scan of the turn succeeds, whether or not its plan stands. */
  predicate Computes(t: Turn) {
    Looks(t) && ScanIn(t).Ok?
  }

  function Computed(t: Turn): CandidateSet
    requires Computes(t)
  {
    ScanIn(t).value
  }

  function KeyIn(digest: Vector -> Bytes, t: Turn, v: Vector): Key
    requires Looks(t)
  {
    KeyFor(digest, t.request.workspace, v, Topology(t), ModeIn(t))
  }

  // Where cached entries come from.

  /** What x computed is kept under the key that t looks up. */
  predicate Supplies(digest: Vector -> Bytes, x: Turn, t: Turn) {
    Computes(x) && Looks(t) && KeyIn(digest, x, Computed(x).vector) == KeyIn(digest, t, Start(t))
  }

  /** Some turn computed these candidates for the key. */
  ghost predicate Stems(digest: Vector -> Bytes, all: seq<Turn>, key: Key, cs: Candidates) {
    exists x :: x in all && Computes(x) && KeyIn(digest, x, Computed(x).vector) == key && Computed(x).candidates == cs
  }

  /** Unless its digest gives it away as damaged, a payload holds what some turn computed for its key. */
  ghost predicate HonestPayload(digest: Vector -> Bytes, hash: Bytes -> Bytes, all: seq<Turn>, key: Key, payload: Bytes,
                                check: Bytes) {
    hash(payload) == check ==> exists cs :: EncodePayload(cs) == Ok(payload) && Stems(digest, all, key, cs)
  }

  ghost predicate HonestEntry(digest: Vector -> Bytes, hash: Bytes -> Bytes, all: seq<Turn>, e: Entry) {
    HonestPayload(digest, hash, all, e.key, e.payload, e.digest)
  }

  ghost predicate HonestList(digest: Vector -> Bytes, hash: Bytes -> Bytes, all: seq<Turn>, l1: seq<Entry>) {
    forall i :: 0 <= i < |l1| ==> HonestEntry(digest, hash, all, l1[i])
  }

  ghost predicate HonestTable(digest: Vector -> Bytes, hash: Bytes -> Bytes, all: seq<Turn>, table: Table) {
    forall k :: k in table ==> HonestPayload(digest, hash, all, k, table[k].payload, table[k].digest)
  }

  /** Both tiers hold only what these turns computed, or detectable damage. */
  ghost predicate Honest(digest: Vector -> Bytes, hash: Bytes -> Bytes, all: seq<Turn>, tiers: Tiers) {
    HonestList(digest, hash, all, tiers.l1) && HonestTable(digest, hash, all, tiers.table)
  }

  lemma HonestMore(digest: Vector -> Bytes, hash: Bytes -> Bytes, past: seq<Turn>, more: seq<Turn>, tiers: Tiers)
    requires Honest(digest, hash, past, tiers)
    ensures Honest(digest, hash, past + more, tiers)
  {
    hide Looks, Computed, KeyIn;
    forall key, cs | Stems(digest, past, key, cs) ensures Stems(digest, past + more, key, cs) {
      var x :| x in past && Computes(x) && KeyIn(digest, x, Computed(x).vector) == key && Computed(x).candidates == cs;
      assert x in past + more;
    }
    hide Stems;
  }

  lemma HonestTouch(digest: Vector -> Bytes, hash: Bytes -> Bytes, all: seq<Turn>, l1: seq<Entry>, e: Entry)
    requires HonestList(digest, hash, all, l1) && HonestEntry(digest, hash, all, e)
    ensures HonestList(digest, hash, all, Touch(l1, e))
  {
    hide HonestEntry, Position;
  }

  lemma HonestNewest(digest: Vector -> Bytes, hash: Bytes -> Bytes, all: seq<Turn>, n: nat, l1: seq<Entry>)
    requires HonestList(digest, hash, all, l1)
    ensures HonestList(digest, hash, all, Newest(n, l1))
  {
    hide HonestEntry;
  }

  /** A verified honest entry is what some turn computed. */
  lemma HonestVerified(digest: Vector -> Bytes, hash: Bytes -> Bytes, all: seq<Turn>, e: Entry, v: Vector)
    requires HonestEntry(digest, hash, all, e) && Verified(hash, e, v).Some?
    ensures Verified(hash, e, v).value.vector == v
    ensures Stems(digest, all, e.key, Verified(hash, e, v).value.candidates)
  {
    hide DecodePayload, EncodePayload, Stems;
    var cs :| EncodePayload(cs) == Ok(e.payload) && Stems(digest, all, e.key, cs);
    DecodeOfEncode(cs, e.payload);
  }

  /** A hit, from either tier, is what some turn computed. */
  lemma HonestLookup(digest: Vector -> Bytes, hash: Bytes -> Bytes, all: seq<Turn>, n: nat, l1: seq<Entry>,
                     reader: Option<Table>, key: Key, v: Vector)
    requires HonestList(digest, hash, all, l1)
    requires reader.Some? ==> HonestTable(digest, hash, all, reader.value)
    ensures var (l1', found) := Lookup(digest, hash, n, l1, reader, key, v);
            && HonestList(digest, hash, all, l1')
            && (found.Some? ==> found.value.vector == v && Stems(digest, all, key, found.value.candidates))
  {
    hide Touch, Position, Verified, Newest, HonestPayload, Stems;
    var i := Position(l1, key);
    if Fenced(digest, key, v) {
      if i >= 0 {
        var e := l1[i];
        assert HonestEntry(digest, hash, all, e);
        HonestTouch(digest, hash, all, l1, e);
        if Verified(hash, e, v).Some? { HonestVerified(digest, hash, all, e, v); }
      } else if Below(reader, key).Some? {
        var e := Below(reader, key).value;
        assert HonestEntry(digest, hash, all, e);
        HonestTouch(digest, hash, all, l1, e);
        HonestNewest(digest, hash, all, n, Touch(l1, e));
        if Verified(hash, e, v).Some? { HonestVerified(digest, hash, all, e, v); }
      }
    }
  }

  /** Candidates as a turn computed them make an honest entry. */
  lemma HonestFresh(digest: Vector -> Bytes, hash: Bytes -> Bytes, all: seq<Turn>, key: Key, s: CandidateSet)
    requires Stems(digest, all, key, s.candidates) && EntryFor(digest, hash, key, s).Ok?
    ensures HonestEntry(digest, hash, all, EntryFor(digest, hash, key, s).value)
    ensures EntryFor(digest, hash, key, s).value.key == key
  {
    hide EncodePayload, Stems;
  }

  lemma HonestInserted(digest: Vector -> Bytes, hash: Bytes -> Bytes, all: seq<Turn>, table: Table, key: Key,
                       row: Stored, max: nat)
    requires HonestTable(digest, hash, all, table)
    requires HonestPayload(digest, hash, all, key, row.payload, row.digest)
    ensures HonestTable(digest, hash, all, Inserted(table, key, row, max))
  {
    hide HonestPayload, Survives;
  }

  lemma HonestWritten(digest: Vector -> Bytes, hash: Bytes -> Bytes, all: seq<Turn>, n: nat, max: nat, tiers: Tiers,
                      q: Request, w: World, key: Key, s: CandidateSet)
    requires Honest(digest, hash, all, tiers) && Stems(digest, all, key, s.candidates)
    ensures Honest(digest, hash, all, Written(digest, hash, n, max, tiers, q, w, key, s))
  {
    hide Touch, Newest, EntryFor, HonestList, HonestTable, HonestPayload, Inserted, Stems;
    if EntryFor(digest, hash, key, s).Ok? {
      var e := EntryFor(digest, hash, key, s).value;
      HonestFresh(digest, hash, all, key, s);
      HonestTouch(digest, hash, all, tiers.l1, e);
      HonestNewest(digest, hash, all, n, Touch(tiers.l1, e));
      HonestInserted(digest, hash, all, tiers.table, key, Stored(e.payload, e.digest, q.generation), max);
    }
  }

  // One turn.

  /** The plan that t makes of the candidates of x. */
  function Reusing(x: Turn, t: Turn): Plan
    requires Computes(x) && Looks(t)
  {
    Finish(t.request, t.world, t.world.open.value, Start(t), CandidateSet(Computed(x).candidates, Start(t)), true)
  }

  /** The plan is the one made without the cache, or reuses what one of these turns computed for its key. */
  ghost predicate PlanStems(digest: Vector -> Bytes, all: seq<Turn>, t: Turn, plan: Plan) {
    || plan == PlanWithoutCache(t.request, t.world)
    || exists x :: x in all && Supplies(digest, x, t) && plan == Reusing(x, t)
  }

  lemma TurnStems(digest: Vector -> Bytes, hash: Bytes -> Bytes, all: seq<Turn>, n: nat, max: nat, tiers: Tiers,
                  t: Turn)
    requires Honest(digest, hash, all, tiers)
    ensures PlanStems(digest, all, t, PlanWithCache(digest, hash, n, max, tiers, t.request, t.world).0)
  {
    hide HonestList, HonestTable, Lookup, Written, Scan, PathsOf, HeadMoved, Finish;
    var q, w := t.request, t.world;
    if Looks(t) && q.fenceVerified {
      var key, reader := KeyIn(digest, t, Start(t)), Reader(w, tiers.table);
      HonestLookup(digest, hash, all, n, tiers.l1, reader, key, Start(t));
      var (l1, found) := Lookup(digest, hash, n, tiers.l1, reader, key, Start(t));
      if found.Some? {
        var cs := found.value.candidates;
        var x :| x in all && Computes(x) && KeyIn(digest, x, Computed(x).vector) == key
                 && Computed(x).candidates == cs;
        assert Supplies(digest, x, t);
        assert found.value == CandidateSet(cs, Start(t));
      }
    }
  }

  lemma TurnKeepsHonest(digest: Vector -> Bytes, hash: Bytes -> Bytes, all: seq<Turn>, n: nat, max: nat, tiers: Tiers,
                        t: Turn)
    requires Honest(digest, hash, all, tiers) && t in all
    ensures Honest(digest, hash, all, PlanWithCache(digest, hash, n, max, tiers, t.request, t.world).1)
  {
    hide HonestList, HonestTable, Lookup, Written, Scan, PathsOf, HeadMoved, Finish, HonestPayload, Stems;
    var q, w := t.request, t.world;
    if Looks(t) {
      var key, reader := KeyIn(digest, t, Start(t)), Reader(w, tiers.table);
      HonestLookup(digest, hash, all, n, tiers.l1, reader, key, Start(t));
      var l1 := if q.fenceVerified then Lookup(digest, hash, n, tiers.l1, reader, key, Start(t)).0 else tiers.l1;
      if Computes(t) {
        var key', s := KeyIn(digest, t, Computed(t).vector), Computed(t);
        OwnStems(digest, all, t);
        HonestWritten(digest, hash, all, n, max, Tiers(l1, tiers.table), q, w, key', s);
      }
    }
  }

  lemma OwnStems(digest: Vector -> Bytes, all: seq<Turn>, t: Turn)
    requires t in all && Computes(t)
    ensures Stems(digest, all, KeyIn(digest, t, Computed(t).vector), Computed(t).candidates)
  {
  }

  // Whole runs.

  /** The plans of a run; the cache has capacity n in memory and max rows per workspace in the table. */
  function PlansWithCache(digest: Vector -> Bytes, hash: Bytes -> Bytes, n: nat, max: nat, tiers: Tiers,
                          ts: seq<Turn>): (r: seq<Plan>)
    ensures |r| == |ts|
    decreases |ts|
  {
    if ts == [] then []
    else
      var (plan, tiers') := PlanWithCache(digest, hash, n, max, tiers, ts[0].request, ts[0].world);
      [plan] + PlansWithCache(digest, hash, n, max, tiers', ts[1..])
  }

  lemma {:induction false} PlanAt(digest: Vector -> Bytes, hash: Bytes -> Bytes, n: nat, max: nat, tiers: Tiers,
                                  ts: seq<Turn>, i: nat)
    requires i < |ts|
    ensures PlansWithCache(digest, hash, n, max, tiers, ts)[i] ==
            PlanWithCache(digest, hash, n, max, TiersAfter(digest, hash, n, max, tiers, ts[..i]), ts[i].request,
                          ts[i].world).0
    decreases |ts|
  {
    hide PlanWithCache;
    if i > 0 {
      var tiers' := PlanWithCache(digest, hash, n, max, tiers, ts[0].request, ts[0].world).1;
      assert ts[..i][0] == ts[0] && ts[..i][1..] == ts[1..][..i - 1] && ts[i] == ts[1..][i - 1];
      PlanAt(digest, hash, n, max, tiers', ts[1..], i - 1);
    }
  }

  /** In any run, few paths are planned as they are and leave both tiers as they are, and a plan is for the inventory
      exactly if it has a reason. */
  lemma RunPlanKinds(digest: Vector -> Bytes, hash: Bytes -> Bytes, n: nat, max: nat, tiers: Tiers, ts: seq<Turn>,
                     i: nat)
    requires i < |ts|
    ensures var plan, q := PlansWithCache(digest, hash, n, max, tiers, ts)[i], ts[i].request;
            && (plan.strategy == IsolatedPaths <==> !q.rescan && |q.watched| < q.bulkThreshold)
            && (plan.strategy == IsolatedPaths ==> plan.paths == q.watched && plan.vector.None?)
            && (plan.strategy == GenericInventory <==> plan.reason.Some?)
            && (plan.strategy == GenericInventory ==> plan.paths == {} && plan.vector.None?)
            && (plan.strategy == HeadTreeAndStatus ==> Moved(ts[i]))
            && (plan.strategy == GitStatusIndex ==> Looks(ts[i]) && !Moved(ts[i]))
  {
    hide PlansWithCache, PlanWithCache, TiersAfter;
    PlanAt(digest, hash, n, max, tiers, ts, i);
    CachedPlanKinds(digest, hash, n, max, TiersAfter(digest, hash, n, max, tiers, ts[..i]), ts[i].request, ts[i].world);
  }

  lemma {:induction false} RunStems(digest: Vector -> Bytes, hash: Bytes -> Bytes, all: seq<Turn>, n: nat, max: nat,
                                    tiers: Tiers, ts: seq<Turn>, i: nat)
    requires Honest(digest, hash, all, tiers) && i < |ts| && forall j :: 0 <= j < i ==> ts[j] in all
    ensures PlanStems(digest, all, ts[i], PlansWithCache(digest, hash, n, max, tiers, ts)[i])
    decreases |ts|
  {
    hide Honest, PlanWithCache, PlanStems;
    var (plan, tiers') := PlanWithCache(digest, hash, n, max, tiers, ts[0].request, ts[0].world);
    if i == 0 {
      TurnStems(digest, hash, all, n, max, tiers, ts[0]);
    } else {
      TurnKeepsHonest(digest, hash, all, n, max, tiers, ts[0]);
      forall j | 0 <= j < i - 1 ensures ts[1..][j] in all { assert ts[1..][j] == ts[j + 1]; }
      assert ts[i] == ts[1..][i - 1];
      RunStems(digest, hash, all, n, max, tiers', ts[1..], i - 1);
    }
  }

  /** In any run, from tiers that earlier turns left behind, every plan is the one made without the cache or reuses what
      an earlier turn computed under the same key. */
  lemma EveryPlanStems(digest: Vector -> Bytes, hash: Bytes -> Bytes, past: seq<Turn>, n: nat, max: nat, tiers: Tiers,
                       ts: seq<Turn>, i: nat)
    requires Honest(digest, hash, past, tiers) && i < |ts|
    ensures PlanStems(digest, past + ts[..i], ts[i], PlansWithCache(digest, hash, n, max, tiers, ts)[i])
  {
    hide Honest, PlansWithCache, PlanStems;
    HonestMore(digest, hash, past, ts[..i], tiers);
    forall j | 0 <= j < i ensures ts[j] in past + ts[..i] { assert ts[j] == ts[..i][j]; }
    RunStems(digest, hash, past + ts[..i], n, max, tiers, ts, i);
  }

  const EMPTY: Tiers := Tiers([], map[])

  /** Both tiers after a run. */
  function TiersAfter(digest: Vector -> Bytes, hash: Bytes -> Bytes, n: nat, max: nat, tiers: Tiers,
                      ts: seq<Turn>): Tiers
    decreases |ts|
  {
    if ts == [] then tiers
    else TiersAfter(digest, hash, n, max, PlanWithCache(digest, hash, n, max, tiers, ts[0].request, ts[0].world).1,
                    ts[1..])
  }

  lemma {:induction false} RunKeepsHonest(digest: Vector -> Bytes, hash: Bytes -> Bytes, all: seq<Turn>, n: nat,
                                          max: nat, tiers: Tiers, ts: seq<Turn>)
    requires Honest(digest, hash, all, tiers) && forall t :: t in ts ==> t in all
    ensures Honest(digest, hash, all, TiersAfter(digest, hash, n, max, tiers, ts))
    decreases |ts|
  {
    hide Honest, PlanWithCache;
    if ts != [] {
      TurnKeepsHonest(digest, hash, all, n, max, tiers, ts[0]);
      var next := PlanWithCache(digest, hash, n, max, tiers, ts[0].request, ts[0].world).1;
      RunKeepsHonest(digest, hash, all, n, max, next, ts[1..]);
    }
  }

  /** What a run leaves behind is honest, and so is the table alone when a restart loses the list. */
  lemma LeftBehind(digest: Vector -> Bytes, hash: Bytes -> Bytes, past: seq<Turn>, n: nat, max: nat, tiers: Tiers,
                   ts: seq<Turn>)
    requires Honest(digest, hash, past, tiers) || tiers == EMPTY
    ensures Honest(digest, hash, past + ts, TiersAfter(digest, hash, n, max, tiers, ts))
    ensures Honest(digest, hash, past + ts, TiersAfter(digest, hash, n, max, tiers, ts).(l1 := []))
  {
    hide TiersAfter, HonestPayload;
    HonestMore(digest, hash, past, ts, tiers);
    hide HonestTable;
    RunKeepsHonest(digest, hash, past + ts, n, max, tiers, ts);
  }

  // Digests of the states of a run.

  /** A vector as it is captured: typed, and not counting as many index entries as 64 bits can. */
  ghost predicate Captured(v: Vector) {
    TypedVector(v) && v.indexCount != Some(U64_MAX)
  }

  /** The state digest: a hash of the preimage. */
  function StateDigest(h: Bytes -> Bytes): Vector -> Bytes {
    (v: Vector) => h(Preimage(v))
  }

  /** The states that these turns capture or scan. */
  function States(ts: seq<Turn>): set<Vector> {
    (set t | t in ts && Looks(t) :: Start(t)) + (set t | t in ts && Computes(t) :: Computed(t).vector)
  }

  /** The hash has no collision among the preimages of these states, which are captured ones. */
  ghost predicate ToldApart(h: Bytes -> Bytes, vs: set<Vector>) {
    && (forall v :: v in vs ==> Captured(v))
    && forall v, w :: v in vs && w in vs && h(Preimage(v)) == h(Preimage(w)) ==> Preimage(v) == Preimage(w)
  }

  /** Then digests tell the states apart. */
  lemma DigestTellsApart(h: Bytes -> Bytes, vs: set<Vector>, v: Vector, w: Vector)
    requires ToldApart(h, vs) && v in vs && w in vs && StateDigest(h)(v) == StateDigest(h)(w)
    ensures v == w
  {
    hide Preimage, TypedVector;
    PreimageBinds(v, w);
    SameCount(v, w);
  }

  lemma SameCount(v: Vector, w: Vector)
    requires Captured(v) && Captured(w) && Count(v) == Count(w)
    ensures v.indexCount == w.indexCount
  {
  }

  /** x scanned the state in which t starts, for the same workspace and topology and in the same mode. */
  predicate SamePlace(x: Turn, t: Turn) {
    && Computes(x) && Looks(t) && x.request.workspace == t.request.workspace && Topology(x) == Topology(t)
    && ModeIn(x) == ModeIn(t) && Computed(x).vector == Start(t)
  }

  lemma SuppliesInPlace(h: Bytes -> Bytes, vs: set<Vector>, x: Turn, t: Turn)
    requires Supplies(StateDigest(h), x, t) && ToldApart(h, vs) && Computed(x).vector in vs && Start(t) in vs
    ensures SamePlace(x, t)
  {
    hide ToldApart, Computes, Looks, Computed, Start, StateDigest;
    DigestTellsApart(h, vs, Computed(x).vector, Start(t));
  }

  /** The plan is the one made without the cache, or the one made of what an earlier turn found in the same place. */
  lemma PlanInPlace(h: Bytes -> Bytes, hash: Bytes -> Bytes, past: seq<Turn>, n: nat, max: nat, tiers: Tiers,
                    ts: seq<Turn>, i: nat)
    requires Honest(StateDigest(h), hash, past, tiers) && i < |ts| && ToldApart(h, States(past + ts[..i + 1]))
    ensures var plan := PlansWithCache(StateDigest(h), hash, n, max, tiers, ts)[i];
            || plan == PlanWithoutCache(ts[i].request, ts[i].world)
            || exists x :: x in past + ts[..i] && SamePlace(x, ts[i]) && plan == Reusing(x, ts[i])
  {
    hide Honest, PlansWithCache, PlanWithoutCache, ToldApart, SamePlace, Reusing, Computes, Looks, Computed, Start,
         StateDigest;
    var all, plan := past + ts[..i + 1], PlansWithCache(StateDigest(h), hash, n, max, tiers, ts)[i];
    EveryPlanStems(StateDigest(h), hash, past, n, max, tiers, ts, i);
    if plan != PlanWithoutCache(ts[i].request, ts[i].world) {
      var x :| x in past + ts[..i] && Supplies(StateDigest(h), x, ts[i]) && plan == Reusing(x, ts[i]);
      assert all == past + ts[..i] + [ts[i]];
      assert x in all && ts[i] in all;
      SuppliesInPlace(h, States(all), x, ts[i]);
    }
  }

  // What plans say.

  /** x, in the mode, workspace and topology of t, scanned the state that the plan names and that held after the turn,
      and the plan lists exactly the paths it found. */
  ghost predicate NamesScanOf(plan: Plan, t: Turn, x: Turn) {
    && Computes(x) && Looks(t) && x.request.workspace == t.request.workspace && Topology(x) == Topology(t)
    && ModeIn(x) == ModeIn(t) && plan.vector == Some(Computed(x).vector) && t.world.after == Ok(Computed(x).vector)
    && !Computed(x).candidates.rescan && plan.paths == PathsOf(Computed(x).candidates.list)
    && |plan.paths| <= t.request.maximum
    && plan.strategy == (match ModeIn(t) case Status => GitStatusIndex case HeadTree => HeadTreeAndStatus)
  }

  lemma FinishedPlan(t: Turn, x: Turn, hit: bool)
    requires Computes(x) && Looks(t) && x.request.workspace == t.request.workspace && Topology(x) == Topology(t)
    requires ModeIn(x) == ModeIn(t)
    ensures var plan := Finish(t.request, t.world, t.world.open.value, Start(t), Computed(x), hit);
            plan.vector.Some? ==> NamesScanOf(plan, t, x)
  {
    hide Scan, PathsOf, HeadMoved, Settled;
  }

  lemma UncachedPlan(t: Turn)
    ensures var plan := PlanWithoutCache(t.request, t.world);
            plan.vector.Some? ==> Computes(t) && NamesScanOf(plan, t, t)
  {
    hide Finish, NamesScanOf, HeadMoved;
    var plan := PlanWithoutCache(t.request, t.world);
    if Computes(t) {
      FinishedPlan(t, t, false);
    } else if Looks(t) {
      FailedScan(t);
    }
  }

  lemma FailedScan(t: Turn)
    requires Looks(t) && ScanIn(t).Err?
    ensures ScanIn(t).error.vector.None? && !ScanIn(t).error.cacheHit
  {
    hide HeadMoved, Merge;
  }

  /** Every Git plan of a run, hit or not, lists exactly the paths of a scan, in its own mode, of the state it names,
      and that state held after the turn. */
  lemma PlanNamesItsScan(h: Bytes -> Bytes, hash: Bytes -> Bytes, past: seq<Turn>, n: nat, max: nat, tiers: Tiers,
                         ts: seq<Turn>, i: nat)
    requires Honest(StateDigest(h), hash, past, tiers) && i < |ts| && ToldApart(h, States(past + ts[..i + 1]))
    ensures var plan := PlansWithCache(StateDigest(h), hash, n, max, tiers, ts)[i];
            plan.vector.Some? ==> exists x :: x in past + ts[..i + 1] && NamesScanOf(plan, ts[i], x)
  {
    hide Honest, PlansWithCache, PlanWithoutCache, ToldApart, Computes, Looks, Computed, Start, StateDigest,
         NamesScanOf, Finish, States;
    var all, plan := past + ts[..i + 1], PlansWithCache(StateDigest(h), hash, n, max, tiers, ts)[i];
    assert all == past + ts[..i] + [ts[i]];
    PlanInPlace(h, hash, past, n, max, tiers, ts, i);
    if plan == PlanWithoutCache(ts[i].request, ts[i].world) {
      UncachedPlan(ts[i]);
      assert ts[i] in all;
    } else {
      var x :| x in past + ts[..i] && SamePlace(x, ts[i]) && plan == Reusing(x, ts[i]);
      assert x in all && CandidateSet(Computed(x).candidates, Start(ts[i])) == Computed(x);
      FinishedPlan(ts[i], x, true);
    }
  }

  lemma HitIsAllThatDiffers(t: Turn, x: Turn)
    requires SamePlace(x, t) && ScanIn(t) == Ok(Computed(x))
    ensures Reusing(x, t).(cacheHit := false) == PlanWithoutCache(t.request, t.world)
  {
    hide Scan, PathsOf, HeadMoved;
  }

  lemma UncachedIsNoHit(t: Turn)
    ensures !PlanWithoutCache(t.request, t.world).cacheHit
  {
    hide Scan, PathsOf, HeadMoved;
    if Looks(t) && ScanIn(t).Err? { FailedScan(t); }
  }

  /** A plan is the one made without the cache if its own scan would find what earlier turns found in the same place. */
  lemma RunIsTransparent(h: Bytes -> Bytes, hash: Bytes -> Bytes, past: seq<Turn>, n: nat, max: nat, tiers: Tiers,
                         ts: seq<Turn>, i: nat)
    requires Honest(StateDigest(h), hash, past, tiers) && i < |ts| && ToldApart(h, States(past + ts[..i + 1]))
    requires forall x :: x in past + ts[..i] && SamePlace(x, ts[i]) ==> ScanIn(ts[i]) == Ok(Computed(x))
    ensures PlansWithCache(StateDigest(h), hash, n, max, tiers, ts)[i].(cacheHit := false) ==
            PlanWithoutCache(ts[i].request, ts[i].world)
  {
    hide Honest, PlansWithCache, PlanWithoutCache, ToldApart, StateDigest, States, Reusing, Computed, ScanIn, Looks;
    PlanInPlace(h, hash, past, n, max, tiers, ts, i);
    UncachedIsNoHit(ts[i]);
    if x :| x in past + ts[..i] && SamePlace(x, ts[i])
            && PlansWithCache(StateDigest(h), hash, n, max, tiers, ts)[i] == Reusing(x, ts[i]) {
      HitIsAllThatDiffers(ts[i], x);
    }
  }

  // Status scans.

  /** What the status scan finds in each state. */
  type StatusScan = Vector -> Result<CandidateSet, GitError>

  /** If the status scan of the turn succeeds, it finds what there is in the state that it names. */
  ghost predicate StatusTrue(status: StatusScan, t: Turn) {
    t.world.status.Ok? ==> status(t.world.status.value.vector) == t.world.status
  }

  /** The turn is neither cancelled nor overtaken: its status answer is that of the state captured at its start. */
  ghost predicate StatusSteady(status: StatusScan, t: Turn) {
    Looks(t) ==> t.world.status == status(Start(t))
  }

  predicate StatusTurn(t: Turn) {
    Looks(t) ==> ModeIn(t) == Status
  }

  lemma StatusInPlace(status: StatusScan, x: Turn, t: Turn)
    requires SamePlace(x, t) && StatusTrue(status, x) && StatusSteady(status, t) && StatusTurn(t)
    ensures ScanIn(t) == Ok(Computed(x))
  {
    hide Settled, BothResult;
  }

  /** A status plan is the one made without the cache whenever its own scan is steady; earlier scans only have to be
      true of the states they name. */
  lemma StatusIsTransparent(h: Bytes -> Bytes, hash: Bytes -> Bytes, status: StatusScan, past: seq<Turn>, n: nat,
                            max: nat, tiers: Tiers, ts: seq<Turn>, i: nat)
    requires Honest(StateDigest(h), hash, past, tiers) && i < |ts| && ToldApart(h, States(past + ts[..i + 1]))
    requires StatusTurn(ts[i]) && StatusSteady(status, ts[i])
    requires forall x :: x in past + ts[..i] ==> StatusTrue(status, x)
    ensures PlansWithCache(StateDigest(h), hash, n, max, tiers, ts)[i].(cacheHit := false) ==
            PlanWithoutCache(ts[i].request, ts[i].world)
  {
    hide PlansWithCache, PlanWithoutCache, ToldApart, StatusTrue, StatusSteady, Computed, ScanIn, States, Looks,
         Honest;
    forall x | x in past + ts[..i] && SamePlace(x, ts[i]) ensures ScanIn(ts[i]) == Ok(Computed(x)) {
      StatusInPlace(status, x, ts[i]);
    }
    RunIsTransparent(h, hash, past, n, max, tiers, ts, i);
  }

  lemma StatusPaths(status: StatusScan, plan: Plan, t: Turn, x: Turn)
    requires NamesScanOf(plan, t, x) && StatusTrue(status, x) && plan.strategy == GitStatusIndex
    ensures t.world.after == Ok(plan.vector.value) && status(plan.vector.value).Ok?
    ensures plan.paths == PathsOf(status(plan.vector.value).value.candidates.list)
  {
    hide Settled, BothResult, PathsOf;
  }

  /** Every status plan, hit or not, steady or not, lists exactly what is dirty in the state it names, which held after
      the turn. */
  lemma StatusPlansAreTrue(h: Bytes -> Bytes, hash: Bytes -> Bytes, status: StatusScan, past: seq<Turn>, n: nat,
                           max: nat, tiers: Tiers, ts: seq<Turn>, i: nat)
    requires Honest(StateDigest(h), hash, past, tiers) && i < |ts| && ToldApart(h, States(past + ts[..i + 1]))
    requires forall x :: x in past + ts[..i + 1] ==> StatusTrue(status, x)
    ensures var plan := PlansWithCache(StateDigest(h), hash, n, max, tiers, ts)[i];
            plan.strategy == GitStatusIndex ==>
              && plan.vector.Some? && ts[i].world.after == Ok(plan.vector.value) && status(plan.vector.value).Ok?
              && plan.paths == PathsOf(status(plan.vector.value).value.candidates.list)
  {
    hide PlansWithCache, PlanWithoutCache, ToldApart, StatusTrue, States, NamesScanOf, PathsOf, Honest;
    var plan := PlansWithCache(StateDigest(h), hash, n, max, tiers, ts)[i];
    if plan.strategy == GitStatusIndex {
      GitPlansNameStates(StateDigest(h), hash, past, n, max, tiers, ts, i);
      PlanNamesItsScan(h, hash, past, n, max, tiers, ts, i);
      var x :| x in past + ts[..i + 1] && NamesScanOf(plan, ts[i], x);
      StatusPaths(status, plan, ts[i], x);
    }
  }

  lemma GitPlansNameStates(digest: Vector -> Bytes, hash: Bytes -> Bytes, past: seq<Turn>, n: nat, max: nat,
                           tiers: Tiers, ts: seq<Turn>, i: nat)
    requires Honest(digest, hash, past, tiers) && i < |ts|
    ensures var plan := PlansWithCache(digest, hash, n, max, tiers, ts)[i];
            plan.strategy in {GitStatusIndex, HeadTreeAndStatus} ==> plan.vector.Some?
  {
    hide PlansWithCache, Supplies, HeadMoved, PathsOf, Merge, Honest;
    EveryPlanStems(digest, hash, past, n, max, tiers, ts, i);
  }

  // Scans after a HEAD move.

  /** What the diff from the tree of an old HEAD finds in each state. */
  type TreeScan = (Option<ObjectId>, Vector) -> Result<CandidateSet, GitError>

  predicate Moved(t: Turn) {
    Looks(t) && ModeIn(t) == Mode.HeadTree
  }

  function OldTree(t: Turn): Option<ObjectId>
    requires Moved(t)
  {
    t.request.prior.value.headTree
  }

  ghost predicate TreeTrue(tree: TreeScan, t: Turn) {
    Moved(t) && t.world.tree.Ok? ==> tree(OldTree(t), t.world.tree.value.vector) == t.world.tree
  }

  ghost predicate TreeSteady(tree: TreeScan, t: Turn) {
    Moved(t) ==> t.world.tree == tree(OldTree(t), Start(t))
  }

  /** Whatever was found in the place of t after a HEAD move came from the old HEAD tree of t. */
  predicate OldTreesAgree(earlier: seq<Turn>, t: Turn) {
    forall x :: x in earlier && Moved(x) && Moved(t) && SamePlace(x, t) ==> OldTree(x) == OldTree(t)
  }

  lemma BothInPlace(tree: TreeScan, status: StatusScan, x: Turn, t: Turn)
    requires SamePlace(x, t) && StatusTrue(status, x) && StatusSteady(status, t)
    requires TreeTrue(tree, x) && TreeSteady(tree, t) && (Moved(x) && Moved(t) ==> OldTree(x) == OldTree(t))
    ensures ScanIn(t) == Ok(Computed(x))
  {
    hide Settled, Merge, OldTree;
  }

  /** If what was found in its place also came from its own old HEAD tree, no plan with steady scans is changed by the
      cache. */
  lemma AllTransparentWhenOldTreesAgree(h: Bytes -> Bytes, hash: Bytes -> Bytes, tree: TreeScan, status: StatusScan,
                                        past: seq<Turn>, n: nat, max: nat, tiers: Tiers, ts: seq<Turn>, i: nat)
    requires Honest(StateDigest(h), hash, past, tiers) && i < |ts| && ToldApart(h, States(past + ts[..i + 1]))
    requires StatusSteady(status, ts[i]) && TreeSteady(tree, ts[i]) && OldTreesAgree(past + ts[..i], ts[i])
    requires forall x :: x in past + ts[..i] ==> StatusTrue(status, x) && TreeTrue(tree, x)
    ensures PlansWithCache(StateDigest(h), hash, n, max, tiers, ts)[i].(cacheHit := false) ==
            PlanWithoutCache(ts[i].request, ts[i].world)
  {
    hide PlansWithCache, PlanWithoutCache, ToldApart, StatusTrue, StatusSteady, TreeTrue, TreeSteady, Looks, Computed,
         ScanIn, States, OldTree, Honest;
    forall x | x in past + ts[..i] && SamePlace(x, ts[i]) ensures ScanIn(ts[i]) == Ok(Computed(x)) {
      BothInPlace(tree, status, x, ts[i]);
    }
    RunIsTransparent(h, hash, past, n, max, tiers, ts, i);
  }

  // After a HEAD move the key does not say which tree the old HEAD had.

  /** The second of two such plans in one state reuses the first one's candidates, whatever its own diff. */
  lemma HeadTreeReuses(digest: Vector -> Bytes, hash: Bytes -> Bytes, n: nat, max: nat, t: Turn, t': Turn,
                       s: CandidateSet)
    requires n > 0 && Settled(t.request, t.world).None? && Settled(t'.request, t'.world).None?
    requires t.world.before == t'.world.before && t.world.open == t'.world.open
    requires t.request.workspace == t'.request.workspace && t.request.fenceVerified && t'.request.fenceVerified
    requires HeadMoved(t.request, t.world.before.value) && HeadMoved(t'.request, t.world.before.value)
    requires Scan(t.request, t.world, t.world.before.value) == Ok(s) && s.vector == t.world.before.value
    requires PlanWithoutCache(t.request, t.world).reason.None? && EncodePayload(s.candidates).Ok?
    ensures PlansWithCache(digest, hash, n, max, EMPTY, [t, t'])[1] ==
            Finish(t'.request, t'.world, t'.world.open.value, t'.world.before.value, s, true)
  {
    hide Scan, EncodePayload, DecodePayload, HeadMoved, Finish, PlanWithCache;
    var current := t.world.before.value;
    var key := KeyFor(digest, t.request.workspace, current, t.world.open.value.topology, Mode.HeadTree);
    var payload := EncodePayload(s.candidates).value;
    var e := Entry(key, payload, hash(payload));
    FirstPlanCaches(digest, hash, n, max, t, s, e);
    SecondPlanHits(digest, hash, n, max, PlanWithCache(digest, hash, n, max, EMPTY, t.request, t.world).1, t', s, e);
    assert [t, t'][1..] == [t'];
  }

  lemma FirstPlanCaches(digest: Vector -> Bytes, hash: Bytes -> Bytes, n: nat, max: nat, t: Turn, s: CandidateSet,
                        e: Entry)
    requires n > 0 && Settled(t.request, t.world).None? && t.request.fenceVerified
    requires HeadMoved(t.request, t.world.before.value)
    requires Scan(t.request, t.world, t.world.before.value) == Ok(s) && s.vector == t.world.before.value
    requires PlanWithoutCache(t.request, t.world).reason.None? && EncodePayload(s.candidates) == Ok(e.payload)
    requires e.digest == hash(e.payload)
    requires e.key == KeyFor(digest, t.request.workspace, s.vector, t.world.open.value.topology, Mode.HeadTree)
    ensures PlanWithCache(digest, hash, n, max, EMPTY, t.request, t.world).1.l1 == [e]
  {
    hide Scan, EncodePayload, DecodePayload, HeadMoved, Finish, CachedBelow;
    FinishHit(t.request, t.world, t.world.open.value, s.vector, s);
    assert Below(Reader(t.world, EMPTY.table), e.key).None?;
    assert Touch([], e) == [e];
    assert Newest(n, [e]) == [e];
  }

  lemma SecondPlanHits(digest: Vector -> Bytes, hash: Bytes -> Bytes, n: nat, max: nat, tiers: Tiers, t: Turn,
                       s: CandidateSet, e: Entry)
    requires Settled(t.request, t.world).None? && t.request.fenceVerified && HeadMoved(t.request, t.world.before.value)
    requires s.vector == t.world.before.value && EncodePayload(s.candidates) == Ok(e.payload)
    requires e.digest == hash(e.payload) && tiers.l1 == [e]
    requires e.key == KeyFor(digest, t.request.workspace, s.vector, t.world.open.value.topology, Mode.HeadTree)
    ensures PlanWithCache(digest, hash, n, max, tiers, t.request, t.world).0 ==
            Finish(t.request, t.world, t.world.open.value, t.world.before.value, s, true)
  {
    hide Scan, EncodePayload, DecodePayload, HeadMoved, Finish;
    DecodeOfEncode(s.candidates, e.payload);
    assert Lookup(digest, hash, n, [e], Reader(t.world, tiers.table), e.key, s.vector).1 == Some(s);
  }

  lemma FinishHit(q: Request, w: World, snapshot: Snapshot, current: Vector, s: CandidateSet)
    ensures Finish(q, w, snapshot, current, s, true).reason == Finish(q, w, snapshot, current, s, false).reason
  {
  }

  /** Exactly when the reused candidates do no harm: the second scan would have succeeded without asking for a
      rescan, and the final fence fails for both scans or passes for both with the same paths, or with too many. */
  lemma HeadTreeTransparentIff(digest: Vector -> Bytes, hash: Bytes -> Bytes, n: nat, max: nat, t: Turn, t': Turn,
                               s: CandidateSet)
    requires n > 0 && Settled(t.request, t.world).None? && Settled(t'.request, t'.world).None?
    requires t.world.before == t'.world.before && t.world.open == t'.world.open
    requires t.request.workspace == t'.request.workspace && t.request.fenceVerified && t'.request.fenceVerified
    requires HeadMoved(t.request, t.world.before.value) && HeadMoved(t'.request, t.world.before.value)
    requires Scan(t.request, t.world, t.world.before.value) == Ok(s) && s.vector == t.world.before.value
    requires PlanWithoutCache(t.request, t.world).reason.None? && EncodePayload(s.candidates).Ok?
    ensures PlansWithCache(digest, hash, n, max, EMPTY, [t, t'])[1].(cacheHit := false) ==
            PlanWithoutCache(t'.request, t'.world) <==>
            SameOutcome(t'.request, t'.world, s, Scan(t'.request, t'.world, t'.world.before.value))
  {
    hide PlansWithCache, EncodePayload, HeadMoved, Merge, PathsOf;
    HeadTreeReuses(digest, hash, n, max, t, t', s);
    assert !s.candidates.rescan;
  }

  ghost predicate SameOutcome(q: Request, w: World, s: CandidateSet, scanned: Result<CandidateSet, Plan>) {
    && scanned.Ok? && !scanned.value.candidates.rescan
    && var paths, scannedPaths := PathsOf(s.candidates.list), PathsOf(scanned.value.candidates.list);
       || w.after.Err?
       || (w.after.value != s.vector && w.after.value != scanned.value.vector)
       || (&& w.after.value == s.vector == scanned.value.vector
           && (paths == scannedPaths || (|paths| > q.maximum && |scannedPaths| > q.maximum)))
  }

  function Fill(n: nat, b: Byte): (r: Bytes)
    ensures |r| == n && forall i :: 0 <= i < n ==> r[i] == b
  {
    seq(n, i => b)
  }

  function SampleTree(b: Byte): Option<ObjectId> {
    Some(Sha1(Fill(20, b)))
  }

  /** A clean worktree without an index whose HEAD has the given tree. */
  function SampleState(tree: Option<ObjectId>): Vector {
    Vector(Fill(16, 1), Fill(16, 2), 1, SampleTree(7), tree, None, None, false, 0, Fill(32, 3), Fill(32, 4),
           Fill(32, 5))
  }

  function SampleTurn(prior: Option<ObjectId>, path: Bytes): Turn {
    var current := SampleState(SampleTree(2));
    var diff := CandidateSet(Candidates(false, [Candidate(path, None, Origin.HeadTree)]), current);
    Turn(Request(Fill(16, 6), {}, true, 1, 1, 1, Some(SampleState(prior)), true),
         World(NoStore, Ok(Snapshot(Fill(16, 2), Fill(32, 8), GitReady)), Ok(current), Ok(diff),
               Ok(CandidateSet(Candidates(false, []), current)), Ok(current)))
  }

  lemma SampleIsCaptured(b: Byte)
    ensures Captured(SampleState(SampleTree(b))) && (b != 2 ==> SampleTree(b) != SampleTree(2))
  {
    assert b != 2 ==> Fill(20, b)[0] != Fill(20, 2)[0];
  }

  lemma SampleScan(prior: Option<ObjectId>, path: Bytes)
    requires prior != SampleTree(2)
    ensures var t := SampleTurn(prior, path);
            var diff := CandidateSet(Candidates(false, [Candidate(path, None, Origin.HeadTree)]), t.world.before.value);
            && HeadMoved(t.request, t.world.before.value)
            && Scan(t.request, t.world, t.world.before.value) == Ok(diff)
            && PathsOf(diff.candidates.list) == {path}
            && PlanWithoutCache(t.request, t.world).reason.None?
            && PlanWithoutCache(t.request, t.world).paths == {path}
  {
    hide Fill, SampleTree;
    var t := SampleTurn(prior, path);
    var cs := [Candidate(path, None, Origin.HeadTree)];
    assert cs + [] == cs && cs[1..] == [];
    assert Merge(cs) == cs;
    assert cs[0].path == path;
    assert PathsOf(cs) == {path};
    assert |{path}| == 1;
  }

  /** So the same state after two different old HEADs can give a plan the scan would not. */
  lemma HeadTreeNotTransparent(digest: Vector -> Bytes, hash: Bytes -> Bytes, n: nat, max: nat)
    requires n > 0
    ensures var ts := [SampleTurn(SampleTree(1), [1]), SampleTurn(SampleTree(3), [2])];
            && Captured(ts[0].world.before.value)
            && Captured(ts[0].request.prior.value) && Captured(ts[1].request.prior.value)
            && PlansWithCache(digest, hash, n, max, EMPTY, ts)[1].paths == {[1]}
            && PlanWithoutCache(ts[1].request, ts[1].world).paths == {[2]}
  {
    hide PlansWithCache, Scan, PathsOf, Fill, SampleTree, SampleState, Captured;
    SampleIsCaptured(1);
    SampleIsCaptured(2);
    SampleIsCaptured(3);
    var t, t' := SampleTurn(SampleTree(1), [1]), SampleTurn(SampleTree(3), [2]);
    SampleScan(SampleTree(1), [1]);
    SampleScan(SampleTree(3), [2]);
    var s := Scan(t.request, t.world, t.world.before.value).value;
    HeadTreeReuses(digest, hash, n, max, t, t', s);
    assert |{[1]}| == 1;
  }
}
