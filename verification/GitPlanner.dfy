/** Choosing update candidates from Git state, with and without the cache. */
module GitPlanner {
  import opened Prelude
  import opened Bytes
  import opened GitPayload
  import opened GitVector
  import opened GitTable
  import opened GitCache

  datatype GitError = NotAWorktree | UnsupportedObjectFormat | TrustPolicy | Cancelled | Unavailable

  datatype Acceleration =
    | NotAGitWorktree | GitReady | GitMetadataDirty | GitScanning
    | GitOperationInProgress | GitBulkReconciling | GitDegraded

  datatype Strategy = IsolatedPaths | GitStatusIndex | HeadTreeAndStatus | GenericInventory

  datatype Reason =
    | BudgetInvalid | OpenUnavailable | StateUnavailable | TreeScanUnavailable | StatusScanUnavailable
    | ChangedBetweenScans | ScanUnavailable | OperationRequiresInventory | PostScanUnavailable | ChangedDuringScan
    | BudgetExceeded

  datatype Snapshot = Snapshot(worktree: Bytes, topology: Bytes, acceleration: Acceleration)

  datatype Request = Request(workspace: Bytes, watched: set<Bytes>, rescan: bool, bulkThreshold: nat, maximum: nat,
                             generation: nat, prior: Option<Vector>, fenceVerified: bool)

  /** Whether the turn is given the operational store, and whether reading and writing it succeed. */
  datatype StoreAccess = NoStore | Access(readable: bool, writable: bool)

  /** What the repository answers during one planning turn, in the order it is asked. */
  datatype World = World(store: StoreAccess, open: Result<Snapshot, GitError>, before: Result<Vector, GitError>,
                         tree: Result<CandidateSet, GitError>, status: Result<CandidateSet, GitError>,
                         after: Result<Vector, GitError>)

  datatype Plan = Plan(strategy: Strategy, paths: set<Bytes>, vector: Option<Vector>, worktree: Option<Bytes>,
                       topology: Option<Bytes>, acceleration: Acceleration, cacheHit: bool, reason: Option<Reason>)

  function Fallback(a: Acceleration, reason: Reason): Plan {
    Plan(GenericInventory, {}, None, None, None, a, false, Some(reason))
  }

  function AccelerationFor(e: GitError): Acceleration {
    match e
    case NotAWorktree => NotAGitWorktree
    case Cancelled => GitScanning
    case _ => GitDegraded
  }

  predicate Isolated(q: Request) {
    !q.rescan && |q.watched| < q.bulkThreshold
  }

  predicate HeadMoved(q: Request, current: Vector) {
    match q.prior
    case None => false
    case Some(prior) =>
      prior.repository == current.repository && prior.worktree == current.worktree && prior.headTree != current.headTree
  }

  function ModeOf(q: Request, current: Vector): Mode {
    if HeadMoved(q, current) then Mode.HeadTree else Status
  }

  // The scans.

  predicate Precedes(a: Candidate, b: Candidate) {
    || Less(a.path, b.path)
    || (a.path == b.path && PriorLess(a.prior, b.prior))
    || (a.path == b.path && a.prior == b.prior && OriginCode(a.origin) < OriginCode(b.origin))
  }

  predicate PriorLess(a: Option<Bytes>, b: Option<Bytes>) {
    b.Some? && (a.None? || Less(a.value, b.value))
  }

  function InsertCandidate(c: Candidate, cs: seq<Candidate>): seq<Candidate> {
    if cs == [] then [c]
    else if Precedes(c, cs[0]) then [c] + cs
    else if c == cs[0] then cs
    else [cs[0]] + InsertCandidate(c, cs[1..])
  }

  /** Sorted without repeats. */
  function Merge(cs: seq<Candidate>): seq<Candidate> {
    if cs == [] then [] else InsertCandidate(cs[0], Merge(cs[1..]))
  }

  function StatusResult(status: Result<CandidateSet, GitError>): Result<CandidateSet, Plan> {
    match status
    case Err(e) => Err(Fallback(AccelerationFor(e), ScanUnavailable))
    case Ok(s) => Ok(s)
  }

  /** Both scans must have seen one state; their candidates are merged. */
  function BothResult(tree: Result<CandidateSet, GitError>,
                      status: Result<CandidateSet, GitError>): Result<CandidateSet, Plan> {
    match tree
    case Err(e) => Err(Fallback(AccelerationFor(e), TreeScanUnavailable))
    case Ok(t) =>
      match status
      case Err(e) => Err(Fallback(AccelerationFor(e), StatusScanUnavailable))
      case Ok(s) =>
        if t.vector != s.vector then Err(Fallback(GitMetadataDirty, ChangedBetweenScans))
        else
          var rescan := t.candidates.rescan || s.candidates.rescan;
          Ok(CandidateSet(Candidates(rescan, Merge(t.candidates.list + s.candidates.list)), t.vector))
  }

  /** The computed candidates, or the plan to fall back to. */
  function Scan(q: Request, w: World, current: Vector): Result<CandidateSet, Plan> {
    if HeadMoved(q, current) then BothResult(w.tree, w.status) else StatusResult(w.status)
  }

  function PathsOf(cs: seq<Candidate>): set<Bytes> {
    (set i | 0 <= i < |cs| :: cs[i].path) + (set i | 0 <= i < |cs| && cs[i].prior.Some? :: cs[i].prior.value)
  }

  /** The second fence, the budget, and the plan. */
  function Finish(q: Request, w: World, snapshot: Snapshot, current: Vector, s: CandidateSet, hit: bool): Plan {
    if s.candidates.rescan then Fallback(GitOperationInProgress, OperationRequiresInventory)
    else
      match w.after
      case Err(e) => Fallback(AccelerationFor(e), PostScanUnavailable)
      case Ok(after) =>
        if after != s.vector then Fallback(GitMetadataDirty, ChangedDuringScan)
        else
          var paths := PathsOf(s.candidates.list);
          if |paths| > q.maximum then Fallback(GitBulkReconciling, BudgetExceeded)
          else
            Plan(if HeadMoved(q, current) then HeadTreeAndStatus else GitStatusIndex, paths, Some(s.vector),
                 Some(snapshot.worktree), Some(snapshot.topology), snapshot.acceleration, hit, None)
  }

  /** What is decided before any candidates are looked for, if that settles the plan. */
  function Settled(q: Request, w: World): Option<Plan> {
    if Isolated(q) then Some(Plan(IsolatedPaths, q.watched, None, None, None, GitReady, false, None))
    else if q.maximum == 0 || q.bulkThreshold == 0 then Some(Fallback(GitDegraded, BudgetInvalid))
    else
      match w.open
      case Err(e) => Some(Fallback(AccelerationFor(e), OpenUnavailable))
      case Ok(_) =>
        match w.before
        case Err(e) => Some(Fallback(AccelerationFor(e), StateUnavailable))
        case Ok(_) => None
  }

  function PlanWithoutCache(q: Request, w: World): Plan {
    match Settled(q, w)
    case Some(plan) => plan
    case None =>
      var current := w.before.value;
      match Scan(q, w, current)
      case Err(plan) => plan
      case Ok(s) => Finish(q, w, w.open.value, current, s, false)
  }

  /** Both tiers of the cache. */
  datatype Tiers = Tiers(l1: seq<Entry>, table: Table)

  function Reader(w: World, table: Table): Option<Table> {
    if w.store.Access? && w.store.readable then Some(table) else None
  }

  function Written(digest: Vector -> Bytes, hash: Bytes -> Bytes, n: nat, max: nat, tiers: Tiers, q: Request, w: World,
                   key: Key, s: CandidateSet): Tiers
  {
    Tiers(Cached(digest, hash, n, tiers.l1, key, s),
          if w.store.Access? && w.store.writable then CachedBelow(digest, hash, max, tiers.table, key, s, q.generation)
          else tiers.table)
  }

  /** The plan and both tiers afterwards. */
  function PlanWithCache(digest: Vector -> Bytes, hash: Bytes -> Bytes, n: nat, max: nat, tiers: Tiers, q: Request,
                         w: World)
    : (Plan, Tiers)
  {
    match Settled(q, w)
    case Some(plan) => (plan, tiers)
    case None =>
      var snapshot, current := w.open.value, w.before.value;
      var key := KeyFor(digest, q.workspace, current, snapshot.topology, ModeOf(q, current));
      var (l1, found) :=
        if q.fenceVerified then Lookup(digest, hash, n, tiers.l1, Reader(w, tiers.table), key, current)
           else (tiers.l1, None);
      match found
      case Some(s) => (Finish(q, w, snapshot, current, s, true), Tiers(l1, tiers.table))
      case None =>
        match Scan(q, w, current)
        case Err(plan) => (plan, Tiers(l1, tiers.table))
        case Ok(s) =>
          var plan := Finish(q, w, snapshot, current, s, false);
          var stable := KeyFor(digest, q.workspace, s.vector, snapshot.topology, ModeOf(q, current));
          (plan, if q.fenceVerified && plan.reason.None? then
           Written(digest, hash, n, max, Tiers(l1, tiers.table), q, w, stable, s)
                 else Tiers(l1, tiers.table))
  }

  // The planner.

  class Planner {
    const cache: CandidateCache?

    constructor (cache: CandidateCache?)
      ensures this.cache == cache
    {
      this.cache := cache;
    }

    ghost predicate Valid()
      reads this, cache
    {
      cache != null ==> cache.Valid()
    }

    method MakePlan(q: Request, w: World, store: CandidateStore?) returns (plan: Plan)
      requires Valid() && (w.store.Access? <==> store != null)
      modifies cache, store
      ensures Valid()
      ensures cache == null ==> plan == PlanWithoutCache(q, w) && (store != null ==> store.table == old(store.table))
      ensures cache != null && store != null ==>
                (plan, Tiers(cache.l1, store.table)) ==
                PlanWithCache(cache.digest, cache.hash, cache.capacity, cache.maxStored,
                              Tiers(old(cache.l1), old(store.table)), q, w)
      ensures cache != null && store == null ==>
                (plan, Tiers(cache.l1, map[])) ==
                PlanWithCache(cache.digest, cache.hash, cache.capacity, cache.maxStored, Tiers(old(cache.l1), map[]),
                              q, w)
    {
      hide Scan, Lookup, Cached, CachedBelow, PathsOf, Touched, Newest, HeadMoved;
      if Isolated(q) { return Plan(IsolatedPaths, q.watched, None, None, None, GitReady, false, None); }
      if q.maximum == 0 || q.bulkThreshold == 0 { return Fallback(GitDegraded, BudgetInvalid); }
      if w.open.Err? { return Fallback(AccelerationFor(w.open.error), OpenUnavailable); }
      if w.before.Err? { return Fallback(AccelerationFor(w.before.error), StateUnavailable); }
      var snapshot, current := w.open.value, w.before.value;
      var found: Option<CandidateSet> := None;
      if q.fenceVerified && cache != null {
        var reader := if store != null then Reader(w, store.table) else None;
        found := cache.Get(KeyFor(cache.digest, q.workspace, current, snapshot.topology, ModeOf(q, current)), current,
                           reader);
      }
      var hit := found.Some?;
      var s: CandidateSet;
      if hit {
        s := found.value;
      } else {
        var scanned := Scan(q, w, current);
        if scanned.Err? { return scanned.error; }
        s := scanned.value;
      }
      if s.candidates.rescan { return Fallback(GitOperationInProgress, OperationRequiresInventory); }
      if w.after.Err? { return Fallback(AccelerationFor(w.after.error), PostScanUnavailable); }
      if w.after.value != s.vector { return Fallback(GitMetadataDirty, ChangedDuringScan); }
      var paths := CollectPaths(s.candidates.list);
      if |paths| > q.maximum { return Fallback(GitBulkReconciling, BudgetExceeded); }
      if q.fenceVerified && !hit && cache != null {
        var key := KeyFor(cache.digest, q.workspace, s.vector, snapshot.topology, ModeOf(q, current));
        var stored := cache.Put(key, s, q.generation, store, w.store.Access? && w.store.writable);
      }
      plan := Plan(if HeadMoved(q, current) then HeadTreeAndStatus else GitStatusIndex, paths, Some(s.vector),
                   Some(snapshot.worktree), Some(snapshot.topology), snapshot.acceleration, hit, None);
    }
  }

  method CollectPaths(cs: seq<Candidate>) returns (paths: set<Bytes>)
    ensures paths == PathsOf(cs)
  {
    paths := {};
    for i := 0 to |cs|
      invariant paths == PathsOf(cs[..i])
    {
      PathsOfNext(cs, i);
      paths := paths + {cs[i].path};
      if cs[i].prior.Some? { paths := paths + {cs[i].prior.value}; }
    }
    assert cs[..|cs|] == cs;
  }

  lemma PathsOfNext(cs: seq<Candidate>, i: nat)
    requires i < |cs|
    ensures PathsOf(cs[..i + 1]) ==
            PathsOf(cs[..i]) + {cs[i].path} + if cs[i].prior.Some? then {cs[i].prior.value} else {}
  {
    var a, b := cs[..i], cs[..i + 1];
    assert forall k :: 0 <= k < i ==> a[k] == b[k];
    assert b[i] == cs[i];
  }
}
