/** What a single plan says, and when each kind of plan is made. */
module GitPlans {
  import opened Prelude
  import opened Bytes
  import opened GitPayload
  import opened GitVector
  import opened GitTable
  import opened GitCache
  import opened GitPlanner

  // Fences.

  /** A plan drawn from Git names the state that still held after the scan, and keeps its budget. */
  lemma PlanIsFenced(q: Request, w: World)
    ensures var plan := PlanWithoutCache(q, w);
            plan.strategy in {GitStatusIndex, HeadTreeAndStatus} ==>
              && w.after.Ok? && plan.vector == Some(w.after.value) && |plan.paths| <= q.maximum
              && w.open.Ok? && plan.worktree == Some(w.open.value.worktree)
              && plan.topology == Some(w.open.value.topology) && plan.acceleration == w.open.value.acceleration
    ensures var plan := PlanWithoutCache(q, w);
            plan.strategy == GitStatusIndex ==>
              w.status.Ok? && !w.status.value.candidates.rescan && plan.paths == PathsOf(w.status.value.candidates.list)
    ensures PlanWithoutCache(q, w).strategy == GenericInventory ==> PlanWithoutCache(q, w).paths == {}
  {
    hide PathsOf, Merge;
  }

  lemma {:induction false} InsertKeeps(c: Candidate, cs: seq<Candidate>)
    ensures forall x :: x in InsertCandidate(c, cs) <==> x == c || x in cs
  {
    hide Precedes;
    if cs != [] {
      assert cs == [cs[0]] + cs[1..];
      InsertKeeps(c, cs[1..]);
    }
  }

  lemma {:induction false} MergeKeeps(cs: seq<Candidate>)
    ensures forall x :: x in Merge(cs) <==> x in cs
  {
    if cs != [] {
      hide InsertCandidate;
      MergeKeeps(cs[1..]);
      InsertKeeps(cs[0], Merge(cs[1..]));
      assert cs == [cs[0]] + cs[1..];
    }
  }

  lemma PathsByMember(cs: seq<Candidate>, p: Bytes)
    ensures p in PathsOf(cs) <==> exists c :: c in cs && (c.path == p || c.prior == Some(p))
  {
    if p in PathsOf(cs) {
      var i :| 0 <= i < |cs| && (cs[i].path == p || (cs[i].prior.Some? && cs[i].prior.value == p));
      assert cs[i] in cs;
    }
    if c :| c in cs && (c.path == p || c.prior == Some(p)) {
      var i :| 0 <= i < |cs| && cs[i] == c;
    }
  }

  /** Merging two scans plans the paths of both. */
  lemma MergedPaths(a: seq<Candidate>, b: seq<Candidate>)
    ensures PathsOf(Merge(a + b)) == PathsOf(a) + PathsOf(b)
  {
    hide Merge, PathsOf;
    MergeKeeps(a + b);
    forall p ensures p in PathsOf(Merge(a + b)) <==> p in PathsOf(a) || p in PathsOf(b) {
      PathsByMember(Merge(a + b), p);
      PathsByMember(a, p);
      PathsByMember(b, p);
    }
  }

  /** By path, then without a prior path before with one, then by prior path, then by origin. */
  predicate Sorts(a: Candidate, b: Candidate) {
    || Less(a.path, b.path)
    || (a.path == b.path && a.prior.None? && b.prior.Some?)
    || (a.path == b.path && a.prior.Some? && b.prior.Some? && Less(a.prior.value, b.prior.value))
    || (a.path == b.path && a.prior == b.prior && a.origin == IndexWorktree && b.origin != IndexWorktree)
    || (a.path == b.path && a.prior == b.prior && a.origin == HeadIndex && b.origin == Origin.HeadTree)
  }

  lemma SortsTransitive(a: Candidate, b: Candidate, c: Candidate)
    requires Sorts(a, b) && Sorts(b, c)
    ensures Sorts(a, c)
  {
    if Less(a.path, b.path) && Less(b.path, c.path) { LessTransitive(a.path, b.path, c.path); }
    if a.prior.Some? && b.prior.Some? && c.prior.Some? {
      if Less(a.prior.value, b.prior.value) && Less(b.prior.value, c.prior.value) {
        LessTransitive(a.prior.value, b.prior.value, c.prior.value);
      }
    }
  }

  lemma SortsTotal(a: Candidate, b: Candidate)
    ensures Precedes(a, b) == Sorts(a, b)
    ensures a != b ==> Sorts(a, b) || Sorts(b, a)
  {
    LessTotal(a.path, b.path);
    if a.prior.Some? && b.prior.Some? { LessTotal(a.prior.value, b.prior.value); }
  }

  ghost predicate Ascends(cs: seq<Candidate>) {
    forall i, j :: 0 <= i < j < |cs| ==> Sorts(cs[i], cs[j])
  }

  lemma {:induction false} InsertAscends(c: Candidate, cs: seq<Candidate>)
    requires Ascends(cs)
    ensures Ascends(InsertCandidate(c, cs))
  {
    hide Sorts, Precedes;
    if cs != [] {
      SortsTotal(c, cs[0]);
      if Sorts(c, cs[0]) {
        forall j | 1 <= j < |cs| ensures Sorts(c, cs[j]) { SortsTransitive(c, cs[0], cs[j]); }
      } else if c != cs[0] {
        var rest := InsertCandidate(c, cs[1..]);
        InsertAscends(c, cs[1..]);
        InsertKeeps(c, cs[1..]);
        forall j | 0 <= j < |rest| ensures Sorts(cs[0], rest[j]) {
          assert rest[j] in rest;
          if rest[j] != c { var k :| 0 <= k < |cs[1..]| && cs[1..][k] == rest[j]; }
        }
      }
    }
  }

  /** Merged candidates are in order without repeats. */
  lemma {:induction false} MergeAscends(cs: seq<Candidate>)
    ensures Ascends(Merge(cs))
  {
    hide Sorts, Precedes;
    if cs != [] {
      MergeAscends(cs[1..]);
      InsertAscends(cs[0], Merge(cs[1..]));
    }
  }

  /** A request that is not settled before any scan: large enough, with valid budgets,
      an open worktree and a captured state. */
  predicate ReachesScan(q: Request, w: World) {
    (q.rescan || |q.watched| >= q.bulkThreshold) && q.maximum > 0 && q.bulkThreshold > 0 && w.open.Ok? && w.before.Ok?
  }

  /** The set of candidates stands: no rescan is asked for, the state still holds,
      and the paths are within the budget. */
  predicate Stands(q: Request, w: World, rescan: bool, vector: Vector, paths: set<Bytes>) {
    !rescan && w.after == Ok(vector) && |paths| <= q.maximum
  }

  /** HEAD has moved: the prior state is of the same repository and worktree and has another HEAD tree. */
  predicate MovedHead(q: Request, v: Vector) {
    && q.prior.Some? && q.prior.value.repository == v.repository && q.prior.value.worktree == v.worktree
    && q.prior.value.headTree != v.headTree
  }

  /** A status plan is made exactly when HEAD has not moved and the status scan stands;
      its paths are those of the scan. */
  lemma StatusPlanIff(q: Request, w: World)
    ensures PlanWithoutCache(q, w).strategy == GitStatusIndex <==> StatusStands(q, w)
    ensures StatusStands(q, w) ==> PlanWithoutCache(q, w).paths == PathsOf(w.status.value.candidates.list)
  {
    hide PathsOf, Merge;
  }

  predicate StatusStands(q: Request, w: World) {
    && ReachesScan(q, w) && !MovedHead(q, w.before.value) && w.status.Ok?
    && Stands(q, w, w.status.value.candidates.rescan, w.status.value.vector, PathsOf(w.status.value.candidates.list))
  }

  predicate BothStand(q: Request, w: World) {
    && ReachesScan(q, w) && MovedHead(q, w.before.value) && w.tree.Ok? && w.status.Ok?
    && w.tree.value.vector == w.status.value.vector
    && Stands(q, w, w.tree.value.candidates.rescan || w.status.value.candidates.rescan, w.status.value.vector,
              PathsOf(w.tree.value.candidates.list) + PathsOf(w.status.value.candidates.list))
  }

  /** After a HEAD move a plan is made exactly when both scans succeed in one state and stand together;
      its paths are those of both scans. */
  lemma HeadTreePlanIff(q: Request, w: World)
    ensures PlanWithoutCache(q, w).strategy == HeadTreeAndStatus <==> BothStand(q, w)
    ensures BothStand(q, w) ==>
              PlanWithoutCache(q, w).paths ==
              PathsOf(w.tree.value.candidates.list) + PathsOf(w.status.value.candidates.list)
  {
    hide PathsOf, Merge;
    if w.tree.Ok? && w.status.Ok? { MergedPaths(w.tree.value.candidates.list, w.status.value.candidates.list); }
  }

  predicate FewPaths(q: Request) {
    !q.rescan && |q.watched| < q.bulkThreshold
  }

  /** A few watched paths are planned as they are, without a look at Git. */
  lemma IsolatedPlanIff(q: Request, w: World)
    ensures PlanWithoutCache(q, w).strategy == IsolatedPaths <==> FewPaths(q)
    ensures FewPaths(q) ==>
              PlanWithoutCache(q, w) == Plan(IsolatedPaths, q.watched, None, None, None, GitReady, false, None)
  {
    hide PathsOf, Merge, HeadMoved;
  }

  /** The inventory is walked exactly when neither the watched paths nor the scans give a plan, and then for a
      reason. */
  lemma InventoryPlanIff(q: Request, w: World)
    ensures var plan := PlanWithoutCache(q, w);
            && (plan.strategy == GenericInventory <==> !FewPaths(q) && !StatusStands(q, w) && !BothStand(q, w))
            && (plan.reason.Some? <==> plan.strategy == GenericInventory)
            && (plan.strategy == GenericInventory ==> plan.paths == {} && plan.vector.None? && plan.worktree.None?)
  {
    hide StatusStands, BothStand, FewPaths, PathsOf, Merge, HeadMoved;
    IsolatedPlanIff(q, w);
    StatusPlanIff(q, w);
    HeadTreePlanIff(q, w);
  }

  /** The rescan flag, state and paths of the scans of a turn that has them. */
  predicate ScanAsksRescan(q: Request, w: World)
    requires ReachesScan(q, w) && w.status.Ok? && (MovedHead(q, w.before.value) ==> w.tree.Ok?)
  {
    w.status.value.candidates.rescan || (MovedHead(q, w.before.value) && w.tree.value.candidates.rescan)
  }

  function ScannedPaths(q: Request, w: World): set<Bytes>
    requires ReachesScan(q, w) && w.status.Ok? && (MovedHead(q, w.before.value) ==> w.tree.Ok?)
  {
    PathsOf(w.status.value.candidates.list) +
    if MovedHead(q, w.before.value) then PathsOf(w.tree.value.candidates.list) else {}
  }

  /** Whatever is needed of the scans has been answered, in one state. */
  predicate ScansAgree(q: Request, w: World) {
    && ReachesScan(q, w) && w.status.Ok?
    && (MovedHead(q, w.before.value) ==> w.tree.Ok? && w.tree.value.vector == w.status.value.vector)
  }

  /** Which reason is given is decided by the first thing that fails, in the order in which things are asked. */
  lemma ReasonIff(q: Request, w: World)
    ensures var reason := PlanWithoutCache(q, w).reason;
            && (reason == Some(BudgetInvalid) <==> !FewPaths(q) && (q.maximum == 0 || q.bulkThreshold == 0))
            && (reason == Some(OpenUnavailable) <==>
                  !FewPaths(q) && q.maximum > 0 && q.bulkThreshold > 0 && w.open.Err?)
            && (reason == Some(StateUnavailable) <==>
                  !FewPaths(q) && q.maximum > 0 && q.bulkThreshold > 0 && w.open.Ok? && w.before.Err?)
            && (reason == Some(TreeScanUnavailable) <==>
                  ReachesScan(q, w) && MovedHead(q, w.before.value) && w.tree.Err?)
            && (reason == Some(StatusScanUnavailable) <==>
                  ReachesScan(q, w) && MovedHead(q, w.before.value) && w.tree.Ok? && w.status.Err?)
            && (reason == Some(ScanUnavailable) <==>
                  ReachesScan(q, w) && !MovedHead(q, w.before.value) && w.status.Err?)
            && (reason == Some(ChangedBetweenScans) <==>
                  ReachesScan(q, w) && MovedHead(q, w.before.value) && w.tree.Ok? && w.status.Ok? &&
                  w.tree.value.vector != w.status.value.vector)
  {
    hide PathsOf, Merge;
  }

  predicate ShowsError(plan: Plan, e: GitError) {
    match e
    case NotAWorktree => plan.acceleration == NotAGitWorktree
    case Cancelled => plan.acceleration == GitScanning
    case _ => plan.acceleration == GitDegraded
  }

  /** What a fallback says about acceleration: the error of the answer that failed, or what the state is doing. */
  lemma FallbackShows(q: Request, w: World)
    ensures var plan := PlanWithoutCache(q, w);
            plan.reason.Some? ==>
              match plan.reason.value
              case BudgetInvalid => plan.acceleration == GitDegraded
              case OpenUnavailable => w.open.Err? && ShowsError(plan, w.open.error)
              case StateUnavailable => w.before.Err? && ShowsError(plan, w.before.error)
              case TreeScanUnavailable => w.tree.Err? && ShowsError(plan, w.tree.error)
              case StatusScanUnavailable => w.status.Err? && ShowsError(plan, w.status.error)
              case ScanUnavailable => w.status.Err? && ShowsError(plan, w.status.error)
              case ChangedBetweenScans => plan.acceleration == GitMetadataDirty
              case OperationRequiresInventory => plan.acceleration == GitOperationInProgress
              case PostScanUnavailable => w.after.Err? && ShowsError(plan, w.after.error)
              case ChangedDuringScan => plan.acceleration == GitMetadataDirty
              case BudgetExceeded => plan.acceleration == GitBulkReconciling
  {
    hide PathsOf, Merge, HeadMoved;
  }

  lemma LateReasonIff(q: Request, w: World)
    ensures var reason := PlanWithoutCache(q, w).reason;
            && (reason == Some(OperationRequiresInventory) <==> ScansAgree(q, w) && ScanAsksRescan(q, w))
            && (reason == Some(PostScanUnavailable) <==>
                  ScansAgree(q, w) && !ScanAsksRescan(q, w) && w.after.Err?)
            && (reason == Some(ChangedDuringScan) <==>
                  ScansAgree(q, w) && !ScanAsksRescan(q, w) && w.after.Ok? && w.after.value != w.status.value.vector)
            && (reason == Some(BudgetExceeded) <==>
                  ScansAgree(q, w) && !ScanAsksRescan(q, w) && w.after == Ok(w.status.value.vector) &&
                  |ScannedPaths(q, w)| > q.maximum)
  {
    hide PathsOf, Merge;
    if ScansAgree(q, w) && MovedHead(q, w.before.value) {
      MergedPaths(w.tree.value.candidates.list, w.status.value.candidates.list);
      assert ScannedPaths(q, w) == PathsOf(w.tree.value.candidates.list) + PathsOf(w.status.value.candidates.list);
    } else if ScansAgree(q, w) {
      assert ScannedPaths(q, w) == PathsOf(w.status.value.candidates.list);
    }
  }

  /** With either cache tier, few paths are planned as they are and both tiers stay as they are; and a plan is for the
      inventory exactly if it has a reason. */
  lemma CachedPlanKinds(digest: Vector -> Bytes, hash: Bytes -> Bytes, n: nat, max: nat, tiers: Tiers, q: Request,
                        w: World)
    ensures var (plan, tiers') := PlanWithCache(digest, hash, n, max, tiers, q, w);
            && (plan.strategy == IsolatedPaths <==> FewPaths(q))
            && (FewPaths(q) ==>
                  plan == Plan(IsolatedPaths, q.watched, None, None, None, GitReady, false, None) && tiers' == tiers)
            && (plan.strategy == GenericInventory <==> plan.reason.Some?)
            && (plan.strategy == GenericInventory ==> plan.paths == {} && plan.vector.None?)
            && (plan.strategy == GitStatusIndex ==> ReachesScan(q, w) && !MovedHead(q, w.before.value))
            && (plan.strategy == HeadTreeAndStatus ==> ReachesScan(q, w) && MovedHead(q, w.before.value))
  {
    hide PathsOf, Merge, Lookup, Written;
  }

  /** The cache offers s: the fence was verified, and what stands for the captured state is whole. */
  ghost predicate Offers(digest: Vector -> Bytes, hash: Bytes -> Bytes, tiers: Tiers, q: Request, w: World,
                         s: CandidateSet)
    requires w.open.Ok? && w.before.Ok?
  {
    var v := w.before.value;
    var key := Key(q.workspace, v.worktree, digest(v), w.open.value.topology,
                   if MovedHead(q, v) then Mode.HeadTree else Mode.Status);
    var reader := if w.store.Access? && w.store.readable then Some(tiers.table) else None;
    && q.fenceVerified && s.vector == v
    && exists e :: && StandsFor(tiers.l1, reader, key, e)
                   && hash(e.payload) == e.digest && DecodePayload(e.payload) == Some(s.candidates)
  }

  /** What the cache offers is planned with, and nothing is written; without an offer the plan is the uncached one. */
  lemma CachedPlanIff(digest: Vector -> Bytes, hash: Bytes -> Bytes, n: nat, max: nat, tiers: Tiers, q: Request,
                      w: World)
    requires n > 0 && DistinctKeys(tiers.l1) && ReachesScan(q, w)
    ensures var (plan, tiers') := PlanWithCache(digest, hash, n, max, tiers, q, w);
            && (forall s :: Offers(digest, hash, tiers, q, w, s) ==>
                  plan == Finish(q, w, w.open.value, w.before.value, s, true) && tiers'.table == tiers.table)
            && ((forall s :: !Offers(digest, hash, tiers, q, w, s)) ==> plan == PlanWithoutCache(q, w))
  {
    hide Scan, Finish, Written, Lookup, StandsFor, DecodePayload;
    var found := LookupFor(digest, hash, n, tiers, q, w).1;
    forall s ensures Offers(digest, hash, tiers, q, w, s) <==> q.fenceVerified && found == Some(s) {
      OffersIff(digest, hash, n, tiers, q, w, s);
    }
    if q.fenceVerified && found.Some? { assert Offers(digest, hash, tiers, q, w, found.value); }
  }

  function LookupFor(digest: Vector -> Bytes, hash: Bytes -> Bytes, n: nat, tiers: Tiers, q: Request, w: World)
    : (seq<Entry>, Option<CandidateSet>)
    requires w.open.Ok? && w.before.Ok?
  {
    var current := w.before.value;
    var key := KeyFor(digest, q.workspace, current, w.open.value.topology, ModeOf(q, current));
    Lookup(digest, hash, n, tiers.l1, Reader(w, tiers.table), key, current)
  }

  lemma OffersIff(digest: Vector -> Bytes, hash: Bytes -> Bytes, n: nat, tiers: Tiers, q: Request, w: World,
                  s: CandidateSet)
    requires n > 0 && DistinctKeys(tiers.l1) && w.open.Ok? && w.before.Ok?
    ensures Offers(digest, hash, tiers, q, w, s) <==>
            q.fenceVerified && LookupFor(digest, hash, n, tiers, q, w).1 == Some(s)
  {
    hide Lookup, StandsFor, DecodePayload;
    var current := w.before.value;
    var key := KeyFor(digest, q.workspace, current, w.open.value.topology, ModeOf(q, current));
    LookupIff(digest, hash, n, tiers.l1, Reader(w, tiers.table), key, current, s);
  }

  /** The scanned candidates are cached: the fence was verified, the cache offers nothing, and the plan stands. */
  ghost predicate Caches(digest: Vector -> Bytes, hash: Bytes -> Bytes, tiers: Tiers, q: Request, w: World) {
    && ReachesScan(q, w) && q.fenceVerified && PlanWithoutCache(q, w).reason.None?
    && forall s :: !Offers(digest, hash, tiers, q, w, s)
  }

  /** A turn that caches its candidates finds them again under their state, if they fit; any other turn leaves the
      table as it is and the list as its lookup left it, if there was one. */
  lemma CachedIffPlanned(digest: Vector -> Bytes, hash: Bytes -> Bytes, n: nat, max: nat, tiers: Tiers, q: Request,
                         w: World)
    requires n > 0 && DistinctKeys(tiers.l1)
    ensures var tiers' := PlanWithCache(digest, hash, n, max, tiers, q, w).1;
            && (Caches(digest, hash, tiers, q, w) ==> CachedAgain(digest, hash, n, tiers', q, w))
            && (!Caches(digest, hash, tiers, q, w) ==> tiers'.table == tiers.table)
            && (!q.fenceVerified ==> tiers' == tiers)
            && (ReachesScan(q, w) && q.fenceVerified && !Caches(digest, hash, tiers, q, w) ==>
                  tiers'.l1 == LookupFor(digest, hash, n, tiers, q, w).0)
            && (!w.store.Access? || !w.store.writable ==> tiers'.table == tiers.table)
  {
    hide Scan, Finish, Written, Lookup, Offers;
    if ReachesScan(q, w) {
      var (l1, found) := LookupFor(digest, hash, n, tiers, q, w);
      forall s ensures Offers(digest, hash, tiers, q, w, s) <==> q.fenceVerified && found == Some(s) {
        OffersIff(digest, hash, n, tiers, q, w, s);
      }
      if Caches(digest, hash, tiers, q, w) {
        WritesWhatItPlanned(digest, hash, n, max, tiers, q, w);
      } else if q.fenceVerified && found.Some? {
        assert Offers(digest, hash, tiers, q, w, found.value);
      }
      if !w.store.Access? || !w.store.writable { WrittenTable(digest, hash, n, max, q, w); }
    }
  }

  lemma WrittenTable(digest: Vector -> Bytes, hash: Bytes -> Bytes, n: nat, max: nat, q: Request, w: World)
    requires !w.store.Access? || !w.store.writable
    ensures forall tiers, key, s :: Written(digest, hash, n, max, tiers, q, w, key, s).table == tiers.table
  {
  }

  /** The scanned candidates are found under their state, if their paths and their number fit. */
  ghost predicate CachedAgain(digest: Vector -> Bytes, hash: Bytes -> Bytes, n: nat, tiers: Tiers, q: Request, w: World)
    requires ReachesScan(q, w)
  {
    var scanned := Scan(q, w, w.before.value);
    scanned.Ok? && EncodePayload(scanned.value.candidates).Ok? ==>
      var s := scanned.value;
      var key := KeyFor(digest, q.workspace, s.vector, w.open.value.topology, ModeOf(q, w.before.value));
      Lookup(digest, hash, n, tiers.l1, None, key, s.vector).1 == Some(s)
  }

  lemma WritesWhatItPlanned(digest: Vector -> Bytes, hash: Bytes -> Bytes, n: nat, max: nat, tiers: Tiers, q: Request,
                            w: World)
    requires n > 0 && DistinctKeys(tiers.l1) && Caches(digest, hash, tiers, q, w)
    requires LookupFor(digest, hash, n, tiers, q, w).1.None?
    ensures CachedAgain(digest, hash, n, PlanWithCache(digest, hash, n, max, tiers, q, w).1, q, w)
  {
    hide Scan, Finish, CachedBelow, Lookup, Offers, Cached, EncodePayload;
    var scanned := Scan(q, w, w.before.value);
    if scanned.Ok? && EncodePayload(scanned.value.candidates).Ok? {
      var s := scanned.value;
      var key := KeyFor(digest, q.workspace, s.vector, w.open.value.topology, ModeOf(q, w.before.value));
      var l1 := LookupFor(digest, hash, n, tiers, q, w).0;
      LookupKeepsApart(digest, hash, n, tiers, q, w);
      CachedIsFound(digest, hash, n, l1, key, s, None);
    }
  }

  lemma LookupKeepsApart(digest: Vector -> Bytes, hash: Bytes -> Bytes, n: nat, tiers: Tiers, q: Request, w: World)
    requires DistinctKeys(tiers.l1) && w.open.Ok? && w.before.Ok?
    ensures DistinctKeys(LookupFor(digest, hash, n, tiers, q, w).0)
  {
    hide Touch, Newest, Verified, DistinctKeys;
    var current := w.before.value;
    var key := KeyFor(digest, q.workspace, current, w.open.value.topology, ModeOf(q, current));
    var i, below := Position(tiers.l1, key), Below(Reader(w, tiers.table), key);
    if i >= 0 { TouchKeeps(tiers.l1, tiers.l1[i]); }
    if below.Some? {
      TouchKeeps(tiers.l1, below.value);
      NewestApart(n, Touch(tiers.l1, below.value));
    }
  }

  /** The re-check before publication. */
  function VerifyCurrent(plan: Plan, recaptured: Result<Vector, GitError>,
                         status: Result<CandidateSet, GitError>): Result<bool, GitError> {
    match plan.vector
    case None => Ok(true)
    case Some(expected) =>
      if plan.worktree.None? then Err(Unavailable)
      else
        match recaptured
        case Err(e) => Err(e)
        case Ok(v) =>
          if v != expected then Ok(false)
          else
            match status
            case Err(e) => Err(e)
            case Ok(s) =>
              if s.candidates.rescan || s.vector != expected then Ok(false)
              else Ok(forall i :: 0 <= i < |s.candidates.list| ==> Covered(plan.paths, s.candidates.list[i]))
  }

  predicate Covered(paths: set<Bytes>, c: Candidate) {
    c.path in paths && (c.prior.Some? ==> c.prior.value in paths)
  }

  /** A plan without a state passes; a Git plan passes exactly if the state is unchanged and every path now dirty was
      planned. */
  lemma VerifyMeaning(plan: Plan, recaptured: Result<Vector, GitError>, status: Result<CandidateSet, GitError>)
    ensures VerifyCurrent(plan, recaptured, status) == Ok(true) <==>
              || plan.vector.None?
              || (&& plan.worktree.Some? && recaptured == Ok(plan.vector.value)
                  && status.Ok? && !status.value.candidates.rescan && status.value.vector == plan.vector.value
                  && PathsOf(status.value.candidates.list) <= plan.paths)
  {
    if status.Ok? { CoveredPaths(plan.paths, status.value.candidates.list); }
  }

  lemma CoveredPaths(paths: set<Bytes>, cs: seq<Candidate>)
    ensures (forall i :: 0 <= i < |cs| ==> Covered(paths, cs[i])) <==> PathsOf(cs) <= paths
  {
    if PathsOf(cs) <= paths {
      forall i | 0 <= i < |cs| ensures Covered(paths, cs[i]) {
        assert cs[i].path in PathsOf(cs);
        assert cs[i].prior.Some? ==> cs[i].prior.value in PathsOf(cs);
      }
    }
  }
}
