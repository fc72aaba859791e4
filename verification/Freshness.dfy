/** The freshness barrier: any number of threads over shared watermarks and one notifier. */
module Freshness {
  import opened Prelude

  datatype Policy = BestAvailable | AwaitLatest | RequireCurrent

  datatype State = Current | PotentiallyStale | Unavailable

  datatype Failure = Stale | SourceUnavailable

  /** Where a thread is between two atomic actions. A registered waiter carries its wake-up flag. */
  datatype Pc =
    | Idle
    | ReconcileRead(watermark: nat)
    | ReconcileStore(bounded: nat)
    | Notifying
    | RestoreStore(watermark: nat)
    | MarkStore
    | Capture(policy: Policy)
    | ReadUnavailable(policy: Policy)
    | ReadReconciled(policy: Policy)
    | ReadAdmitted(policy: Policy, seen: nat)
    | Register(target: nat)
    | CheckUnavailable(target: nat, notified: bool)
    | CheckReconciled(target: nat, notified: bool)
    | Parked(target: nat, notified: bool)
    | Answered(policy: Policy, outcome: Result<State, Failure>, target: nat)

  datatype Barrier = Barrier(admitted: nat, reconciled: nat, unavailable: bool, threads: seq<Pc>)

  predicate Registered(pc: Pc) {
    pc.CheckUnavailable? || pc.CheckReconciled? || pc.Parked?
  }

  function Wake(pc: Pc): Pc {
    if Registered(pc) then pc.(notified := true) else pc
  }

  function WakeAll(threads: seq<Pc>): (r: seq<Pc>)
    ensures |r| == |threads| && forall i :: 0 <= i < |r| ==> r[i] == Wake(threads[i])
  {
    seq(|threads|, i requires 0 <= i < |threads| => Wake(threads[i]))
  }

  function Min(a: nat, b: nat): nat { if a <= b then a else b }

  function Max(a: nat, b: nat): nat { if a <= b then b else a }

  /** Operations a thread may begin. */
  predicate Begins(pc: Pc) {
    pc.ReconcileRead? || pc.RestoreStore? || pc.MarkStore? || pc.Capture?
  }

  function StrictAnswer(policy: Policy, state: State): Result<State, Failure> {
    if policy.BestAvailable? then Ok(state)
    else
      match state
      case Current => Ok(Current)
      case Unavailable => Err(SourceUnavailable)
      case PotentiallyStale => Err(Stale)
  }

  // One atomic action of thread i.

  predicate Moves(b: Barrier, i: nat, b': Barrier, pc: Pc)
    requires i < |b.threads|
  {
    b' == b.(threads := b.threads[i := pc])
  }

  /** Thread i, at rest, admits a change or begins an operation. */
  ghost predicate StepIdle(b: Barrier, i: nat, b': Barrier)
    requires i < |b.threads|
  {
    var pc := b.threads[i];
    && (pc.Idle? || pc.Answered?)
    && (|| Moves(b, i, b', Idle)
        || (exists next :: Begins(next) && Moves(b, i, b', next))
        || b' == b.(admitted := b.admitted + 1)
        || (exists w: nat :: b' == b.(admitted := Max(b.admitted, w))))
  }

  predicate StepWriter(b: Barrier, i: nat, b': Barrier)
    requires i < |b.threads|
  {
    match b.threads[i]
    case ReconcileRead(w) => Moves(b, i, b', ReconcileStore(Min(w, b.admitted)))
    case ReconcileStore(m) =>
      b' == b.(reconciled := Max(b.reconciled, m), threads := b.threads[i := Notifying])
    case Notifying => b' == b.(threads := WakeAll(b.threads)[i := Idle])
    case RestoreStore(w) => b' == b.(unavailable := false, threads := b.threads[i := ReconcileRead(w)])
    case MarkStore => b' == b.(unavailable := true, threads := b.threads[i := Notifying])
    case _ => false
  }

  predicate StepReader(b: Barrier, i: nat, b': Barrier)
    requires i < |b.threads|
  {
    match b.threads[i]
    case Capture(policy) =>
      Moves(b, i, b', if policy.AwaitLatest? then Register(b.admitted) else ReadUnavailable(policy))
    case ReadUnavailable(policy) =>
      Moves(b, i, b', if b.unavailable then Answered(policy, StrictAnswer(policy, Unavailable), 0)
            else ReadReconciled(policy))
    case ReadReconciled(policy) => Moves(b, i, b', ReadAdmitted(policy, b.reconciled))
    case ReadAdmitted(policy, seen) =>
      Moves(b, i, b', Answered(policy, StrictAnswer(policy, if seen >= b.admitted then Current else PotentiallyStale),
                               0))
    case _ => false
  }

  predicate StepWaiter(b: Barrier, i: nat, b': Barrier)
    requires i < |b.threads|
  {
    match b.threads[i]
    case Register(t) => Moves(b, i, b', CheckUnavailable(t, false))
    case CheckUnavailable(t, notified) =>
      Moves(b, i, b', if b.unavailable then Answered(AwaitLatest, Err(SourceUnavailable), t)
            else CheckReconciled(t, notified))
    case CheckReconciled(t, notified) =>
      Moves(b, i, b', if b.reconciled >= t then Answered(AwaitLatest, Ok(Current), t) else Parked(t, notified))
    case Parked(t, notified) =>
      // A notified waiter goes round again; the timeout may fire while it is parked.
      (notified && Moves(b, i, b', Register(t))) || Moves(b, i, b', Answered(AwaitLatest, Err(Stale), t))
    case _ => false
  }

  ghost predicate Step(b: Barrier, i: nat, b': Barrier) {
    i < |b.threads| && (StepIdle(b, i, b') || StepWriter(b, i, b') || StepReader(b, i, b') || StepWaiter(b, i, b'))
  }

  ghost predicate Initial(b: Barrier) {
    b.reconciled <= b.admitted && forall i :: 0 <= i < |b.threads| ==> b.threads[i] == Idle
  }

  ghost predicate AnyStep(b: Barrier, b': Barrier) {
    exists i: nat :: Step(b, i, b')
  }

  ghost predicate Run(bs: seq<Barrier>) {
    bs != [] && Initial(bs[0]) && forall k :: 0 < k < |bs| ==> AnyStep(bs[k - 1], bs[k])
  }

  // What every step keeps.

  ghost predicate SomeNotifying(b: Barrier) {
    exists j :: 0 <= j < |b.threads| && b.threads[j].Notifying?
  }

  /** Facts about one thread in the shared state. */
  ghost predicate Sane(b: Barrier, pc: Pc) {
    match pc
    case ReconcileStore(m) => m <= b.admitted
    case ReadAdmitted(_, seen) => seen <= b.reconciled
    case Register(t) => t <= b.admitted
    case CheckUnavailable(t, _) => t <= b.admitted
    case CheckReconciled(t, notified) => t <= b.admitted && (!notified && b.unavailable ==> SomeNotifying(b))
    case Parked(t, notified) => t <= b.admitted && (!notified && (b.unavailable || b.reconciled >= t) ==>
                                                    SomeNotifying(b))
    case Answered(AwaitLatest, Ok(Current), t) => t <= b.reconciled
    case _ => true
  }

  ghost predicate Invariant(b: Barrier) {
    b.reconciled <= b.admitted && forall i :: 0 <= i < |b.threads| ==> Sane(b, b.threads[i])
  }

  ghost predicate Grows(b: Barrier, b': Barrier) {
    b.admitted <= b'.admitted && b.reconciled <= b'.reconciled && |b.threads| == |b'.threads|
  }

  lemma StepGrows(b: Barrier, i: nat, b': Barrier)
    requires Step(b, i, b')
    ensures Grows(b, b')
  {
  }

  lemma WriterKeeps(b: Barrier, i: nat, b': Barrier)
    requires Invariant(b) && i < |b.threads| && StepWriter(b, i, b')
    ensures Invariant(b')
  {
    assert Sane(b, b.threads[i]);
    forall j | 0 <= j < |b'.threads| ensures Sane(b', b'.threads[j]) {
      assert Sane(b, b.threads[j]);
      if b.threads[i].ReconcileStore? || b.threads[i].MarkStore? { assert b'.threads[i].Notifying?; }
      if SomeNotifying(b) && !b.threads[i].Notifying? {
        var k :| 0 <= k < |b.threads| && b.threads[k].Notifying?;
        assert b'.threads[k].Notifying?;
      }
    }
  }

  lemma OthersKeep(b: Barrier, i: nat, b': Barrier, pc: Pc)
    requires Invariant(b) && i < |b.threads| && !b.threads[i].Notifying? && Moves(b, i, b', pc)
    requires SomeNotifying(b') ==> Sane(b', pc)
    requires !SomeNotifying(b) ==> Sane(b, pc)
    ensures Invariant(b')
  {
    if SomeNotifying(b) {
      var k :| 0 <= k < |b.threads| && b.threads[k].Notifying?;
      assert b'.threads[k].Notifying?;
    }
    forall j | 0 <= j < |b'.threads| ensures Sane(b', b'.threads[j]) {
      if j != i { assert Sane(b, b.threads[j]); }
    }
  }

  lemma ReaderKeeps(b: Barrier, i: nat, b': Barrier)
    requires Invariant(b) && i < |b.threads| && StepReader(b, i, b')
    ensures Invariant(b')
  {
    assert Sane(b, b.threads[i]);
    OthersKeep(b, i, b', b'.threads[i]);
  }

  lemma WaiterKeeps(b: Barrier, i: nat, b': Barrier)
    requires Invariant(b) && i < |b.threads| && StepWaiter(b, i, b')
    ensures Invariant(b')
  {
    assert Sane(b, b.threads[i]);
    OthersKeep(b, i, b', b'.threads[i]);
  }

  lemma IdleKeeps(b: Barrier, i: nat, b': Barrier)
    requires Invariant(b) && i < |b.threads| && StepIdle(b, i, b')
    ensures Invariant(b')
  {
    if b'.threads == b.threads {
      forall j | 0 <= j < |b'.threads| ensures Sane(b', b'.threads[j]) {
        assert Sane(b, b.threads[j]);
        if SomeNotifying(b) {
          var k :| 0 <= k < |b.threads| && b.threads[k].Notifying?;
          assert b'.threads[k].Notifying?;
        }
      }
    } else {
      OthersKeep(b, i, b', b'.threads[i]);
    }
  }

  lemma StepKeeps(b: Barrier, i: nat, b': Barrier)
    requires Invariant(b) && Step(b, i, b')
    ensures Invariant(b')
  {
    hide Invariant, StepIdle, StepWriter, StepReader, StepWaiter;
    if StepIdle(b, i, b') {
      IdleKeeps(b, i, b');
    } else if StepWriter(b, i, b') {
      WriterKeeps(b, i, b');
    } else if StepReader(b, i, b') {
      ReaderKeeps(b, i, b');
    } else {
      WaiterKeeps(b, i, b');
    }
  }

  // Whole runs.

  lemma {:induction false} RunKeeps(bs: seq<Barrier>, k: nat)
    requires Run(bs) && k < |bs|
    ensures Invariant(bs[k])
  {
    hide Step;
    if k == 0 {
      hide Sane;
      assert forall i :: 0 <= i < |bs[0].threads| ==> bs[0].threads[i] == Idle;
      IdleIsSane(bs[0]);
    } else {
      RunKeeps(bs, k - 1);
      assert AnyStep(bs[k - 1], bs[k]);
      var i: nat :| Step(bs[k - 1], i, bs[k]);
      StepKeeps(bs[k - 1], i, bs[k]);
    }
  }

  lemma IdleIsSane(b: Barrier)
    ensures Sane(b, Idle)
  {
  }

  /** Both watermarks only grow, and reconciliation never overtakes admission. */
  lemma {:induction false} Watermarks(bs: seq<Barrier>, j: nat, k: nat)
    requires Run(bs) && j <= k < |bs|
    ensures bs[k].reconciled <= bs[k].admitted && Grows(bs[j], bs[k])
    decreases k
  {
    hide Step;
    RunKeeps(bs, k);
    if j < k {
      Watermarks(bs, j, k - 1);
      assert AnyStep(bs[k - 1], bs[k]);
      var i: nat :| Step(bs[k - 1], i, bs[k]);
      StepGrows(bs[k - 1], i, bs[k]);
    }
  }

  /** What a parked waiter is waiting for. */
  /** A parked waiter whose condition holds was notified, or some writer is about to notify it. */
  lemma NoLostWakeup(bs: seq<Barrier>, k: nat, i: nat)
    requires Run(bs) && k < |bs| && i < |bs[k].threads|
    requires bs[k].threads[i].Parked? && (bs[k].unavailable || bs[k].reconciled >= bs[k].threads[i].target)
    ensures bs[k].threads[i].notified || SomeNotifying(bs[k])
  {
    hide Run;
    RunKeeps(bs, k);
    assert Sane(bs[k], bs[k].threads[i]);
  }

  /** That writer's next action wakes it, whatever else is going on. */
  lemma NotifyWakes(b: Barrier, i: nat, j: nat)
    requires i < |b.threads| && j < |b.threads| && b.threads[i].Parked? && b.threads[j].Notifying?
    ensures exists b' :: Step(b, j, b') && b'.threads[i] == Parked(b.threads[i].target, true)
    ensures forall b' :: Step(b, j, b') ==> i < |b'.threads| && b'.threads[i] == Parked(b.threads[i].target, true)
  {
    var b' := b.(threads := WakeAll(b.threads)[j := Idle]);
    assert StepWriter(b, j, b');
    assert Step(b, j, b');
  }

  /** A notified waiter whose target is reconciled and whose source is available returns in four actions of its own. */
  lemma NotifiedReturns(b: Barrier, i: nat) returns (b1: Barrier, b2: Barrier, b3: Barrier, b4: Barrier)
    requires i < |b.threads| && b.threads[i].Parked? && b.threads[i].notified
    requires !b.unavailable && b.reconciled >= b.threads[i].target
    ensures Step(b, i, b1) && Step(b1, i, b2) && Step(b2, i, b3) && Step(b3, i, b4)
    ensures i < |b4.threads| && b4.threads[i] == Answered(AwaitLatest, Ok(Current), b.threads[i].target)
  {
    var t := b.threads[i].target;
    b1 := b.(threads := b.threads[i := Register(t)]);
    b2 := b1.(threads := b1.threads[i := CheckUnavailable(t, false)]);
    b3 := b2.(threads := b2.threads[i := CheckReconciled(t, false)]);
    b4 := b3.(threads := b3.threads[i := Answered(AwaitLatest, Ok(Current), t)]);
    assert StepWaiter(b, i, b1) && StepWaiter(b1, i, b2) && StepWaiter(b2, i, b3) && StepWaiter(b3, i, b4);
  }

  // Answers.

  predicate Waiting(pc: Pc) {
    pc.Register? || Registered(pc)
  }

  /** A step of another thread can only wake thread i. */
  lemma OthersOnlyWake(b: Barrier, j: nat, b': Barrier, i: nat)
    requires Step(b, j, b') && j != i && i < |b.threads|
    ensures |b'.threads| == |b.threads| && (b'.threads[i] == b.threads[i] || b'.threads[i] == Wake(b.threads[i]))
  {
    if StepIdle(b, j, b') {
    } else if StepWriter(b, j, b') {
    } else if StepReader(b, j, b') {
    } else {
    }
  }

  lemma OwnWait(b: Barrier, b': Barrier, i: nat)
    requires Step(b, i, b') && Waiting(b.threads[i])
    ensures StepWaiter(b, i, b')
  {
  }

  /** What a step of any thread makes of a waiting one. */
  lemma WaitStep(b: Barrier, j: nat, b': Barrier, i: nat)
    requires Step(b, j, b') && i < |b.threads| && Waiting(b.threads[i])
    ensures |b'.threads| == |b.threads|
    ensures StepWaiter(b, i, b') || b'.threads[i] == b.threads[i] || b'.threads[i] == Wake(b.threads[i])
  {
    hide Step, StepWaiter;
    if i == j {
      OwnWait(b, b', i);
      StepGrows(b, i, b');
    } else {
      OthersOnlyWake(b, j, b', i);
    }
  }

  lemma TargetKept(b: Barrier, j: nat, b': Barrier, i: nat)
    requires Step(b, j, b') && i < |b.threads| && Waiting(b.threads[i])
    ensures i < |b'.threads|
    ensures var pc := b'.threads[i];
            (Waiting(pc) || pc.Answered?) && pc.target == b.threads[i].target
  {
    hide Step;
    WaitStep(b, j, b', i);
  }

  /** From its first action on, a waiting query holds the watermark it saw at entry. */
  lemma {:induction false} TargetHeld(bs: seq<Barrier>, i: nat, k: nat, m: nat)
    requires Run(bs) && k + 1 < m < |bs| && i < |bs[k + 1].threads| && bs[k + 1].threads[i] == Register(bs[k].admitted)
    requires forall l :: k < l < m ==> i < |bs[l].threads| && Waiting(bs[l].threads[i])
    ensures i < |bs[m].threads|
    ensures var pc := bs[m].threads[i]; (Waiting(pc) || pc.Answered?) && pc.target == bs[k].admitted
    decreases m
  {
    hide Step;
    if m > k + 2 { TargetHeld(bs, i, k, m - 1); }
    assert AnyStep(bs[m - 1], bs[m]);
    var j: nat :| Step(bs[m - 1], j, bs[m]);
    TargetKept(bs[m - 1], j, bs[m], i);
  }

  lemma Captured(b: Barrier, j: nat, b': Barrier, i: nat)
    requires Step(b, j, b') && i < |b.threads| && b.threads[i] == Capture(AwaitLatest)
    ensures i < |b'.threads| && (b'.threads[i] == b.threads[i] || b'.threads[i] == Register(b.admitted))
  {
  }

  /** A waiting query that answers Current sees everything reconciled that was admitted when it began. */
  lemma AwaitedAnswer(bs: seq<Barrier>, i: nat, k: nat, m: nat)
    requires Run(bs) && k + 1 < m < |bs| && forall l :: k <= l <= m ==> i < |bs[l].threads|
    requires bs[k].threads[i] == Capture(AwaitLatest)
    requires forall l :: k < l < m ==> Waiting(bs[l].threads[i])
    requires bs[m].threads[i].Answered? && bs[m].threads[i].outcome == Ok(Current)
    ensures bs[m].reconciled >= bs[k].admitted
  {
    hide Step;
    assert AnyStep(bs[k], bs[k + 1]) by { assert AnyStep(bs[k + 1 - 1], bs[k + 1]); }
    var j: nat :| Step(bs[k], j, bs[k + 1]);
    Captured(bs[k], j, bs[k + 1], i);
    TargetHeld(bs, i, k, m);
    RunKeeps(bs, m);
    assert Sane(bs[m], bs[m].threads[i]);
    AnsweredAwaiting(bs, i, m);
  }

  /** Only a waiting query goes straight from waiting to an answer. */
  lemma AnsweredAwaiting(bs: seq<Barrier>, i: nat, m: nat)
    requires Run(bs) && 0 < m < |bs| && i < |bs[m - 1].threads| && i < |bs[m].threads|
    requires Waiting(bs[m - 1].threads[i]) && bs[m].threads[i].Answered?
    ensures bs[m].threads[i].policy == AwaitLatest
  {
    assert AnyStep(bs[m - 1], bs[m]);
    var j: nat :| Step(bs[m - 1], j, bs[m]);
    hide Step;
    WaitStep(bs[m - 1], j, bs[m], i);
  }

  // Immediate answers.

  predicate Reading(pc: Pc) {
    pc.Capture? || pc.ReadUnavailable? || pc.ReadReconciled? || pc.ReadAdmitted?
  }

  lemma OnlyOwnSteps(b: Barrier, j: nat, b': Barrier, i: nat)
    requires Step(b, j, b') && i < |b.threads| && Reading(b.threads[i])
    ensures i < |b'.threads| && (b'.threads[i] != b.threads[i] ==> j == i && StepReader(b, i, b'))
  {
  }

  /** Until its own next action a reading thread stays where it is; that action is the a-th step. */
  lemma {:induction false} NextAction(bs: seq<Barrier>, i: nat, k: nat, m: nat) returns (a: nat)
    requires Run(bs) && k < m < |bs| && (forall l :: k <= l <= m ==> i < |bs[l].threads|)
    requires Reading(bs[k].threads[i]) && bs[m].threads[i] != bs[k].threads[i]
    ensures k <= a < m && bs[a].threads[i] == bs[k].threads[i] && StepReader(bs[a], i, bs[a + 1])
    ensures bs[a + 1].threads[i] != bs[k].threads[i]
    decreases m - k
  {
    hide Step, StepReader;
    assert AnyStep(bs[k], bs[k + 1]) by { assert AnyStep(bs[k + 1 - 1], bs[k + 1]); }
    var j: nat :| Step(bs[k], j, bs[k + 1]);
    OnlyOwnSteps(bs[k], j, bs[k + 1], i);
    if bs[k + 1].threads[i] != bs[k].threads[i] {
      a := k;
    } else {
      a := NextAction(bs, i, k + 1, m);
    }
  }

  /** Thread i asks at k and has its answer at m, not before. */
  ghost predicate Asks(bs: seq<Barrier>, i: nat, k: nat, m: nat) {
    && k < m < |bs| && (forall l :: k <= l <= m ==> i < |bs[l].threads|)
    && bs[k].threads[i].Capture? && !bs[k].threads[i].policy.AwaitLatest?
    && (forall l :: k <= l < m ==> Reading(bs[l].threads[i])) && bs[m].threads[i].Answered?
  }

  /** An immediate query reads the unavailable flag at its step a. If it is set, that is the answer. Otherwise it reads
      what is reconciled at a later step r and what is admitted at a still later step w, and answers by comparing the
      two; Current means that at w nothing admitted is unreconciled. */
  lemma ImmediateAnswer(bs: seq<Barrier>, i: nat, k: nat, m: nat) returns (a: nat, r: nat, w: nat)
    requires Run(bs) && Asks(bs, i, k, m)
    ensures k < a < m && bs[m].threads[i].policy == bs[k].threads[i].policy
    ensures var strict, outcome := bs[k].threads[i].policy == RequireCurrent, bs[m].threads[i].outcome;
            if bs[a].unavailable then
              outcome == if strict then Err(SourceUnavailable) else Ok(Unavailable)
            else
              && a < r < w < m && !bs[a].unavailable
              && (if bs[r].reconciled >= bs[w].admitted then
                    outcome == Ok(Current) && bs[w].reconciled == bs[w].admitted
                  else outcome == if strict then Err(Stale) else Ok(PotentiallyStale))
  {
    hide Run, Step;
    var a0 := NextAction(bs, i, k, m);
    a := NextAction(bs, i, a0 + 1, m);
    r, w := a, a;
    if !bs[a].unavailable {
      r := NextAction(bs, i, a + 1, m);
      w := NextAction(bs, i, r + 1, m);
      assert bs[w].threads[i].ReadAdmitted? && bs[w].threads[i].seen == bs[r].reconciled;
      Watermarks(bs, r, w);
    }
  }

  /** How a waiting query ends: unavailable exactly at the check of the flag and only if it is set, current exactly at
      the check of the watermark and only if its target is reconciled, stale exactly when its time is up. */
  lemma AwaitedOutcome(bs: seq<Barrier>, i: nat, m: nat)
    requires Run(bs) && 0 < m < |bs| && i < |bs[m - 1].threads| && i < |bs[m].threads|
    requires Waiting(bs[m - 1].threads[i]) && bs[m].threads[i].Answered?
    ensures var b, outcome := bs[m - 1], bs[m].threads[i].outcome;
            && (outcome == Err(SourceUnavailable) <==> b.threads[i].CheckUnavailable?)
            && (outcome == Err(SourceUnavailable) ==> b.unavailable)
            && (outcome == Ok(Current) <==> b.threads[i].CheckReconciled?)
            && (outcome == Ok(Current) ==> b.reconciled >= b.threads[i].target)
            && (outcome == Err(Stale) <==> b.threads[i].Parked?)
  {
    hide Step;
    assert AnyStep(bs[m - 1], bs[m]);
    var j: nat :| Step(bs[m - 1], j, bs[m]);
    WaitStep(bs[m - 1], j, bs[m], i);
  }

  /** Conversely a waiter passes a check only while its condition does not hold. */
  lemma ChecksPassed(bs: seq<Barrier>, i: nat, m: nat)
    requires Run(bs) && 0 < m < |bs| && i < |bs[m - 1].threads| && i < |bs[m].threads|
    ensures bs[m - 1].threads[i].CheckUnavailable? && bs[m].threads[i].CheckReconciled? ==> !bs[m - 1].unavailable
    ensures bs[m - 1].threads[i].CheckReconciled? && bs[m].threads[i].Parked? ==>
              bs[m - 1].reconciled < bs[m].threads[i].target
  {
    hide Step;
    assert AnyStep(bs[m - 1], bs[m]);
    var j: nat :| Step(bs[m - 1], j, bs[m]);
    if Waiting(bs[m - 1].threads[i]) { WaitStep(bs[m - 1], j, bs[m], i); }
  }

  // Writers.

  predicate Writing(pc: Pc) {
    pc.ReconcileRead? || pc.ReconcileStore? || pc.Notifying? || pc.RestoreStore? || pc.MarkStore?
  }

  lemma OnlyOwnWrites(b: Barrier, j: nat, b': Barrier, i: nat)
    requires Step(b, j, b') && i < |b.threads| && Writing(b.threads[i])
    ensures i < |b'.threads| && (b'.threads[i] != b.threads[i] ==> j == i && StepWriter(b, i, b'))
  {
  }

  lemma {:induction false} NextWrite(bs: seq<Barrier>, i: nat, k: nat, m: nat) returns (a: nat)
    requires Run(bs) && k < m < |bs| && (forall l :: k <= l <= m ==> i < |bs[l].threads|)
    requires Writing(bs[k].threads[i]) && bs[m].threads[i] != bs[k].threads[i]
    ensures k <= a < m && bs[a].threads[i] == bs[k].threads[i] && StepWriter(bs[a], i, bs[a + 1])
    ensures bs[a + 1].threads[i] != bs[k].threads[i]
    decreases m - k
  {
    hide Step, StepWriter;
    assert AnyStep(bs[k], bs[k + 1]) by { assert AnyStep(bs[k + 1 - 1], bs[k + 1]); }
    var j: nat :| Step(bs[k], j, bs[k + 1]);
    OnlyOwnWrites(bs[k], j, bs[k + 1], i);
    if bs[k + 1].threads[i] != bs[k].threads[i] {
      a := k;
    } else {
      a := NextWrite(bs, i, k + 1, m);
    }
  }

  /** Thread i begins a write at k and is done with it at m. */
  ghost predicate Writes(bs: seq<Barrier>, i: nat, k: nat, m: nat) {
    && k < m < |bs| && (forall l :: k <= l <= m ==> i < |bs[l].threads|)
    && (forall l :: k <= l < m ==> Writing(bs[l].threads[i])) && !Writing(bs[m].threads[i])
  }

  /** Once a reconciliation is done, everything up to its watermark that was admitted when it began is reconciled. */
  lemma ReconcileTakesEffect(bs: seq<Barrier>, i: nat, k: nat, m: nat)
    requires Run(bs) && Writes(bs, i, k, m) && bs[k].threads[i].ReconcileRead?
    ensures bs[m].reconciled >= Min(bs[k].threads[i].watermark, bs[k].admitted)
  {
    hide Run, Step;
    var a := NextWrite(bs, i, k, m);
    Watermarks(bs, k, a);
    var c := NextWrite(bs, i, a + 1, m);
    assert bs[c + 1].reconciled >= bs[c].threads[i].bounded;
    Watermarks(bs, c + 1, m);
  }

  /** A restoration clears the flag before it reconciles, and a mark sets it, at a step of its own. */
  lemma FlagTakesEffect(bs: seq<Barrier>, i: nat, k: nat, m: nat) returns (a: nat)
    requires Run(bs) && Writes(bs, i, k, m) && (bs[k].threads[i].RestoreStore? || bs[k].threads[i].MarkStore?)
    ensures k <= a < m && bs[a + 1].unavailable == bs[k].threads[i].MarkStore?
    ensures bs[k].threads[i].RestoreStore? ==> bs[m].reconciled >= Min(bs[k].threads[i].watermark, bs[k].admitted)
  {
    hide Run, Step;
    a := NextWrite(bs, i, k, m);
    if bs[k].threads[i].RestoreStore? {
      Watermarks(bs, k, a + 1);
      ReconcileTakesEffect(bs, i, a + 1, m);
    }
  }

  lemma StepChanges(b: Barrier, i: nat, b': Barrier)
    requires Step(b, i, b')
    ensures i < |b.threads|
    ensures b'.reconciled > b.reconciled ==> b.threads[i] == ReconcileStore(b'.reconciled)
    ensures b'.unavailable && !b.unavailable ==> b.threads[i].MarkStore?
    ensures !b'.unavailable && b.unavailable ==> b.threads[i].RestoreStore?
    ensures b'.admitted > b.admitted ==> b.threads[i].Idle? || b.threads[i].Answered?
  {
  }

  lemma {:induction false} StoreWasAsked(bs: seq<Barrier>, k: nat, i: nat) returns (j: nat)
    requires Run(bs) && k < |bs| && i < |bs[k].threads| && bs[k].threads[i].ReconcileStore?
    ensures j < k && i < |bs[j].threads| && bs[j].threads[i].ReconcileRead?
    ensures bs[j].threads[i].watermark >= bs[k].threads[i].bounded
  {
    hide Step;
    assert AnyStep(bs[k - 1], bs[k]);
    var q: nat :| Step(bs[k - 1], q, bs[k]);
    StoreComesFrom(bs[k - 1], q, bs[k], i);
    if bs[k - 1].threads[i] == bs[k].threads[i] {
      j := StoreWasAsked(bs, k - 1, i);
    } else {
      j := k - 1;
    }
  }

  lemma StoreComesFrom(b: Barrier, q: nat, b': Barrier, i: nat)
    requires Step(b, q, b') && i < |b'.threads| && b'.threads[i].ReconcileStore?
    ensures i < |b.threads|
    ensures || b.threads[i] == b'.threads[i]
            || (b.threads[i].ReconcileRead? && b.threads[i].watermark >= b'.threads[i].bounded)
  {
  }

  /** Nothing is reconciled that nobody asked for: the watermark is the initial one or below one that was passed in. */
  lemma {:induction false} ReconciledWasAsked(bs: seq<Barrier>, m: nat)
    requires Run(bs) && m < |bs|
    ensures || bs[m].reconciled == bs[0].reconciled
            || exists k: nat, i: nat :: k < m && i < |bs[k].threads| && bs[k].threads[i].ReconcileRead? &&
                                        bs[k].threads[i].watermark >= bs[m].reconciled
  {
    hide Step;
    if m > 0 {
      ReconciledWasAsked(bs, m - 1);
      assert AnyStep(bs[m - 1], bs[m]);
      var i: nat :| Step(bs[m - 1], i, bs[m]);
      StepChanges(bs[m - 1], i, bs[m]);
      StepGrows(bs[m - 1], i, bs[m]);
      if bs[m].reconciled > bs[m - 1].reconciled {
        var j := StoreWasAsked(bs, m - 1, i);
        assert bs[j].threads[i].watermark >= bs[m].reconciled;
      }
    }
  }

  // What a thread does when it is alone.

  /** Thread i takes all these steps. */
  ghost predicate Alone(bs: seq<Barrier>, i: nat) {
    bs != [] && forall k :: 0 < k < |bs| ==> Step(bs[k - 1], i, bs[k])
  }

  lemma ThenStep(bs: seq<Barrier>, i: nat, b: Barrier)
    requires Alone(bs, i) && Step(bs[|bs| - 1], i, b)
    ensures Alone(bs + [b], i)
  {
    hide Step;
  }

  lemma MoveTo(bs: seq<Barrier>, i: nat, pc: Pc) returns (cs: seq<Barrier>)
    requires Alone(bs, i) && i < |bs[|bs| - 1].threads|
    requires Step(bs[|bs| - 1], i, bs[|bs| - 1].(threads := bs[|bs| - 1].threads[i := pc]))
    ensures Alone(cs, i) && cs[0] == bs[0]
    ensures cs[|cs| - 1] == bs[|bs| - 1].(threads := bs[|bs| - 1].threads[i := pc])
  {
    hide Step;
    var b := bs[|bs| - 1].(threads := bs[|bs| - 1].threads[i := pc]);
    ThenStep(bs, i, b);
    cs := bs + [b];
  }

  /** A thread at rest can begin any operation, and can admit a change. */
  lemma CanBegin(b: Barrier, i: nat, next: Pc, w: nat)
    requires i < |b.threads| && (b.threads[i].Idle? || b.threads[i].Answered?)
    ensures next.ReconcileRead? || next.RestoreStore? || next.MarkStore? || next.Capture? ==>
              Step(b, i, b.(threads := b.threads[i := next]))
    ensures Step(b, i, b.(admitted := b.admitted + 1))
    ensures Step(b, i, b.(admitted := if w > b.admitted then w else b.admitted))
  {
    if next.ReconcileRead? || next.RestoreStore? || next.MarkStore? || next.Capture? {
      assert Begins(next) && Moves(b, i, b.(threads := b.threads[i := next]), next);
    }
    assert b.(admitted := if w > b.admitted then w else b.admitted) == b.(admitted := Max(b.admitted, w));
  }

  /** An immediate query that nobody disturbs answers by the state it finds and changes nothing else. */
  lemma ReadsAlone(b: Barrier, i: nat, policy: Policy) returns (bs: seq<Barrier>)
    requires i < |b.threads| && b.threads[i] == Capture(policy) && !policy.AwaitLatest?
    ensures Alone(bs, i) && bs[0] == b
    ensures var b', strict := bs[|bs| - 1], policy.RequireCurrent?;
            && i < |b'.threads| && b'.threads[i].Answered? && b'.threads[i].policy == policy
            && b'.threads[i].outcome == (if b.unavailable then
                                           if strict then Err(SourceUnavailable) else Ok(Unavailable)
                                         else if b.reconciled >= b.admitted then Ok(Current)
                                         else if strict then Err(Stale) else Ok(PotentiallyStale))
            && b' == b.(threads := b.threads[i := b'.threads[i]])
  {
    bs := [b];
    assert StepReader(b, i, b.(threads := b.threads[i := ReadUnavailable(policy)]));
    bs := MoveTo(bs, i, ReadUnavailable(policy));
    var c := bs[|bs| - 1];
    if b.unavailable {
      var answer := Answered(policy, StrictAnswer(policy, Unavailable), 0);
      assert StepReader(c, i, c.(threads := c.threads[i := answer]));
      bs := MoveTo(bs, i, answer);
    } else {
      assert StepReader(c, i, c.(threads := c.threads[i := ReadReconciled(policy)]));
      bs := MoveTo(bs, i, ReadReconciled(policy));
      var d := bs[|bs| - 1];
      assert StepReader(d, i, d.(threads := d.threads[i := ReadAdmitted(policy, b.reconciled)]));
      bs := MoveTo(bs, i, ReadAdmitted(policy, b.reconciled));
      var e := bs[|bs| - 1];
      var state := if b.reconciled >= b.admitted then Current else PotentiallyStale;
      var answer := Answered(policy, StrictAnswer(policy, state), 0);
      assert StepReader(e, i, e.(threads := e.threads[i := answer]));
      bs := MoveTo(bs, i, answer);
    }
  }

  /** A waiting query that nobody disturbs answers at once if it can, and otherwise parks with what is admitted now as
      its target; from there its time may run out. */
  lemma WaitsAlone(b: Barrier, i: nat) returns (bs: seq<Barrier>)
    requires i < |b.threads| && b.threads[i] == Capture(AwaitLatest)
    ensures Alone(bs, i) && bs[0] == b
    ensures var b' := bs[|bs| - 1];
            && i < |b'.threads| && b' == b.(threads := b.threads[i := b'.threads[i]])
            && b'.threads[i] == (if b.unavailable then Answered(AwaitLatest, Err(SourceUnavailable), b.admitted)
                                 else if b.reconciled >= b.admitted then Answered(AwaitLatest, Ok(Current), b.admitted)
                                 else Parked(b.admitted, false))
            && (b'.threads[i].Parked? ==>
                  Step(b', i, b'.(threads := b'.threads[i := Answered(AwaitLatest, Err(Stale), b.admitted)])))
  {
    var t := b.admitted;
    bs := [b];
    assert StepReader(b, i, b.(threads := b.threads[i := Register(t)]));
    bs := MoveTo(bs, i, Register(t));
    var c := bs[|bs| - 1];
    assert StepWaiter(c, i, c.(threads := c.threads[i := CheckUnavailable(t, false)]));
    bs := MoveTo(bs, i, CheckUnavailable(t, false));
    var d := bs[|bs| - 1];
    var next := if b.unavailable then Answered(AwaitLatest, Err(SourceUnavailable), t) else CheckReconciled(t, false);
    assert StepWaiter(d, i, d.(threads := d.threads[i := next]));
    bs := MoveTo(bs, i, next);
    if !b.unavailable {
      var e := bs[|bs| - 1];
      var last := if b.reconciled >= t then Answered(AwaitLatest, Ok(Current), t) else Parked(t, false);
      assert StepWaiter(e, i, e.(threads := e.threads[i := last]));
      bs := MoveTo(bs, i, last);
      var f := bs[|bs| - 1];
      if last.Parked? {
        assert StepWaiter(f, i, f.(threads := f.threads[i := Answered(AwaitLatest, Err(Stale), t)]));
      }
    }
  }

  /** A reconciliation that nobody disturbs raises the watermark to the given one, as far as that is admitted, and wakes
      every registered waiter. */
  lemma ReconcilesAlone(b: Barrier, i: nat, w: nat) returns (bs: seq<Barrier>)
    requires i < |b.threads| && b.threads[i] == ReconcileRead(w) && b.reconciled <= b.admitted
    ensures Alone(bs, i) && bs[0] == b
    ensures var b', bounded := bs[|bs| - 1], if w <= b.admitted then w else b.admitted;
            && b'.admitted == b.admitted && b'.unavailable == b.unavailable
            && b'.reconciled == (if bounded > b.reconciled then bounded else b.reconciled)
            && |b'.threads| == |b.threads| && b'.threads[i].Idle?
            && forall j :: 0 <= j < |b.threads| && j != i ==>
                 b'.threads[j] == if Registered(b.threads[j]) then b.threads[j].(notified := true) else b.threads[j]
  {
    var m := Min(w, b.admitted);
    bs := [b];
    assert StepWriter(b, i, b.(threads := b.threads[i := ReconcileStore(m)]));
    bs := MoveTo(bs, i, ReconcileStore(m));
    var c := bs[|bs| - 1];
    var d := c.(reconciled := Max(c.reconciled, m), threads := c.threads[i := Notifying]);
    assert StepWriter(c, i, d);
    ThenStep(bs, i, d);
    bs := bs + [d];
    var e := d.(threads := WakeAll(d.threads)[i := Idle]);
    assert StepWriter(d, i, e);
    ThenStep(bs, i, e);
    bs := bs + [e];
  }

  /** A mark sets the flag and goes on to notify; a restoration clears it and goes on to reconcile. */
  lemma FlagsAlone(b: Barrier, i: nat)
    requires i < |b.threads|
    ensures b.threads[i].MarkStore? ==> Step(b, i, b.(unavailable := true, threads := b.threads[i := Notifying]))
    ensures b.threads[i].RestoreStore? ==>
              Step(b, i, b.(unavailable := false, threads := b.threads[i := ReconcileRead(b.threads[i].watermark)]))
  {
    if b.threads[i].MarkStore? {
      assert StepWriter(b, i, b.(unavailable := true, threads := b.threads[i := Notifying]));
    } else if b.threads[i].RestoreStore? {
      var next := ReconcileRead(b.threads[i].watermark);
      assert StepWriter(b, i, b.(unavailable := false, threads := b.threads[i := next]));
    }
  }
}
