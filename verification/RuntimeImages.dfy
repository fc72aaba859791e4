/** The shared runtime-image cache: processes, one global lock, and leases that outlive the lock. */
module RuntimeImages {
  import opened Prelude
  import opened Bytes

  const MAX_CACHE_IMAGES: nat := 8
  const MAX_CACHE_BYTES: nat := 192 * 1024 * 1024 * 1024
  const MAX_IMAGE_BYTES: nat := 96 * 1024 * 1024 * 1024

  type Observation = Bytes

  /** A published directory. Its generation stands for the inode of its lease file. */
  datatype Image = Image(generation: nat, observation: Observation, bytes: nat, intact: bool)

  /** A live runtime image in some process; as long as it lives, its lease is locked shared. */
  datatype Handle = Handle(id: nat, process: nat, observation: Observation, generation: nat)

  datatype Pc =
    | Idle
    | Retained(handle: Handle)
    | Locking(wanted: Observation)
    | Collecting(wanted: Observation, todo: set<Observation>, count: nat, bytes: nat)
    | Removing(wanted: Observation, todo: set<Observation>, count: nat, bytes: nat, victim: Observation)
    | Deciding(wanted: Observation, bytes: nat)
    | Staging(wanted: Observation, bytes: nat, nonce: nat)
    | Opening(wanted: Observation)
    | Validating(wanted: Observation, generation: nat)
    | Acquired(wanted: Observation, handle: Handle)

  datatype Process = Process(pc: Pc, retained: Option<Handle>)

  datatype Cache = Cache(lock: Option<nat>, images: map<Observation, Image>, handles: set<Handle>, stages: set<nat>,
                         processes: seq<Process>, nextId: nat, nextGeneration: nat)

  predicate HoldsLock(pc: Pc) {
    pc.Collecting? || pc.Removing? || pc.Deciding? || pc.Staging? || pc.Opening? || pc.Validating?
  }

  /** Somebody holds the image's lease shared. */
  predicate Leased(c: Cache, o: Observation)
    requires o in c.images
  {
    exists h :: h in c.handles && h.observation == o && h.generation == c.images[o].generation
  }

  function Goto(c: Cache, p: nat, pc: Pc): Cache
    requires p < |c.processes|
  {
    c.(processes := c.processes[p := c.processes[p].(pc := pc)])
  }

  function Unlocked(c: Cache, p: nat, pc: Pc): Cache
    requires p < |c.processes|
  {
    Goto(c, p, pc).(lock := None)
  }

  function WithoutRetained(c: Cache, p: nat): Cache
    requires p < |c.processes|
  {
    var kept := match c.processes[p].retained case None => c.handles case Some(h) => c.handles - {h};
    c.(handles := kept, processes := c.processes[p := c.processes[p].(retained := None)])
  }

  // One action of process p.

  /** Begin: the retained image short-cuts the lock if it has the wanted observation. */
  predicate Begin(c: Cache, p: nat, wanted: Observation, c': Cache)
    requires p < |c.processes|
  {
    var me := c.processes[p];
    && (me.pc.Idle? || me.pc.Acquired?)
    && c' == Goto(c, p, if me.retained.Some? && me.retained.value.observation == wanted
                        then Retained(me.retained.value) else Locking(wanted))
  }

  /** The retained image still passes validation: hand out a clone, without any lock. */
  predicate Reuse(c: Cache, p: nat, c': Cache)
    requires p < |c.processes|
  {
    var me := c.processes[p];
    && me.pc.Retained?
    && var h := me.pc.handle; var clone := h.(id := c.nextId);
       && h.observation in c.images && c.images[h.observation].intact
       && c' == Goto(c, p, Acquired(h.observation, clone)).(handles := c.handles + {clone}, nextId := c.nextId + 1)
  }

  predicate Lock(c: Cache, p: nat, c': Cache)
    requires p < |c.processes|
  {
    && c.processes[p].pc.Locking? && c.lock.None?
    && c' == Goto(WithoutRetained(c, p), p, Collecting(c.processes[p].pc.wanted, c.images.Keys, 0, 0)).(lock := Some(p))
  }

  /** Look at one directory entry: leased or wanted images are counted, others are to be removed. */
  predicate Inspect(c: Cache, p: nat, o: Observation, c': Cache)
    requires p < |c.processes|
  {
    var pc := c.processes[p].pc;
    && pc.Collecting? && o in pc.todo && o in c.images
    && c' == Goto(c, p, if Leased(c, o) || o == pc.wanted
                        then Collecting(pc.wanted, pc.todo - {o}, pc.count + 1, pc.bytes + c.images[o].bytes)
                        else Removing(pc.wanted, pc.todo - {o}, pc.count, pc.bytes, o))
  }

  /** Removal is not atomic: parts of the image go before the directory does. */
  predicate RemovePart(c: Cache, p: nat, c': Cache)
    requires p < |c.processes|
  {
    var pc := c.processes[p].pc;
    && pc.Removing? && pc.victim in c.images
    && c' == c.(images := c.images[pc.victim := c.images[pc.victim].(intact := false)])
  }

  predicate RemoveRest(c: Cache, p: nat, c': Cache)
    requires p < |c.processes|
  {
    var pc := c.processes[p].pc;
    && pc.Removing?
    && c' == Goto(c, p, Collecting(pc.wanted, pc.todo, pc.count, pc.bytes)).(images := c.images - {pc.victim})
  }

  predicate Collected(c: Cache, p: nat, c': Cache)
    requires p < |c.processes|
  {
    var pc := c.processes[p].pc;
    && pc.Collecting? && pc.todo == {}
    && !(pc.count > MAX_CACHE_IMAGES || (pc.count == MAX_CACHE_IMAGES && pc.wanted !in c.images)
         || pc.bytes > MAX_CACHE_BYTES)
    && c' == Goto(c, p, Deciding(pc.wanted, pc.bytes)).(stages := {})
  }

  predicate Decide(c: Cache, p: nat, nonce: nat, c': Cache)
    requires p < |c.processes|
  {
    var pc := c.processes[p].pc;
    && pc.Deciding?
    && if pc.wanted in c.images then c' == Goto(c, p, Opening(pc.wanted))
       else nonce !in c.stages && c' == Goto(c, p, Staging(pc.wanted, pc.bytes, nonce)).(stages := c.stages + {nonce})
  }

  /** Publish a complete capture by renaming its staging directory; the capture keeps to the room left. */
  predicate Publish(c: Cache, p: nat, bytes: nat, c': Cache)
    requires p < |c.processes|
  {
    var pc := c.processes[p].pc;
    && pc.Staging? && pc.nonce in c.stages && bytes <= MAX_IMAGE_BYTES && pc.bytes + bytes <= MAX_CACHE_BYTES
    && c' == Goto(c, p, Opening(pc.wanted)).(
               images := c.images[pc.wanted := Image(c.nextGeneration, pc.wanted, bytes, true)],
               stages := c.stages - {pc.nonce}, nextGeneration := c.nextGeneration + 1)
  }

  predicate Open(c: Cache, p: nat, c': Cache)
    requires p < |c.processes|
  {
    var pc := c.processes[p].pc;
    && pc.Opening? && pc.wanted in c.images && c.images[pc.wanted].observation == pc.wanted
    && c' == Goto(c, p, Validating(pc.wanted, c.images[pc.wanted].generation))
  }

  /** The image validates: keep its lease, retain a clone, and let the lock go. */
  predicate Validate(c: Cache, p: nat, c': Cache)
    requires p < |c.processes|
  {
    var pc := c.processes[p].pc;
    && pc.Validating? && pc.wanted in c.images && c.images[pc.wanted].intact
    && var h := Handle(c.nextId, p, pc.wanted, pc.generation); var kept := h.(id := c.nextId + 1);
       c' == c.(lock := None, handles := c.handles + {h, kept}, nextId := c.nextId + 2,
                processes := c.processes[p := Process(Acquired(pc.wanted, h), Some(kept))])
  }

  /** Any failure ends the attempt; staging left behind waits for the next collection. */
  predicate Fail(c: Cache, p: nat, c': Cache)
    requires p < |c.processes|
  {
    var pc := c.processes[p].pc;
    && !pc.Idle? && !pc.Acquired?
    && c' == if HoldsLock(pc) then Unlocked(c, p, Idle) else Goto(c, p, Idle)
  }

  /** A runtime image other than the retained one is dropped. */
  predicate Release(c: Cache, p: nat, h: Handle, c': Cache)
    requires p < |c.processes|
  {
    && h in c.handles && h.process == p && c.processes[p].retained != Some(h)
    && c' == c.(handles := c.handles - {h})
  }

  /** An image is cloned for another user in the same process. */
  predicate Clone(c: Cache, p: nat, h: Handle, c': Cache)
    requires p < |c.processes|
  {
    && h in c.handles && h.process == p
    && c' == c.(handles := c.handles + {h.(id := c.nextId)}, nextId := c.nextId + 1)
  }

  /** The kernel closes everything a crashed process held. */
  predicate Crash(c: Cache, p: nat, c': Cache)
    requires p < |c.processes|
  {
    c' == c.(lock := if c.lock == Some(p) then None else c.lock,
             handles := (set h | h in c.handles && h.process != p),
             processes := c.processes[p := Process(Idle, None)])
  }

  ghost predicate Step(c: Cache, p: nat, c': Cache) {
    && p < |c.processes|
    && (|| (exists o :: Begin(c, p, o, c')) || Reuse(c, p, c') || Lock(c, p, c')
        || (exists o :: Inspect(c, p, o, c')) || RemovePart(c, p, c') || RemoveRest(c, p, c') || Collected(c, p, c')
        || (exists nonce: nat :: Decide(c, p, nonce, c')) || (exists bytes: nat :: Publish(c, p, bytes, c'))
        || Open(c, p, c') || Validate(c, p, c') || Fail(c, p, c')
        || (exists h :: Release(c, p, h, c')) || (exists h :: Clone(c, p, h, c')) || Crash(c, p, c'))
  }

  ghost predicate Initial(c: Cache) {
    && c.lock.None? && c.images == map[] && c.handles == {}
    && forall p :: 0 <= p < |c.processes| ==> c.processes[p] == Process(Idle, None)
  }

  // The size of the cache.

  ghost function Total(images: map<Observation, Image>, s: set<Observation>): nat
    requires s <= images.Keys
  {
    if s == {} then 0 else var o :| o in s; images[o].bytes + Total(images, s - {o})
  }

  lemma {:induction false} TotalSplits(images: map<Observation, Image>, s: set<Observation>, o: Observation)
    requires s <= images.Keys && o in s
    ensures Total(images, s) == images[o].bytes + Total(images, s - {o})
    decreases s
  {
    var first :| first in s && Total(images, s) == images[first].bytes + Total(images, s - {first});
    if first != o {
      TotalSplits(images, s - {first}, o);
      TotalSplits(images, s - {o}, first);
      assert s - {first} - {o} == s - {o} - {first};
    }
  }

  lemma {:induction false} TotalAgrees(images: map<Observation, Image>, images': map<Observation, Image>,
                                       s: set<Observation>)
    requires s <= images.Keys && s <= images'.Keys && forall o :: o in s ==> images[o].bytes == images'[o].bytes
    ensures Total(images, s) == Total(images', s)
    decreases s
  {
    if s != {} {
      var o :| o in s;
      TotalSplits(images, s, o);
      TotalSplits(images', s, o);
      TotalAgrees(images, images', s - {o});
    }
  }

  ghost function CacheBytes(images: map<Observation, Image>): nat {
    Total(images, images.Keys)
  }

  // What every action keeps.

  /** The image behind a live handle is there, complete, and the one that was acquired. */
  ghost predicate Safe(c: Cache, h: Handle) {
    && h.observation in c.images
    && c.images[h.observation].generation == h.generation
    && c.images[h.observation].observation == h.observation
    && c.images[h.observation].intact
  }

  ghost predicate SaneProcess(c: Cache, p: nat)
    requires p < |c.processes|
  {
    var me := c.processes[p];
    && (HoldsLock(me.pc) <==> c.lock == Some(p))
    && (me.retained.Some? ==> me.retained.value in c.handles && me.retained.value.process == p)
    && (me.pc.Retained? ==> me.retained == Some(me.pc.handle))
  }

  /** How far the lock holder has got. */
  ghost predicate SaneHolder(c: Cache, pc: Pc) {
    match pc
    case Collecting(_, todo, count, bytes) =>
      todo <= c.images.Keys && count + |todo| == |c.images| && bytes + Total(c.images, todo) == CacheBytes(c.images)
    case Removing(wanted, todo, count, bytes, victim) =>
      todo <= c.images.Keys && victim in c.images && victim !in todo && victim != wanted &&
      count + |todo| + 1 == |c.images| &&
      bytes + Total(c.images, todo) + c.images[victim].bytes == CacheBytes(c.images) &&
      !exists h :: h in c.handles && h.observation == victim
    case Deciding(wanted, bytes) => (wanted in c.images || |c.images| < MAX_CACHE_IMAGES)
        && bytes == CacheBytes(c.images)
    case Staging(wanted, bytes, nonce) =>
      wanted !in c.images && |c.images| < MAX_CACHE_IMAGES && nonce in c.stages && bytes == CacheBytes(c.images)
    case Validating(wanted, generation) => wanted in c.images && c.images[wanted].generation == generation
    case _ => true
  }

  ghost predicate Invariant(c: Cache) {
    && (forall h :: h in c.handles ==> Safe(c, h))
    && (forall o :: o in c.images ==> c.images[o].observation == o)
    && |c.images| <= MAX_CACHE_IMAGES && CacheBytes(c.images) <= MAX_CACHE_BYTES
    && (c.lock.Some? ==> c.lock.value < |c.processes|)
    && (forall p: nat :: p < |c.processes| ==> SaneProcess(c, p))
    && (forall p: nat :: p < |c.processes| && c.lock == Some(p) ==> SaneHolder(c, c.processes[p].pc))
  }

  /** Moving one process on, with nothing else changed. */
  lemma GotoKeeps(c: Cache, p: nat, pc: Pc)
    requires Invariant(c) && p < |c.processes| && (HoldsLock(pc) <==> c.lock == Some(p))
    requires pc.Retained? ==> c.processes[p].retained == Some(pc.handle)
    requires c.lock == Some(p) ==> SaneHolder(c, pc)
    ensures Invariant(Goto(c, p, pc))
  {
    hide SaneHolder;
    var c' := Goto(c, p, pc);
    forall q: nat | q < |c'.processes| ensures SaneProcess(c', q) { assert SaneProcess(c, q); }
    forall h | h in c'.handles ensures Safe(c', h) { assert Safe(c, h); }
    if c.lock.Some? && c.lock != Some(p) { SameHolder(c, c', c.processes[c.lock.value].pc); }
    if c.lock == Some(p) { SameHolder(c, c', pc); }
  }

  lemma SameHolder(c: Cache, c': Cache, pc: Pc)
    requires SaneHolder(c, pc) && c'.images == c.images && c'.stages == c.stages && c'.handles == c.handles
    ensures SaneHolder(c', pc)
  {
  }

  lemma BeginKeeps(c: Cache, p: nat, wanted: Observation, c': Cache)
    requires Invariant(c) && p < |c.processes| && Begin(c, p, wanted, c')
    ensures Invariant(c')
  {
    assert SaneProcess(c, p);
    GotoKeeps(c, p, c'.processes[p].pc);
  }

  lemma ReuseKeeps(c: Cache, p: nat, c': Cache)
    requires Invariant(c) && p < |c.processes| && Reuse(c, p, c')
    ensures Invariant(c')
  {
    assert SaneProcess(c, p);
    var h := c.processes[p].pc.handle;
    assert Safe(c, h);
    GotoKeeps(c, p, c'.processes[p].pc);
    MoreHandles(Goto(c, p, c'.processes[p].pc), h.(id := c.nextId));
  }

  /** A further handle on a leased image, in the same process, changes nothing for anyone. */
  lemma MoreHandles(c: Cache, h: Handle)
    requires Invariant(c) && Safe(c, h) && exists g :: g in c.handles && g.observation == h.observation
    ensures Invariant(c.(handles := c.handles + {h}, nextId := c.nextId + 1))
  {
    var c' := c.(handles := c.handles + {h}, nextId := c.nextId + 1);
    forall q: nat | q < |c'.processes| ensures SaneProcess(c', q) { assert SaneProcess(c, q); }
    forall g | g in c'.handles ensures Safe(c', g) { if g in c.handles { assert Safe(c, g); } }
    if c.lock.Some? {
      var pc := c.processes[c.lock.value].pc;
      assert SaneHolder(c, pc);
      assert SaneHolder(c', pc);
    }
  }

  /** Fewer handles can only make room. */
  lemma FewerHandles(c: Cache, handles: set<Handle>)
    requires Invariant(c) && handles <= c.handles
    requires forall p: nat :: p < |c.processes| && c.processes[p].retained.Some? ==>
             c.processes[p].retained.value in handles
    ensures Invariant(c.(handles := handles))
  {
    var c' := c.(handles := handles);
    forall q: nat | q < |c'.processes| ensures SaneProcess(c', q) { assert SaneProcess(c, q); }
    forall g | g in c'.handles ensures Safe(c', g) { assert Safe(c, g); }
    if c.lock.Some? {
      var pc := c.processes[c.lock.value].pc;
      assert SaneHolder(c, pc);
      assert SaneHolder(c', pc);
    }
  }

  lemma DropRetained(c: Cache, p: nat)
    requires Invariant(c) && p < |c.processes| && !c.processes[p].pc.Retained?
    ensures Invariant(WithoutRetained(c, p))
  {
    var c' := c.(processes := c.processes[p := c.processes[p].(retained := None)]);
    forall q: nat | q < |c'.processes| ensures SaneProcess(c', q) { assert SaneProcess(c, q); }
    forall g | g in c'.handles ensures Safe(c', g) { assert Safe(c, g); }
    if c.lock.Some? { SameHolder(c, c', c.processes[c.lock.value].pc); }
    assert Invariant(c');
    forall q: nat | q < |c'.processes| && c'.processes[q].retained.Some?
      ensures c'.processes[q].retained.value in WithoutRetained(c, p).handles
    {
      assert SaneProcess(c, q) && SaneProcess(c, p);
    }
    FewerHandles(c', WithoutRetained(c, p).handles);
  }

  lemma LockKeeps(c: Cache, p: nat, c': Cache)
    requires Invariant(c) && p < |c.processes| && Lock(c, p, c')
    ensures Invariant(c')
  {
    DropRetained(c, p);
    var d := WithoutRetained(c, p);
    forall q: nat | q < |c'.processes| ensures SaneProcess(c', q) { assert SaneProcess(d, q); }
    forall g | g in c'.handles ensures Safe(c', g) { assert Safe(d, g); }
  }

  lemma InspectKeeps(c: Cache, p: nat, o: Observation, c': Cache)
    requires Invariant(c) && p < |c.processes| && Inspect(c, p, o, c')
    ensures Invariant(c')
    ensures var pc, pc' := c.processes[p].pc, c'.processes[p].pc;
            if pc'.Removing? then pc'.victim == o != pc.wanted && forall h :: h in c.handles ==> h.observation != o
            else pc'.Collecting? && pc'.count == pc.count + 1 && pc'.bytes == pc.bytes + c.images[o].bytes
  {
    assert SaneProcess(c, p);
    var pc := c.processes[p].pc;
    assert SaneHolder(c, pc);
    assert |pc.todo - {o}| == |pc.todo| - 1;
    TotalSplits(c.images, pc.todo, o);
    if !Leased(c, o) {
      forall h | h in c.handles ensures h.observation != o { assert Safe(c, h); }
    }
    GotoKeeps(c, p, c'.processes[p].pc);
  }

  /** What changes only the victim's image leaves every live handle alone. */
  lemma VictimOnly(c: Cache, p: nat, c': Cache, victim: Observation)
    requires Invariant(c) && p < |c.processes| && c.lock == Some(p) && c'.lock == Some(p)
             && |c'.processes| == |c.processes|
    requires c'.handles == c.handles && !exists h :: h in c.handles && h.observation == victim
    requires forall o :: o != victim ==>
               (o in c'.images <==> o in c.images) && (o in c.images ==> c'.images[o] == c.images[o])
    requires victim in c'.images ==> c'.images[victim].observation == victim
    requires |c'.images| <= MAX_CACHE_IMAGES && CacheBytes(c'.images) <= MAX_CACHE_BYTES
    requires forall q: nat :: q < |c.processes| && q != p ==> c'.processes[q] == c.processes[q]
    requires c'.processes[p].retained == c.processes[p].retained && HoldsLock(c'.processes[p].pc)
    requires SaneHolder(c', c'.processes[p].pc)
    ensures Invariant(c')
  {
    hide SaneHolder;
    forall q: nat | q < |c'.processes| ensures SaneProcess(c', q) { assert SaneProcess(c, q); }
    forall g | g in c'.handles ensures Safe(c', g) { assert Safe(c, g); }
  }

  lemma RemovePartKeeps(c: Cache, p: nat, c': Cache)
    requires Invariant(c) && p < |c.processes| && RemovePart(c, p, c')
    ensures Invariant(c')
  {
    assert SaneProcess(c, p);
    var pc := c.processes[p].pc;
    assert SaneHolder(c, pc);
    assert c'.images.Keys == c.images.Keys;
    TotalAgrees(c.images, c'.images, c.images.Keys);
    TotalAgrees(c.images, c'.images, pc.todo);
    VictimOnly(c, p, c', pc.victim);
  }

  lemma RemovedTotals(images: map<Observation, Image>, victim: Observation, todo: set<Observation>)
    requires victim in images && victim !in todo && todo <= images.Keys
    ensures var rest := images - {victim};
            && |rest| == |images| - 1 && todo <= rest.Keys
            && Total(rest, todo) == Total(images, todo) && CacheBytes(images) == CacheBytes(rest) + images[victim].bytes
  {
    var rest := images - {victim};
    assert rest.Keys == images.Keys - {victim};
    TotalSplits(images, images.Keys, victim);
    TotalAgrees(images, rest, rest.Keys);
    TotalAgrees(images, rest, todo);
  }

  lemma RemoveRestKeeps(c: Cache, p: nat, c': Cache)
    requires Invariant(c) && p < |c.processes| && RemoveRest(c, p, c')
    ensures Invariant(c')
  {
    assert SaneProcess(c, p);
    var pc := c.processes[p].pc;
    assert SaneHolder(c, pc);
    RemovedTotals(c.images, pc.victim, pc.todo);
    VictimOnly(c, p, c', pc.victim);
  }

  lemma CollectedKeeps(c: Cache, p: nat, c': Cache)
    requires Invariant(c) && p < |c.processes| && Collected(c, p, c')
    ensures Invariant(c')
  {
    assert SaneProcess(c, p);
    var pc := c.processes[p].pc;
    assert SaneHolder(c, pc);
    GotoKeeps(c, p, Deciding(pc.wanted, pc.bytes));
    NewStages(Goto(c, p, Deciding(pc.wanted, pc.bytes)), p, {});
  }

  lemma NewStages(c: Cache, p: nat, stages: set<nat>)
    requires Invariant(c) && c.lock == Some(p) && p < |c.processes|
    requires c.processes[p].pc.Staging? ==> c.processes[p].pc.nonce in stages
    ensures Invariant(c.(stages := stages))
  {
    var c' := c.(stages := stages);
    forall q: nat | q < |c'.processes| ensures SaneProcess(c', q) { assert SaneProcess(c, q); }
    forall g | g in c'.handles ensures Safe(c', g) { assert Safe(c, g); }
    assert SaneHolder(c, c.processes[p].pc);
    assert SaneHolder(c', c.processes[p].pc);
  }

  lemma DecideKeeps(c: Cache, p: nat, nonce: nat, c': Cache)
    requires Invariant(c) && p < |c.processes| && Decide(c, p, nonce, c')
    ensures Invariant(c')
  {
    assert SaneProcess(c, p);
    var pc := c.processes[p].pc;
    assert SaneHolder(c, pc);
    if pc.wanted in c.images {
      GotoKeeps(c, p, Opening(pc.wanted));
    } else {
      NewStages(c, p, c.stages + {nonce});
      GotoKeeps(c.(stages := c.stages + {nonce}), p, Staging(pc.wanted, pc.bytes, nonce));
    }
  }

  lemma AddedTotals(images: map<Observation, Image>, o: Observation, image: Image)
    requires o !in images
    ensures var more := images[o := image];
            |more| == |images| + 1 && CacheBytes(more) == CacheBytes(images) + image.bytes && more - {o} == images
  {
    var more := images[o := image];
    assert more.Keys == images.Keys + {o} && more.Keys - {o} == images.Keys;
    TotalSplits(more, more.Keys, o);
    TotalAgrees(images, more, images.Keys);
  }

  lemma PublishKeeps(c: Cache, p: nat, bytes: nat, c': Cache)
    requires Invariant(c) && p < |c.processes| && Publish(c, p, bytes, c')
    ensures Invariant(c')
    ensures var wanted := c.processes[p].pc.wanted;
            && wanted !in c.images && wanted in c'.images && c'.images - {wanted} == c.images
            && c'.images[wanted].intact && c'.images[wanted].observation == wanted
            && CacheBytes(c'.images) == CacheBytes(c.images) + bytes
  {
    assert SaneProcess(c, p);
    var pc := c.processes[p].pc;
    assert SaneHolder(c, pc);
    AddedTotals(c.images, pc.wanted, c'.images[pc.wanted]);
    forall h | h in c.handles ensures h.observation != pc.wanted { assert Safe(c, h); }
    hide CacheBytes;
    VictimOnly(c, p, c', pc.wanted);
  }

  lemma OpenKeeps(c: Cache, p: nat, c': Cache)
    requires Invariant(c) && p < |c.processes| && Open(c, p, c')
    ensures Invariant(c')
  {
    assert SaneProcess(c, p);
    GotoKeeps(c, p, c'.processes[p].pc);
  }

  lemma ValidateKeeps(c: Cache, p: nat, c': Cache)
    requires Invariant(c) && p < |c.processes| && Validate(c, p, c')
    ensures Invariant(c') && c'.processes[p].pc.Acquired? && Safe(c', c'.processes[p].pc.handle)
  {
    assert SaneProcess(c, p);
    assert SaneHolder(c, c.processes[p].pc);
    forall q: nat | q < |c'.processes| ensures SaneProcess(c', q) { assert SaneProcess(c, q); }
    forall g | g in c'.handles ensures Safe(c', g) { if g in c.handles { assert Safe(c, g); } }
  }

  lemma FailKeeps(c: Cache, p: nat, c': Cache)
    requires Invariant(c) && p < |c.processes| && Fail(c, p, c')
    ensures Invariant(c')
  {
    assert SaneProcess(c, p);
    if HoldsLock(c.processes[p].pc) {
      forall q: nat | q < |c'.processes| ensures SaneProcess(c', q) { assert SaneProcess(c, q); }
      forall g | g in c'.handles ensures Safe(c', g) { assert Safe(c, g); }
    } else {
      GotoKeeps(c, p, Idle);
    }
  }

  lemma ReleaseKeeps(c: Cache, p: nat, h: Handle, c': Cache)
    requires Invariant(c) && p < |c.processes| && Release(c, p, h, c')
    ensures Invariant(c')
  {
    forall q: nat | q < |c.processes| && c.processes[q].retained.Some?
      ensures c.processes[q].retained.value in c'.handles
    {
      assert SaneProcess(c, q);
    }
    FewerHandles(c, c'.handles);
  }

  lemma CloneKeeps(c: Cache, p: nat, h: Handle, c': Cache)
    requires Invariant(c) && p < |c.processes| && Clone(c, p, h, c')
    ensures Invariant(c')
  {
    assert Safe(c, h);
    MoreHandles(c, h.(id := c.nextId));
  }

  lemma CrashKeeps(c: Cache, p: nat, c': Cache)
    requires Invariant(c) && p < |c.processes| && Crash(c, p, c')
    ensures Invariant(c')
    ensures c'.lock != Some(p) && c'.images == c.images
    ensures forall h :: h in c'.handles <==> h in c.handles && h.process != p
  {
    forall q: nat | q < |c'.processes| ensures SaneProcess(c', q) { assert SaneProcess(c, q); }
    forall g | g in c'.handles ensures Safe(c', g) { assert Safe(c, g); }
    if c'.lock.Some? {
      var pc := c.processes[c'.lock.value].pc;
      assert SaneHolder(c, pc);
      assert SaneHolder(c', pc);
    }
  }

  lemma StepKeeps(c: Cache, p: nat, c': Cache)
    requires Invariant(c) && Step(c, p, c')
    ensures Invariant(c')
  {
    hide Invariant, Begin, Reuse, Lock, Inspect, RemovePart, RemoveRest, Collected, Decide, Publish, Open, Validate,
         Fail, Release, Clone, Crash;
    if o :| Begin(c, p, o, c') { BeginKeeps(c, p, o, c'); }
    if Reuse(c, p, c') { ReuseKeeps(c, p, c'); }
    if Lock(c, p, c') { LockKeeps(c, p, c'); }
    if o :| Inspect(c, p, o, c') { InspectKeeps(c, p, o, c'); }
    if RemovePart(c, p, c') { RemovePartKeeps(c, p, c'); }
    if RemoveRest(c, p, c') { RemoveRestKeeps(c, p, c'); }
    if Collected(c, p, c') { CollectedKeeps(c, p, c'); }
    if nonce: nat :| Decide(c, p, nonce, c') { DecideKeeps(c, p, nonce, c'); }
    if bytes: nat :| Publish(c, p, bytes, c') { PublishKeeps(c, p, bytes, c'); }
    if Open(c, p, c') { OpenKeeps(c, p, c'); }
    if Validate(c, p, c') { ValidateKeeps(c, p, c'); }
    if Fail(c, p, c') { FailKeeps(c, p, c'); }
    if h :| Release(c, p, h, c') { ReleaseKeeps(c, p, h, c'); }
    if h :| Clone(c, p, h, c') { CloneKeeps(c, p, h, c'); }
    if Crash(c, p, c') { CrashKeeps(c, p, c'); }
  }

  // Whole runs.

  ghost predicate AnyStep(c: Cache, c': Cache) {
    exists p: nat :: Step(c, p, c')
  }

  ghost predicate Run(cs: seq<Cache>) {
    cs != [] && Initial(cs[0]) && forall k :: 0 < k < |cs| ==> AnyStep(cs[k - 1], cs[k])
  }

  lemma {:induction false} RunKeeps(cs: seq<Cache>, k: nat)
    requires Run(cs) && k < |cs|
    ensures Invariant(cs[k])
  {
    hide Step, Invariant;
    if k == 0 {
      InitialKeeps(cs[0]);
    } else {
      RunKeeps(cs, k - 1);
      assert AnyStep(cs[k - 1], cs[k]);
      var p: nat :| Step(cs[k - 1], p, cs[k]);
      StepKeeps(cs[k - 1], p, cs[k]);
    }
  }

  lemma InitialKeeps(c: Cache)
    requires Initial(c)
    ensures Invariant(c)
  {
  }

  lemma {:induction false} EachImageFits(cs: seq<Cache>, k: nat)
    requires Run(cs) && k < |cs|
    ensures forall o :: o in cs[k].images ==> cs[k].images[o].bytes <= 96 * 1024 * 1024 * 1024
  {
    hide Step;
    if k > 0 {
      EachImageFits(cs, k - 1);
      assert AnyStep(cs[k - 1], cs[k]);
      var p: nat :| Step(cs[k - 1], p, cs[k]);
      StepFits(cs[k - 1], p, cs[k]);
    }
  }

  lemma StepFits(c: Cache, p: nat, c': Cache)
    requires Step(c, p, c') && forall o :: o in c.images ==> c.images[o].bytes <= 96 * 1024 * 1024 * 1024
    ensures forall o :: o in c'.images ==> c'.images[o].bytes <= 96 * 1024 * 1024 * 1024
  {
  }

  /** Every live runtime image is published, complete and the one acquired; the cache keeps its bounds. */
  lemma LiveImagesAreSafe(cs: seq<Cache>, k: nat)
    requires Run(cs) && k < |cs|
    ensures forall h :: h in cs[k].handles ==> Safe(cs[k], h)
    ensures |cs[k].images| <= 8 && CacheBytes(cs[k].images) <= 192 * 1024 * 1024 * 1024
    ensures forall o :: o in cs[k].images ==> cs[k].images[o].bytes <= 96 * 1024 * 1024 * 1024
    ensures forall p: nat :: p < |cs[k].processes| && cs[k].processes[p].pc.Retained? ==>
            Safe(cs[k], cs[k].processes[p].pc.handle)
  {
    RunKeeps(cs, k);
    EachImageFits(cs, k);
    forall p: nat | p < |cs[k].processes| && cs[k].processes[p].pc.Retained?
      ensures Safe(cs[k], cs[k].processes[p].pc.handle)
    {
      assert SaneProcess(cs[k], p);
    }
  }

  /** No action of any process touches the image behind a handle that stays alive. */
  lemma LeasedImageUnchanged(cs: seq<Cache>, k: nat, h: Handle)
    requires Run(cs) && k + 1 < |cs| && h in cs[k].handles && h in cs[k + 1].handles
    ensures h.observation in cs[k].images && h.observation in cs[k + 1].images
    ensures cs[k + 1].images[h.observation] == cs[k].images[h.observation]
  {
    hide Invariant;
    var c, c' := cs[k], cs[k + 1];
    RunKeeps(cs, k);
    assert AnyStep(c, c') by { assert AnyStep(cs[k + 1 - 1], cs[k + 1]); }
    var p: nat :| Step(c, p, c');
    SafeNow(c, h);
    if c'.images != c.images { VictimNotLeased(c, p, c', h); }
  }

  lemma SafeNow(c: Cache, h: Handle)
    requires Invariant(c) && h in c.handles
    ensures Safe(c, h)
  {
  }

  lemma VictimNotLeased(c: Cache, p: nat, c': Cache, h: Handle)
    requires Invariant(c) && Step(c, p, c') && h in c.handles && c'.images != c.images
    ensures h.observation in c.images && h.observation in c'.images
            && c'.images[h.observation] == c.images[h.observation]
  {
    assert SaneProcess(c, p);
    var pc := c.processes[p].pc;
    assert c.lock == Some(p) ==> SaneHolder(c, pc);
    assert Safe(c, h);
  }

  /** A successful acquire holds a lease on an existing, complete image with the wanted observation. */
  lemma AcquireHolds(cs: seq<Cache>, k: nat, p: nat)
    requires Run(cs) && k + 1 < |cs| && p < |cs[k].processes| && p < |cs[k + 1].processes|
    requires !cs[k].processes[p].pc.Acquired? && cs[k + 1].processes[p].pc.Acquired?
    ensures var got := cs[k + 1].processes[p].pc;
            && got.handle in cs[k + 1].handles && got.handle.process == p && got.handle.observation == got.wanted
            && Safe(cs[k + 1], got.handle) && Leased(cs[k + 1], got.wanted)
            && (cs[k].processes[p].pc.Validating? || cs[k].processes[p].pc.Retained?)
            && (cs[k].processes[p].pc.Validating? ==> got.wanted == cs[k].processes[p].pc.wanted)
            && (cs[k].processes[p].pc.Retained? ==> got.wanted == cs[k].processes[p].pc.handle.observation)
  {
    hide Invariant;
    var c, c' := cs[k], cs[k + 1];
    RunKeeps(cs, k);
    RunKeeps(cs, k + 1);
    assert AnyStep(c, c') by { assert AnyStep(cs[k + 1 - 1], cs[k + 1]); }
    var q: nat :| Step(c, q, c');
    OnlySuccess(c, q, c', p);
    SafeNow(c', c'.processes[p].pc.handle);
  }

  lemma OnlySuccess(c: Cache, q: nat, c': Cache, p: nat)
    requires Invariant(c) && Step(c, q, c') && p < |c.processes| && p < |c'.processes|
    requires !c.processes[p].pc.Acquired? && c'.processes[p].pc.Acquired?
    ensures q == p && (Validate(c, p, c') || Reuse(c, p, c'))
    ensures var got := c'.processes[p].pc;
            got.handle in c'.handles && got.handle.process == p && got.handle.observation == got.wanted
  {
    hide SaneHolder, Safe;
    assert SaneProcess(c, p);
    assert q == p by {
      hide Step, Invariant;
      if q != p { OthersStay(c, q, c', p); }
    }
  }

  // What was asked for.

  /** The observation that the current attempt is for. */
  function Asked(pc: Pc): Observation
    requires !pc.Idle?
  {
    if pc.Retained? then pc.handle.observation else pc.wanted
  }

  ghost predicate AsksFor(c: Cache, p: nat, o: Observation) {
    p < |c.processes| && !c.processes[p].pc.Idle? && Asked(c.processes[p].pc) == o
  }

  lemma OthersStay(c: Cache, q: nat, c': Cache, p: nat)
    requires Step(c, q, c') && p != q
    ensures |c'.processes| == |c.processes| && (p < |c.processes| ==> c'.processes[p] == c.processes[p])
  {
  }

  lemma OwnAttempt(c: Cache, p: nat, c': Cache, o: Observation)
    requires Step(c, p, c') && AsksFor(c', p, o)
    ensures AsksFor(c, p, o) || Begin(c, p, o, c')
  {
    hide Leased;
    if x :| Begin(c, p, x, c') { assert x == o; }
  }

  /** A step of one process leaves the others where they are, and its own attempt asks for what it asked for, unless it
      begins, fails or crashes. */
  lemma StepAsks(c: Cache, q: nat, c': Cache, p: nat, o: Observation)
    requires Step(c, q, c') && AsksFor(c', p, o)
    ensures p < |c.processes| && (AsksFor(c, p, o) || Begin(c, p, o, c'))
  {
    hide Step, Begin;
    if q == p {
      OwnAttempt(c, p, c', o);
      StepIsOfProcess(c, p, c');
    } else {
      OthersStay(c, q, c', p);
    }
  }

  lemma StepIsOfProcess(c: Cache, p: nat, c': Cache)
    requires Step(c, p, c')
    ensures p < |c.processes|
  {
  }

  /** At the j-th step the process began to ask for o, and has done so ever since. */
  ghost predicate AskedSince(cs: seq<Cache>, j: nat, k: nat, p: nat, o: Observation) {
    && j < k < |cs| && p < |cs[j].processes| && Begin(cs[j], p, o, cs[j + 1])
    && forall m :: j < m <= k ==> AsksFor(cs[m], p, o)
  }

  lemma {:induction false} AskedOnce(cs: seq<Cache>, k: nat, p: nat, o: Observation) returns (j: nat)
    requires Run(cs) && k < |cs| && AsksFor(cs[k], p, o)
    ensures AskedSince(cs, j, k, p, o)
  {
    hide Step, Begin;
    if k > 0 {
      var c, c' := cs[k - 1], cs[k];
      assert AnyStep(c, c');
      var q: nat :| Step(c, q, c');
      StepAsks(c, q, c', p, o);
      if AsksFor(c, p, o) {
        j := AskedOnce(cs, k - 1, p, o);
      } else {
        j := k - 1;
      }
    }
  }

  /** Whatever a process acquires, by either path, is a live and complete image of exactly the observation for which it
      began the attempt. */
  lemma AcquiredAsAsked(cs: seq<Cache>, k: nat, p: nat)
    requires Run(cs) && 0 < k < |cs| && p < |cs[k - 1].processes| && p < |cs[k].processes|
    requires !cs[k - 1].processes[p].pc.Acquired? && cs[k].processes[p].pc.Acquired?
    ensures var h := cs[k].processes[p].pc.handle;
            && h in cs[k].handles && Safe(cs[k], h)
            && exists j: nat :: AskedSince(cs, j, k, p, h.observation)
  {
    hide Run, Invariant, AskedSince;
    AcquireHolds(cs, k - 1, p);
    var j := AskedOnce(cs, k, p, cs[k].processes[p].pc.wanted);
  }

  // What collection leaves.

  predicate HasHandle(c: Cache, o: Observation) {
    exists h :: h in c.handles && h.observation == o
  }

  /** Some handle on o was alive at a state after the j-th. */
  ghost predicate LeasedSince(cs: seq<Cache>, j: nat, k: nat, o: Observation) {
    exists m: nat :: j < m <= k < |cs| && HasHandle(cs[m], o)
  }

  /** Images that the lock holder still has to look at, or is about to remove. */
  function Pending(pc: Pc): set<Observation> {
    match pc
    case Collecting(_, todo, _, _) => todo
    case Removing(_, todo, _, _, victim) => todo + {victim}
    case _ => {}
  }

  ghost predicate OthersLeased(cs: seq<Cache>, j: nat, k: nat, p: nat) {
    && k < |cs| && p < |cs[k].processes| && HoldsLock(cs[k].processes[p].pc)
    && var pc := cs[k].processes[p].pc;
       forall o :: o in cs[k].images ==> o in Pending(pc) || o == pc.wanted || LeasedSince(cs, j, k, o)
  }

  /** The process took the lock at the j-th step and has held it since. */
  ghost predicate LockedSince(cs: seq<Cache>, j: nat, k: nat, p: nat) {
    && j < k < |cs| && p < |cs[j].processes| && Lock(cs[j], p, cs[j + 1])
    && forall m :: j < m <= k ==> p < |cs[m].processes| && HoldsLock(cs[m].processes[p].pc)
  }

  lemma OthersKeepImages(c: Cache, q: nat, c': Cache, p: nat)
    requires Invariant(c) && Step(c, q, c') && p != q && p < |c.processes| && HoldsLock(c.processes[p].pc)
    ensures |c'.processes| == |c.processes| && c'.processes[p] == c.processes[p] && c'.images == c.images
  {
    hide SaneHolder, Safe, Leased;
    assert SaneProcess(c, p) && SaneProcess(c, q);
  }

  /** The lock is taken, or what the lock holder leaves was leased, wanted or is still pending. */
  ghost predicate HolderEffect(c: Cache, p: nat, c': Cache) {
    && p < |c.processes| && p < |c'.processes| && HoldsLock(c'.processes[p].pc)
    && var pc, pc' := c.processes[p].pc, c'.processes[p].pc;
       || (Lock(c, p, c') && c'.images == c.images && Pending(pc') == c.images.Keys)
       || (&& HoldsLock(pc) && pc'.wanted == pc.wanted
           && forall o :: o in c'.images ==>
                o == pc.wanted || (o in c.images && (o in Pending(pc) ==> o in Pending(pc') || HasHandle(c, o))))
  }

  lemma LockEffect(c: Cache, p: nat, c': Cache)
    requires p < |c.processes| && Lock(c, p, c')
    ensures HolderEffect(c, p, c')
  {
  }

  lemma MoveEffect(c: Cache, p: nat, c': Cache)
    requires p < |c.processes|
    requires (exists o :: Inspect(c, p, o, c')) || Collected(c, p, c') || Open(c, p, c')
             || exists nonce: nat :: Decide(c, p, nonce, c')
    ensures HolderEffect(c, p, c')
  {
  }

  lemma ImageEffect(c: Cache, p: nat, c': Cache)
    requires p < |c.processes|
    requires RemovePart(c, p, c') || RemoveRest(c, p, c') || exists bytes: nat :: Publish(c, p, bytes, c')
    ensures HolderEffect(c, p, c')
  {
  }

  lemma OtherEffect(c: Cache, p: nat, c': Cache)
    requires p < |c.processes| && |c'.processes| == |c.processes| && HoldsLock(c'.processes[p].pc)
    requires (exists h :: Release(c, p, h, c')) || exists h :: Clone(c, p, h, c')
    ensures HolderEffect(c, p, c')
  {
  }

  lemma EndsLock(c: Cache, p: nat, c': Cache)
    requires p < |c.processes|
    requires (exists o :: Begin(c, p, o, c')) || Reuse(c, p, c') || Validate(c, p, c') || Fail(c, p, c')
             || Crash(c, p, c')
    ensures p < |c'.processes| && !HoldsLock(c'.processes[p].pc)
  {
  }

  lemma HolderStep(c: Cache, p: nat, c': Cache)
    requires Step(c, p, c') && |c'.processes| == |c.processes| && HoldsLock(c'.processes[p].pc)
    ensures HolderEffect(c, p, c')
  {
    hide HolderEffect, Begin, Reuse, Lock, Inspect, RemovePart, RemoveRest, Collected, Decide, Publish, Open, Validate,
         Fail, Release, Clone, Crash, HoldsLock;
    if Lock(c, p, c') {
      LockEffect(c, p, c');
    } else if (exists o :: Inspect(c, p, o, c')) || Collected(c, p, c') || Open(c, p, c')
              || exists nonce: nat :: Decide(c, p, nonce, c') {
      MoveEffect(c, p, c');
    } else if RemovePart(c, p, c') || RemoveRest(c, p, c') || exists bytes: nat :: Publish(c, p, bytes, c') {
      ImageEffect(c, p, c');
    } else if (exists h :: Release(c, p, h, c')) || exists h :: Clone(c, p, h, c') {
      OtherEffect(c, p, c');
    } else {
      EndsLock(c, p, c');
    }
  }

  lemma StepCount(c: Cache, p: nat, c': Cache)
    requires Step(c, p, c')
    ensures p < |c.processes| == |c'.processes|
  {
    hide HoldsLock, Leased;
  }

  lemma LeasedLater(cs: seq<Cache>, j: nat, k: nat, o: Observation)
    requires k + 1 < |cs| && LeasedSince(cs, j, k, o)
    ensures LeasedSince(cs, j, k + 1, o)
  {
  }

  lemma HolderStepLeaves(cs: seq<Cache>, j: nat, k: nat, p: nat)
    requires j < k && OthersLeased(cs, j, k, p) && k + 1 < |cs| && HolderEffect(cs[k], p, cs[k + 1])
    requires !Lock(cs[k], p, cs[k + 1])
    ensures OthersLeased(cs, j, k + 1, p)
  {
    hide Lock, Pending, HasHandle, LeasedSince;
    var pc, pc' := cs[k].processes[p].pc, cs[k + 1].processes[p].pc;
    forall o | o in cs[k + 1].images
      ensures o in Pending(pc') || o == pc'.wanted || LeasedSince(cs, j, k + 1, o)
    {
      if o != pc.wanted && o !in Pending(pc') {
        if HasHandle(cs[k], o) { HadHandle(cs, j, k, o); } else { assert LeasedSince(cs, j, k, o); }
        LeasedLater(cs, j, k, o);
      }
    }
  }

  lemma HadHandle(cs: seq<Cache>, j: nat, k: nat, o: Observation)
    requires j < k < |cs| && HasHandle(cs[k], o)
    ensures LeasedSince(cs, j, k, o)
  {
  }

  lemma OtherStepLeaves(cs: seq<Cache>, j: nat, k: nat, p: nat, q: nat)
    requires OthersLeased(cs, j, k, p) && k + 1 < |cs| && Invariant(cs[k]) && Step(cs[k], q, cs[k + 1]) && q != p
    ensures OthersLeased(cs, j, k + 1, p)
  {
    hide Step, Invariant, Pending, LeasedSince, HoldsLock;
    OthersKeepImages(cs[k], q, cs[k + 1], p);
    forall o | LeasedSince(cs, j, k, o) ensures LeasedSince(cs, j, k + 1, o) { LeasedLater(cs, j, k, o); }
  }

  lemma LockLeaves(cs: seq<Cache>, k: nat, p: nat)
    requires Run(cs) && k + 1 < |cs| && p < |cs[k].processes| && Lock(cs[k], p, cs[k + 1])
    ensures LockedSince(cs, k, k + 1, p) && OthersLeased(cs, k, k + 1, p)
  {
    hide Run;
  }

  lemma {:induction false} SinceTheLock(cs: seq<Cache>, k: nat, p: nat) returns (j: nat)
    requires Run(cs) && k < |cs| && p < |cs[k].processes| && HoldsLock(cs[k].processes[p].pc)
    ensures LockedSince(cs, j, k, p) && OthersLeased(cs, j, k, p)
  {
    hide Step, OthersLeased, Lock, Invariant;
    assert k > 0;
    var c, c' := cs[k - 1], cs[k];
    assert AnyStep(c, c');
    var q: nat :| Step(c, q, c');
    hide Run;
    RunKeeps(cs, k - 1);
    if q == p {
      StepCount(c, p, c');
      HolderStep(c, p, c');
      if Lock(c, p, c') {
        j := k - 1;
        LockLeaves(cs, k - 1, p);
      } else {
        j := SinceTheLock(cs, k - 1, p);
        HolderStepLeaves(cs, j, k - 1, p);
      }
    } else {
      OthersStay(c, q, c', p);
      j := SinceTheLock(cs, k - 1, p);
      OtherStepLeaves(cs, j, k - 1, p, q);
    }
  }

  /** When collection is over, every image left is the wanted one or has been leased since the lock was taken. */
  lemma CollectionRemoves(cs: seq<Cache>, k: nat, p: nat) returns (j: nat)
    requires Run(cs) && k < |cs| && p < |cs[k].processes| && cs[k].processes[p].pc.Deciding?
    ensures LockedSince(cs, j, k, p)
    ensures forall o :: o in cs[k].images ==> o == cs[k].processes[p].pc.wanted || LeasedSince(cs, j, k, o)
  {
    hide Run, LockedSince, LeasedSince;
    j := SinceTheLock(cs, k, p);
  }

  // When an attempt can succeed.

  /** The process takes all these steps. */
  ghost predicate Alone(cs: seq<Cache>, p: nat) {
    cs != [] && forall k :: 0 < k < |cs| ==> Step(cs[k - 1], p, cs[k])
  }

  lemma AloneJoins(cs: seq<Cache>, p: nat, ds: seq<Cache>)
    requires Alone(cs, p) && Alone(ds, p) && ds[0] == cs[|cs| - 1]
    ensures Alone(cs + ds[1..], p) && (cs + ds[1..])[|cs + ds[1..]| - 1] == ds[|ds| - 1]
  {
    hide Step;
    var all := cs + ds[1..];
    forall k | 0 < k < |all| ensures Step(all[k - 1], p, all[k]) {
      if k < |cs| {
        assert all[k] == cs[k];
      } else {
        assert all[k] == ds[k - |cs| + 1] && all[k - 1] == ds[k - |cs|];
      }
    }
  }

  ghost predicate CanCollect(c: Cache, p: nat) {
    && Invariant(c) && p < |c.processes| && c.processes[p].pc.Collecting?
  }

  /** c' is c after collecting the images in `todo`: the unleased and unwanted among them are gone. */
  ghost predicate CollectedFrom(c: Cache, p: nat, todo: set<Observation>, c': Cache)
    requires p < |c.processes| && c.processes[p].pc.Collecting?
  {
    && CanCollect(c', p) && c'.handles == c.handles && |c'.processes| == |c.processes|
    && c'.processes[p].pc.wanted == c.processes[p].pc.wanted && c'.processes[p].pc.todo == {}
    && (forall o :: o in c'.images <==>
                    o in c.images && (o !in todo || o == c.processes[p].pc.wanted || HasHandle(c, o)))
    && forall o :: o in c'.images ==> c'.images[o] == c.images[o]
  }

  /** One entry of the directory is dealt with. */
  lemma CollectOne(c: Cache, p: nat, o: Observation) returns (cs: seq<Cache>)
    requires CanCollect(c, p) && o in c.processes[p].pc.todo
    ensures Alone(cs, p) && cs[0] == c
    ensures var c', pc := cs[|cs| - 1], c.processes[p].pc;
            && CanCollect(c', p) && c'.handles == c.handles && |c'.processes| == |c.processes|
            && c'.processes[p].pc.wanted == pc.wanted && c'.processes[p].pc.todo == pc.todo - {o}
            && c'.images == if o == pc.wanted || HasHandle(c, o) then c.images else c.images - {o}
  {
    hide Invariant, Step, Leased;
    var pc := c.processes[p].pc;
    TodoIsThere(c, p, o);
    var d := Goto(c, p, if Leased(c, o) || o == pc.wanted
                        then Collecting(pc.wanted, pc.todo - {o}, pc.count + 1, pc.bytes + c.images[o].bytes)
                        else Removing(pc.wanted, pc.todo - {o}, pc.count, pc.bytes, o));
    assert Inspect(c, p, o, d);
    StepInspect(c, p, o, d);
    StepKeeps(c, p, d);
    cs := [c, d];
    if !(Leased(c, o) || o == pc.wanted) {
      var e := Goto(d, p, Collecting(pc.wanted, pc.todo - {o}, pc.count, pc.bytes)).(images := d.images - {o});
      assert RemoveRest(d, p, e);
      StepRemove(d, p, e);
      StepKeeps(d, p, e);
      cs := [c, d, e];
    }
  }

  lemma TodoIsThere(c: Cache, p: nat, o: Observation)
    requires CanCollect(c, p) && o in c.processes[p].pc.todo
    ensures o in c.images && (Leased(c, o) <==> HasHandle(c, o))
  {
    assert SaneProcess(c, p);
    assert SaneHolder(c, c.processes[p].pc);
    if h :| h in c.handles && h.observation == o { assert Safe(c, h); }
  }

  lemma StepInspect(c: Cache, p: nat, o: Observation, c': Cache)
    requires p < |c.processes| && Inspect(c, p, o, c')
    ensures Step(c, p, c')
  {
  }

  lemma StepRemove(c: Cache, p: nat, c': Cache)
    requires p < |c.processes| && RemoveRest(c, p, c')
    ensures Step(c, p, c')
  {
  }

  lemma {:induction false} CollectAll(c: Cache, p: nat) returns (cs: seq<Cache>)
    requires CanCollect(c, p)
    ensures Alone(cs, p) && cs[0] == c && CollectedFrom(c, p, c.processes[p].pc.todo, cs[|cs| - 1])
    decreases c.processes[p].pc.todo
  {
    hide Invariant, Step;
    var todo := c.processes[p].pc.todo;
    if todo == {} {
      cs := [c];
    } else {
      var o :| o in todo;
      var first := CollectOne(c, p, o);
      var d := first[|first| - 1];
      var rest := CollectAll(d, p);
      AloneJoins(first, p, rest);
      cs := first + rest[1..];
      CollectedTwice(c, p, o, d, rest[|rest| - 1]);
    }
  }

  lemma CollectedTwice(c: Cache, p: nat, o: Observation, d: Cache, e: Cache)
    requires CanCollect(c, p) && CanCollect(d, p) && o in c.processes[p].pc.todo
    requires var pc := c.processes[p].pc;
             && d.handles == c.handles && |d.processes| == |c.processes|
             && d.processes[p].pc.wanted == pc.wanted && d.processes[p].pc.todo == pc.todo - {o}
             && d.images == if o == pc.wanted || HasHandle(c, o) then c.images else c.images - {o}
    requires CollectedFrom(d, p, d.processes[p].pc.todo, e)
    ensures CollectedFrom(c, p, c.processes[p].pc.todo, e)
  {
    hide Invariant;
  }

  /** The images other than o that somebody else than the retained image of p holds. */
  function LeasedOthers(c: Cache, p: nat, o: Observation): set<Observation>
    requires p < |c.processes|
  {
    set x | x in c.images && x != o && HasHandle(WithoutRetained(c, p), x)
  }

  /** The wanted image is there and complete, or fewer than eight others are leased and leave room for a capture of
      this size: 96 GiB for one image, 192 GiB for all. */
  ghost predicate HasRoom(c: Cache, p: nat, o: Observation, size: nat)
    requires p < |c.processes|
  {
    if o in c.images then c.images[o].intact
    else |LeasedOthers(c, p, o)| < 8 && size <= 96 * 1024 * 1024 * 1024 &&
         Total(c.images, LeasedOthers(c, p, o)) + size <= 192 * 1024 * 1024 * 1024
  }

  lemma LeftImages(c: Cache, p: nat, o: Observation, d: Cache, e: Cache)
    requires Invariant(c) && p < |c.processes| && c.processes[p].pc == Locking(o) && Lock(c, p, d)
    requires d.processes[p].pc.Collecting? && CollectedFrom(d, p, d.processes[p].pc.todo, e)
    ensures e.images.Keys - {o} == LeasedOthers(c, p, o) && (o in e.images <==> o in c.images)
    ensures o in c.images ==> e.images[o] == c.images[o]
    ensures o !in c.images ==> CacheBytes(e.images) == Total(c.images, LeasedOthers(c, p, o))
                               && |e.images| == |LeasedOthers(c, p, o)|
  {
    hide Invariant;
    if o !in c.images {
      assert e.images.Keys == LeasedOthers(c, p, o);
      TotalAgrees(e.images, c.images, e.images.Keys);
    }
  }

  lemma AfterCollection(e: Cache, p: nat)
    requires CanCollect(e, p) && e.processes[p].pc.todo == {}
    ensures e.lock == Some(p) && e.processes[p].pc.count == |e.images|
    ensures e.processes[p].pc.bytes == CacheBytes(e.images)
    ensures |e.images| <= MAX_CACHE_IMAGES && CacheBytes(e.images) <= MAX_CACHE_BYTES
  {
    assert SaneProcess(e, p);
    assert SaneHolder(e, e.processes[p].pc);
  }

  /** The wanted image is there already. */
  lemma DecideToOpen(f: Cache, p: nat, o: Observation) returns (cs: seq<Cache>)
    requires Invariant(f) && p < |f.processes| && f.processes[p].pc.Deciding? && f.processes[p].pc.wanted == o
    requires o in f.images && f.images[o].intact
    ensures Alone(cs, p) && cs[0] == f && Ready(cs[|cs| - 1], p, o)
  {
    var g := Goto(f, p, Opening(o));
    assert Decide(f, p, 0, g);
    assert Step(f, p, g);
    hide Step, Invariant;
    StepKeeps(f, p, g);
    cs := [f, g];
  }

  /** The wanted image is captured and published. */
  lemma DecideToCapture(f: Cache, p: nat, o: Observation, size: nat) returns (cs: seq<Cache>)
    requires Invariant(f) && p < |f.processes| && f.stages == {} && o !in f.images && size <= MAX_IMAGE_BYTES
    requires f.processes[p].pc.Deciding? && f.processes[p].pc.wanted == o
    requires f.processes[p].pc.bytes + size <= MAX_CACHE_BYTES
    ensures Alone(cs, p) && cs[0] == f && Ready(cs[|cs| - 1], p, o)
  {
    var s := Goto(f, p, Staging(o, f.processes[p].pc.bytes, 0)).(stages := f.stages + {0});
    assert Decide(f, p, 0, s);
    assert Step(f, p, s);
    var g := Goto(s, p, Opening(o)).(images := s.images[o := Image(s.nextGeneration, o, size, true)],
                                     stages := s.stages - {0}, nextGeneration := s.nextGeneration + 1);
    assert Publish(s, p, size, g);
    assert Step(s, p, g);
    hide Step, Invariant;
    StepKeeps(f, p, s);
    StepKeeps(s, p, g);
    cs := [f, s, g];
  }

  ghost predicate Ready(g: Cache, p: nat, o: Observation) {
    && Invariant(g) && p < |g.processes| && g.processes[p].pc == Opening(o) && o in g.images && g.images[o].intact
  }

  lemma EndCollection(e: Cache, p: nat) returns (f: Cache)
    requires CanCollect(e, p) && e.processes[p].pc.todo == {}
    requires e.processes[p].pc.wanted in e.images || |e.images| < MAX_CACHE_IMAGES
    ensures Step(e, p, f) && Invariant(f) && |f.processes| == |e.processes| && f.images == e.images && f.stages == {}
    ensures f.processes[p].pc == Deciding(e.processes[p].pc.wanted, CacheBytes(e.images))
  {
    hide CacheBytes, Invariant;
    AfterCollection(e, p);
    f := Goto(e, p, Deciding(e.processes[p].pc.wanted, e.processes[p].pc.bytes)).(stages := {});
    assert Collected(e, p, f);
    StepKeeps(e, p, f);
  }

  /** From the end of collection: capture if need be, open, validate. */
  lemma FinishAttempt(e: Cache, p: nat, size: nat) returns (cs: seq<Cache>)
    requires CanCollect(e, p) && e.processes[p].pc.todo == {}
    requires var o := e.processes[p].pc.wanted;
             if o in e.images then e.images[o].intact
             else |e.images| < MAX_CACHE_IMAGES && size <= MAX_IMAGE_BYTES &&
                  CacheBytes(e.images) + size <= MAX_CACHE_BYTES
    ensures Alone(cs, p) && cs[0] == e
    ensures var c' := cs[|cs| - 1];
            p < |c'.processes| && c'.processes[p].pc.Acquired? && c'.processes[p].pc.wanted == e.processes[p].pc.wanted
  {
    hide CacheBytes, Invariant, Step;
    var o := e.processes[p].pc.wanted;
    var f := EndCollection(e, p);
    var ds;
    if o in e.images {
      ds := DecideToOpen(f, p, o);
    } else {
      ds := DecideToCapture(f, p, o, size);
    }
    AloneJoins([e, f], p, ds);
    cs := [e, f] + ds[1..];
    var last := OpenAndValidate(ds[|ds| - 1], p, o);
    AloneJoins(cs, p, last);
    cs := cs + last[1..];
  }

  lemma OpenAndValidate(g: Cache, p: nat, o: Observation) returns (cs: seq<Cache>)
    requires Ready(g, p, o)
    ensures Alone(cs, p) && cs[0] == g
    ensures var c' := cs[|cs| - 1];
            p < |c'.processes| && c'.processes[p].pc.Acquired? && c'.processes[p].pc.wanted == o
  {
    var v := Goto(g, p, Validating(o, g.images[o].generation));
    assert Open(g, p, v);
    var h := Handle(v.nextId, p, o, g.images[o].generation);
    var kept := h.(id := v.nextId + 1);
    var x := v.(lock := None, handles := v.handles + {h, kept}, nextId := v.nextId + 2,
                processes := v.processes[p := Process(Acquired(o, h), Some(kept))]);
    assert Validate(v, p, x);
    cs := [g, v, x];
  }

  lemma TakeLock(c: Cache, p: nat) returns (d: Cache)
    requires Invariant(c) && p < |c.processes| && c.lock.None? && c.processes[p].pc.Locking?
    ensures Lock(c, p, d) && Step(c, p, d) && CanCollect(d, p) && d.processes[p].pc.wanted == c.processes[p].pc.wanted
  {
    d := Goto(WithoutRetained(c, p), p, Collecting(c.processes[p].pc.wanted, c.images.Keys, 0, 0)).(lock := Some(p));
    assert Lock(c, p, d);
    hide Invariant;
    StepKeeps(c, p, d);
  }

  /** From any reachable state with the lock free, steps of the process alone lead to the image it asks for, if that is
      there and complete or there is room for it beside what others hold. */
  lemma AttemptSucceeds(cs: seq<Cache>, k: nat, p: nat, o: Observation, size: nat) returns (ds: seq<Cache>)
    requires Run(cs) && k < |cs| && p < |cs[k].processes| && cs[k].lock.None? && cs[k].processes[p].pc == Locking(o)
    requires HasRoom(cs[k], p, o, size)
    ensures Alone(ds, p) && ds[0] == cs[k]
    ensures var c' := ds[|ds| - 1];
            p < |c'.processes| && c'.processes[p].pc.Acquired? && c'.processes[p].pc.wanted == o
  {
    hide Run, Invariant, Step, CacheBytes, Lock;
    var c := cs[k];
    RunKeeps(cs, k);
    var d := TakeLock(c, p);
    var collected := CollectAll(d, p);
    var e := collected[|collected| - 1];
    LeftImages(c, p, o, d, e);
    var finished := FinishAttempt(e, p, size);
    AloneJoins([c, d], p, collected);
    ds := [c, d] + collected[1..];
    AloneJoins(ds, p, finished);
    ds := ds + finished[1..];
  }

  /** A wanted image that an interrupted removal left incomplete stays so for the whole attempt, which therefore cannot
      succeed: only a collection for another observation removes it. */
  lemma {:induction false} IncompleteImageBlocks(cs: seq<Cache>, j: nat, k: nat, p: nat, o: Observation)
    requires Run(cs) && LockedSince(cs, j, k, p) && cs[j].processes[p].pc == Locking(o)
    requires o in cs[j].images && !cs[j].images[o].intact
    ensures cs[k].processes[p].pc.wanted == o && o in cs[k].images && !cs[k].images[o].intact
    ensures forall c' :: !Validate(cs[k], p, c')
    decreases k
  {
    hide Step, Invariant;
    if k > j + 1 {
      IncompleteImageBlocks(cs, j, k - 1, p, o);
      var c, c' := cs[k - 1], cs[k];
      assert AnyStep(c, c');
      var q: nat :| Step(c, q, c');
      hide Run;
      RunKeeps(cs, k - 1);
      if q == p { WantedStaysIncomplete(c, p, c'); } else { OthersKeepImages(c, q, c', p); }
    }
  }

  lemma WantedStaysIncomplete(c: Cache, p: nat, c': Cache)
    requires Invariant(c) && Step(c, p, c') && HoldsLock(c.processes[p].pc) && HoldsLock(c'.processes[p].pc)
    requires c.processes[p].pc.wanted in c.images && !c.images[c.processes[p].pc.wanted].intact
    ensures c'.processes[p].pc.wanted == c.processes[p].pc.wanted
    ensures c.processes[p].pc.wanted in c'.images && !c'.images[c.processes[p].pc.wanted].intact
  {
    hide Safe;
    assert SaneProcess(c, p);
    assert SaneHolder(c, c.processes[p].pc);
  }

  /** Any attempt can end without an image: the lock is let go, and images and leases stay as they are. */
  lemma CanGiveUp(c: Cache, p: nat) returns (d: Cache)
    requires Invariant(c) && p < |c.processes| && !c.processes[p].pc.Idle? && !c.processes[p].pc.Acquired?
    ensures Step(c, p, d) && p < |d.processes| && d.processes[p] == c.processes[p].(pc := Idle) && d.lock != Some(p)
    ensures d.images == c.images && d.handles == c.handles
  {
    d := if HoldsLock(c.processes[p].pc) then Unlocked(c, p, Idle) else Goto(c, p, Idle);
    assert Fail(c, p, d);
    hide Safe;
    assert SaneProcess(c, p);
  }

  /** A collection can be interrupted while it removes any image that is neither leased nor wanted, and then leaves it
      incomplete. */
  lemma InterruptedRemoval(c: Cache, p: nat, o: Observation) returns (cs: seq<Cache>)
    requires CanCollect(c, p) && o in c.processes[p].pc.todo && o != c.processes[p].pc.wanted && !HasHandle(c, o)
    ensures Alone(cs, p) && cs[0] == c
    ensures var c' := cs[|cs| - 1];
            && p < |c'.processes| && c'.processes[p].pc.Idle? && c'.lock != Some(p)
            && o in c'.images && o in c.images && c'.images[o] == c.images[o].(intact := false)
  {
    hide Invariant, Step, Leased;
    var pc := c.processes[p].pc;
    TodoIsThere(c, p, o);
    var d := Goto(c, p, Removing(pc.wanted, pc.todo - {o}, pc.count, pc.bytes, o));
    assert Inspect(c, p, o, d);
    assert Step(c, p, d) by { InspectIsStep(c, p, o, d); }
    StepKeeps(c, p, d);
    var e := d.(images := d.images[o := d.images[o].(intact := false)]);
    assert RemovePart(d, p, e);
    assert Step(d, p, e) by { RemovePartIsStep(d, p, e); }
    StepKeeps(d, p, e);
    var f := CanGiveUp(e, p);
    cs := [c, d, e, f];
  }

  lemma InspectIsStep(c: Cache, p: nat, o: Observation, d: Cache)
    requires p < |c.processes| && Inspect(c, p, o, d)
    ensures Step(c, p, d)
  {
  }

  lemma RemovePartIsStep(c: Cache, p: nat, d: Cache)
    requires p < |c.processes| && RemovePart(c, p, d)
    ensures Step(c, p, d)
  {
  }

  /** A retained image can be handed out again without the lock, in every reachable state. */
  lemma ReuseIsPossible(cs: seq<Cache>, k: nat, p: nat) returns (d: Cache)
    requires Run(cs) && k < |cs| && p < |cs[k].processes| && cs[k].processes[p].pc.Retained?
    ensures Step(cs[k], p, d) && p < |d.processes| && d.processes[p].pc.Acquired? && d.lock == cs[k].lock
    ensures var asked, got := cs[k].processes[p].pc.handle, d.processes[p].pc;
            && got.wanted == asked.observation && got.handle.generation == asked.generation && got.handle in d.handles
            && d.images == cs[k].images
  {
    hide Run;
    RunKeeps(cs, k);
    var c := cs[k];
    var h := c.processes[p].pc.handle;
    var clone := h.(id := c.nextId);
    d := Goto(c, p, Acquired(h.observation, clone)).(handles := c.handles + {clone}, nextId := c.nextId + 1);
    assert SaneProcess(c, p);
    assert Reuse(c, p, d);
  }

  /** In an empty cache any observation can be captured, published and acquired. */
  lemma AcquireIsPossible(o: Observation, size: nat) returns (cs: seq<Cache>)
    requires size <= 96 * 1024 * 1024 * 1024
    ensures Run(cs) && 0 < |cs[|cs| - 1].processes| && cs[|cs| - 1].processes[0].pc.Acquired?
    ensures cs[|cs| - 1].processes[0].pc.wanted == o
  {
    var empty := Cache(None, map[], {}, {}, [Process(Idle, None)], 0, 0);
    var c := Goto(empty, 0, Locking(o));
    assert Begin(empty, 0, o, c);
    assert Step(empty, 0, c);
    hide Step;
    assert Run([empty, c]);
    assert LeasedOthers(c, 0, o) == {};
    var ds := AttemptSucceeds([empty, c], 1, 0, o, size);
    AloneJoins([empty, c], 0, ds);
    cs := [empty, c] + ds[1..];
    forall k | 0 < k < |cs| ensures AnyStep(cs[k - 1], cs[k]) { assert Step(cs[k - 1], 0, cs[k]); }
  }
}
