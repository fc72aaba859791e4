/** The candidate cache: a bounded list in order of last use, before a persistent table. */
module GitCache {
  import opened Prelude
  import opened Bytes
  import opened GitPayload
  import opened GitVector
  import opened GitTable

  datatype Entry = Entry(key: Key, payload: Bytes, digest: Bytes)

  // The list as a function of what was touched.

  function Position(l1: seq<Entry>, key: Key): (i: int)
    ensures -1 <= i < |l1|
    ensures i >= 0 ==> l1[i].key == key
    ensures forall k :: 0 <= k < (if i < 0 then |l1| else i) ==> l1[k].key != key
  {
    if l1 == [] then -1
    else if l1[0].key == key then 0
    else
      var rest := Position(l1[1..], key);
      if rest < 0 then -1 else rest + 1
  }

  lemma PositionIs(l1: seq<Entry>, key: Key, i: nat)
    requires i <= |l1| && (forall k :: 0 <= k < i ==> l1[k].key != key) && (i < |l1| ==> l1[i].key == key)
    ensures Position(l1, key) == if i < |l1| then i else -1
  {
    hide Position;
  }

  function Without(l1: seq<Entry>, key: Key): (r: seq<Entry>)
    ensures |r| <= |l1| && forall e :: e in r ==> e in l1
  {
    var i := Position(l1, key);
    if i < 0 then l1 else l1[..i] + l1[i + 1..]
  }

  function Newest(n: nat, l1: seq<Entry>): seq<Entry> {
    if |l1| <= n then l1 else l1[|l1| - n..]
  }

  function Touch(l1: seq<Entry>, e: Entry): seq<Entry> {
    Without(l1, e.key) + [e]
  }

  /** All touched entries in order of their last touch. */
  function Touched(history: seq<Entry>): seq<Entry> {
    if history == [] then [] else Touch(Touched(history[..|history| - 1]), history[|history| - 1])
  }

  ghost predicate DistinctKeys(l1: seq<Entry>) {
    forall i, j :: 0 <= i < j < |l1| ==> l1[i].key != l1[j].key
  }

  /** Where the kept entries lie. */
  lemma WithoutAt(l1: seq<Entry>, key: Key)
    ensures var i, r := Position(l1, key), Without(l1, key);
            && |r| == |l1| - (if i >= 0 then 1 else 0)
            && forall k :: 0 <= k < |r| ==> r[k] == l1[if i < 0 || k < i then k else k + 1]
  {
    hide Position;
  }

  lemma WithoutKeeps(l1: seq<Entry>, key: Key)
    requires DistinctKeys(l1)
    ensures DistinctKeys(Without(l1, key)) && forall e :: e in Without(l1, key) <==> e in l1 && e.key != key
  {
    hide Position, Without;
    var i, r := Position(l1, key), Without(l1, key);
    WithoutAt(l1, key);
    forall e | e in l1 && e.key != key ensures e in r {
      var k :| 0 <= k < |l1| && l1[k] == e;
      assert r[if i < 0 || k < i then k else k - 1] == e;
    }
    forall e | e in r ensures e in l1 && e.key != key {
      var k :| 0 <= k < |r| && r[k] == e;
      assert l1[if i < 0 || k < i then k else k + 1] == e;
    }
  }

  lemma TouchKeeps(l1: seq<Entry>, e: Entry)
    requires DistinctKeys(l1)
    ensures DistinctKeys(Touch(l1, e)) && forall x :: x in Touch(l1, e) <==> x == e || (x in l1 && x.key != e.key)
  {
    hide Without;
    WithoutKeeps(l1, e.key);
  }

  lemma {:induction false} TouchedDistinct(history: seq<Entry>)
    ensures DistinctKeys(Touched(history))
  {
    hide Touch;
    if history != [] {
      TouchedDistinct(history[..|history| - 1]);
      TouchKeeps(Touched(history[..|history| - 1]), history[|history| - 1]);
    }
  }

  lemma NewestOfTail(n: nat, head: seq<Entry>, tail: seq<Entry>)
    requires |tail| >= n
    ensures Newest(n, head + tail) == Newest(n, tail)
  {
    assert (head + tail)[|head + tail| - n..] == tail[|tail| - n..];
    if |head + tail| <= n { assert head + tail == tail; }
  }

  lemma PositionSplits(head: seq<Entry>, tail: seq<Entry>, key: Key)
    ensures var i, j := Position(head, key), Position(tail, key);
            Position(head + tail, key) == if i >= 0 then i else if j >= 0 then |head| + j else -1
  {
    hide Position;
    var all, i, j := head + tail, Position(head, key), Position(tail, key);
    assert forall k :: 0 <= k < |head| ==> all[k] == head[k];
    assert forall k :: |head| <= k < |all| ==> all[k] == tail[k - |head|];
    assert i >= 0 ==> all[i].key == key;
    assert i < 0 && j >= 0 ==> all[|head| + j].key == key;
  }

  lemma CutHead<T>(head: seq<T>, tail: seq<T>, i: nat)
    requires i < |head|
    ensures (head + tail)[..i] + (head + tail)[i + 1..] == head[..i] + head[i + 1..] + tail
  {
  }

  lemma CutTail<T>(head: seq<T>, tail: seq<T>, j: nat)
    requires j < |tail|
    ensures (head + tail)[..|head| + j] + (head + tail)[|head| + j + 1..] == head + (tail[..j] + tail[j + 1..])
  {
  }

  lemma WithoutIs(l1: seq<Entry>, key: Key)
    ensures Position(l1, key) < 0 ==> Without(l1, key) == l1
    ensures Position(l1, key) >= 0 ==> Without(l1, key) == l1[..Position(l1, key)] + l1[Position(l1, key) + 1..]
  {
    hide Position;
  }

  lemma WithoutSplits(head: seq<Entry>, tail: seq<Entry>, key: Key)
    ensures Position(head, key) >= 0 ==> Without(head + tail, key) == Without(head, key) + tail
    ensures Position(head, key) < 0 ==> Without(head + tail, key) == head + Without(tail, key)
  {
    hide Position, Without;
    PositionSplits(head, tail, key);
    WithoutIs(head + tail, key);
    WithoutIs(head, key);
    WithoutIs(tail, key);
    if Position(head, key) >= 0 {
      CutHead(head, tail, Position(head, key));
    } else if Position(tail, key) >= 0 {
      CutTail(head, tail, Position(tail, key));
    }
  }

  /** Distinct keys: a key in the head is not in the tail. */
  lemma NotInBoth(head: seq<Entry>, tail: seq<Entry>, key: Key)
    requires DistinctKeys(head + tail) && Position(head, key) >= 0
    ensures Position(tail, key) < 0
  {
    hide Position;
    var all, i, j := head + tail, Position(head, key), Position(tail, key);
    assert all[i] == head[i];
    assert forall k :: 0 <= k < |tail| ==> all[|head| + k] == tail[k];
  }

  /** Touching works on the tail alone, or drops something before it. */
  lemma TouchTail(head: seq<Entry>, tail: seq<Entry>, e: Entry) returns (front: seq<Entry>)
    requires DistinctKeys(head + tail)
    ensures Touch(head + tail, e) == front + Touch(tail, e) && |Touch(tail, e)| >= |tail|
  {
    hide Position, DistinctKeys;
    WithoutSplits(head, tail, e.key);
    WithoutAt(tail, e.key);
    if Position(head, e.key) >= 0 {
      NotInBoth(head, tail, e.key);
      front := Without(head, e.key);
    } else {
      front := head;
    }
    hide Without;
    assert front + Without(tail, e.key) + [e] == front + (Without(tail, e.key) + [e]);
  }

  /** Forgetting all but the newest entries early or late makes no difference. */
  lemma NewestOfTouch(n: nat, l1: seq<Entry>, e: Entry)
    requires n > 0 && DistinctKeys(l1)
    ensures Newest(n, Touch(Newest(n, l1), e)) == Newest(n, Touch(l1, e))
  {
    hide Touch, DistinctKeys;
    if |l1| > n {
      var head, tail := l1[..|l1| - n], l1[|l1| - n..];
      assert l1 == head + tail;
      var front := TouchTail(head, tail, e);
      NewestOfTail(n, front, Touch(tail, e));
    }
  }

  function LastTouch(history: seq<Entry>, key: Key): (i: int)
    ensures -1 <= i < |history| && (i >= 0 ==> history[i].key == key)
    ensures forall k :: i < k < |history| ==> history[k].key != key
  {
    if history == [] then -1
    else if history[|history| - 1].key == key then |history| - 1
    else LastTouch(history[..|history| - 1], key)
  }

  /** The list holds each touched key once, with its last entry, oldest touch first. */
  lemma {:induction false} TouchedMeaning(history: seq<Entry>)
    ensures forall e :: e in Touched(history) <==>
              (LastTouch(history, e.key) >= 0 && e == history[LastTouch(history, e.key)])
    ensures forall i, j :: 0 <= i < j < |Touched(history)| ==>
              LastTouch(history, Touched(history)[i].key) < LastTouch(history, Touched(history)[j].key)
  {
    hide Position, Without, DistinctKeys;
    if history != [] {
      var init, last := history[..|history| - 1], history[|history| - 1];
      var before, after := Touched(init), Touched(history);
      TouchedMeaning(init);
      TouchedDistinct(init);
      TouchKeeps(before, last);
      forall i, j | 0 <= i < j < |after| ensures LastTouch(history, after[i].key) < LastTouch(history, after[j].key) {
        WithoutOrder(before, last.key, i, j);
      }
    }
  }

  /** Removing an entry leaves the others in order. */
  lemma WithoutOrder(l1: seq<Entry>, key: Key, i: nat, j: nat)
    requires DistinctKeys(l1) && i < j <= |Without(l1, key)|
    ensures var r := Without(l1, key);
            && r[i].key != key
            && (j < |r| ==> r[j].key != key &&
                            exists i', j' :: 0 <= i' < j' < |l1| && l1[i'] == r[i] && l1[j'] == r[j])
  {
    hide Position;
    WithoutKeeps(l1, key);
    var p := Position(l1, key);
    var r := Without(l1, key);
    assert r[i] in r;
    if j < |r| {
      assert r[j] in r;
      var i' := if p < 0 || i < p then i else i + 1;
      var j' := if p < 0 || j < p then j else j + 1;
      assert l1[i'] == r[i] && l1[j'] == r[j];
    }
  }

  // The cache.

  /** Candidates together with the state they were computed in. */
  datatype CandidateSet = CandidateSet(candidates: Candidates, vector: Vector)

  function KeyFor(digest: Vector -> Bytes, workspace: Bytes, v: Vector, topology: Bytes, mode: Mode): Key {
    Key(workspace, v.worktree, digest(v), topology, mode)
  }

  predicate Fenced(digest: Vector -> Bytes, key: Key, v: Vector) {
    key.worktree == v.worktree && key.vector == digest(v)
  }

  function Verified(hash: Bytes -> Bytes, e: Entry, v: Vector): Option<CandidateSet> {
    if hash(e.payload) != e.digest then None
    else
      match DecodePayload(e.payload)
      case None => None
      case Some(candidates) => Some(CandidateSet(candidates, v))
  }

  /** The row of the persistent table as an entry, if it can be read and its digest has the right width. */
  function Below(reader: Option<Table>, key: Key): Option<Entry> {
    match reader
    case None => None
    case Some(table) =>
      if key in table && |table[key].digest| == 32 then Some(Entry(key, table[key].payload, table[key].digest))
         else None
  }

  /** Look a key up, first in the list: the list afterwards, and the answer. */
  function Lookup(digest: Vector -> Bytes, hash: Bytes -> Bytes, n: nat, l1: seq<Entry>, reader: Option<Table>,
                  key: Key, v: Vector): (seq<Entry>, Option<CandidateSet>)
  {
    var i := Position(l1, key);
    if !Fenced(digest, key, v) then (l1, None)
    else if i >= 0 then (Touch(l1, l1[i]), Verified(hash, l1[i], v))
    else
      match Below(reader, key)
      case None => (l1, None)
      case Some(e) => if Verified(hash, e, v).Some? then (Newest(n, Touch(l1, e)), Verified(hash, e, v)) else (l1, None)
  }

  /** The entry for computed candidates, if they can be cached under the key. */
  function EntryFor(digest: Vector -> Bytes, hash: Bytes -> Bytes, key: Key, s: CandidateSet): Result<Entry, PutError> {
    if !Fenced(digest, key, s.vector) then Err(StateFence)
    else
      match EncodePayload(s.candidates)
      case Err(e) => Err(Budget(e))
      case Ok(payload) => Ok(Entry(key, payload, hash(payload)))
  }

  function Cached(digest: Vector -> Bytes, hash: Bytes -> Bytes, n: nat, l1: seq<Entry>, key: Key,
                  s: CandidateSet): seq<Entry>
  {
    match EntryFor(digest, hash, key, s)
    case Err(_) => l1
    case Ok(e) => Newest(n, Touch(l1, e))
  }

  /** The persistent table after a successful write. */
  function CachedBelow(digest: Vector -> Bytes, hash: Bytes -> Bytes, max: nat, table: Table, key: Key, s: CandidateSet,
                       generation: nat): Table
  {
    match EntryFor(digest, hash, key, s)
    case Err(_) => table
    case Ok(e) =>
      if generation > I64_MAX || max > I64_MAX then table
      else Inserted(table, key, Stored(e.payload, e.digest, generation), max)
  }

  // What a lookup finds.

  /** The entry that stands for a key: the one in the list, or else the row of a readable table. */
  ghost predicate StandsFor(l1: seq<Entry>, reader: Option<Table>, key: Key, e: Entry) {
    && e.key == key
    && (|| e in l1
        || (&& (forall x :: x in l1 ==> x.key != key)
            && reader.Some? && key in reader.value && |e.digest| == 32
            && reader.value[key].payload == e.payload && reader.value[key].digest == e.digest))
  }

  /** Candidates are found exactly if the key is of the given state, and what stands for it is whole. A hit makes the
      entry the newest of the list; a miss outside the list leaves it as it is. */
  lemma LookupIff(digest: Vector -> Bytes, hash: Bytes -> Bytes, n: nat, l1: seq<Entry>, reader: Option<Table>,
                  key: Key, v: Vector, s: CandidateSet)
    requires n > 0 && DistinctKeys(l1)
    ensures var (after, found) := Lookup(digest, hash, n, l1, reader, key, v);
            && (found == Some(s) <==>
                && key.worktree == v.worktree && key.vector == digest(v) && s.vector == v
                && exists e :: StandsFor(l1, reader, key, e) && hash(e.payload) == e.digest
                               && DecodePayload(e.payload) == Some(s.candidates))
            && (found.Some? ==> after != [] && StandsFor(l1, reader, key, after[|after| - 1]))
            && (found.None? && (forall x :: x in l1 ==> x.key != key) ==> after == l1)
            && (found.None? && (key.worktree != v.worktree || key.vector != digest(v)) ==> after == l1)
  {
    hide DecodePayload, Position, Without;
    var i := Position(l1, key);
    if i >= 0 {
      assert l1[i] in l1;
      forall e | StandsFor(l1, reader, key, e) ensures e == l1[i] {}
      assert StandsFor(l1, reader, key, l1[i]);
    } else if Below(reader, key).Some? {
      assert StandsFor(l1, reader, key, Below(reader, key).value);
    }
  }

  /** Candidates are refused exactly if the key is not of their state, there are too many of them, or a path is too
      long. */
  lemma EntryForIff(digest: Vector -> Bytes, hash: Bytes -> Bytes, key: Key, s: CandidateSet)
    ensures var r := EntryFor(digest, hash, key, s);
            && (r == Err(StateFence) <==> key.worktree != s.vector.worktree || key.vector != digest(s.vector))
            && (r == Err(Budget(CandidateBudget)) <==>
                !(key.worktree != s.vector.worktree || key.vector != digest(s.vector)) && |s.candidates.list| > 100000)
            && (r.Ok? ==> && r.value.key == key && r.value.digest == hash(r.value.payload)
                          && DecodePayload(r.value.payload) == Some(s.candidates))
  {
    hide DecodePayload, EncodeList, Fits;
    if EncodePayload(s.candidates).Ok? { DecodeOfEncode(s.candidates, EncodePayload(s.candidates).value); }
  }

  /** What was just put is found in the list. */
  lemma CachedIsFound(digest: Vector -> Bytes, hash: Bytes -> Bytes, n: nat, l1: seq<Entry>, key: Key, s: CandidateSet,
                      reader: Option<Table>)
    requires n > 0 && DistinctKeys(l1) && EntryFor(digest, hash, key, s).Ok?
    ensures Lookup(digest, hash, n, Cached(digest, hash, n, l1, key, s), reader, key, s.vector).1 == Some(s)
  {
    hide DecodePayload, EncodePayload, Without, Position;
    EntryForIff(digest, hash, key, s);
    var e := EntryFor(digest, hash, key, s).value;
    var after := Cached(digest, hash, n, l1, key, s);
    TouchKeeps(l1, e);
    NewestApart(n, Touch(l1, e));
    assert after[|after| - 1] == e;
    LookupIff(digest, hash, n, after, reader, key, s.vector, s);
    assert StandsFor(after, reader, key, e);
  }

  lemma NewestApart(n: nat, l1: seq<Entry>)
    requires DistinctKeys(l1)
    ensures DistinctKeys(Newest(n, l1))
  {
  }

  /** What was just put and stays in the table is found there when the list has lost it. */
  lemma StoredIsFound(digest: Vector -> Bytes, hash: Bytes -> Bytes, n: nat, max: nat, table: Table, key: Key,
                      s: CandidateSet, generation: nat)
    requires n > 0 && EntryFor(digest, hash, key, s).Ok? && |EntryFor(digest, hash, key, s).value.digest| == 32
    requires generation <= 9223372036854775807 && max <= 9223372036854775807
    requires |Ahead(table[key := Stored(EntryFor(digest, hash, key, s).value.payload,
                                        EntryFor(digest, hash, key, s).value.digest, generation)], key)| < max
    ensures var after := CachedBelow(digest, hash, max, table, key, s, generation);
            Lookup(digest, hash, n, [], Some(after), key, s.vector).1 == Some(s)
  {
    hide DecodePayload, EncodePayload, Ahead;
    EntryForIff(digest, hash, key, s);
    var e := EntryFor(digest, hash, key, s).value;
    var after := CachedBelow(digest, hash, max, table, key, s, generation);
    assert after[key] == Stored(e.payload, e.digest, generation);
    LookupIff(digest, hash, n, [], Some(after), key, s.vector, s);
    assert StandsFor([], Some(after), key, e);
  }

  datatype PutError = StateFence | Budget(error: BudgetError) | Generation | Capacity | Write

  /** The operational store, as far as the cache uses it. */
  class CandidateStore {
    var table: Table

    constructor ()
      ensures table == map[]
    {
      table := map[];
    }
  }

  class CandidateCache {
    var l1: seq<Entry>
    const capacity: nat
    const maxStored: nat
    const digest: Vector -> Bytes
    const hash: Bytes -> Bytes
    ghost var history: seq<Entry>

    /** The list is the newest part of everything touched so far. */
    ghost predicate Valid()
      reads this
    {
      capacity >= 1 && l1 == Newest(capacity, Touched(history))
    }

    constructor (capacity: nat, maxStored: nat, digest: Vector -> Bytes, hash: Bytes -> Bytes)
      ensures Valid() && l1 == [] && history == []
      ensures this.capacity == (if capacity == 0 then 1 else capacity)
      ensures this.maxStored == (if maxStored == 0 then 1 else maxStored)
      ensures this.digest == digest && this.hash == hash
    {
      l1 := [];
      this.capacity := if capacity == 0 then 1 else capacity;
      this.maxStored := if maxStored == 0 then 1 else maxStored;
      this.digest := digest;
      this.hash := hash;
      history := [];
    }

    /** A reader that is absent or fails is a miss; a row that verifies is promoted to the list. */
    method Get(key: Key, v: Vector, reader: Option<Table>) returns (r: Option<CandidateSet>)
      requires Valid()
      modifies this
      ensures Valid() && (l1, r) == Lookup(digest, hash, capacity, old(l1), reader, key, v)
    {
      hide Verified, Position, Touched, Newest;
      if !Fenced(digest, key, v) { return None; }
      var i := 0;
      while i < |l1| && l1[i].key != key
        invariant 0 <= i <= |l1| && forall k :: 0 <= k < i ==> l1[k].key != key
      {
        i := i + 1;
      }
      PositionIs(l1, key, i);
      if i == |l1| {
        var below := Below(reader, key);
        if below.None? { return None; }
        r := Verified(hash, below.value, v);
        if r.Some? { PushL1(below.value); }
        return r;
      }
      var entry := l1[i];
      TouchedAgain(capacity, history, l1, entry, i);
      l1 := l1[..i] + l1[i + 1..] + [entry];
      history := history + [entry];
      r := Verified(hash, entry, v);
    }

    /** The list is updated even when the table cannot be written. */
    method Put(key: Key, s: CandidateSet, generation: nat, store: CandidateStore?, writable: bool)
      returns (r: Result<(), PutError>)
      requires Valid()
      modifies this, store
      ensures Valid() && l1 == Cached(digest, hash, capacity, old(l1), key, s)
      ensures store != null ==>
                store.table == if writable then CachedBelow(digest, hash, maxStored, old(store.table), key, s,
                                                            generation)
                               else old(store.table)
      ensures r.Ok? <==> && EntryFor(digest, hash, key, s).Ok?
                         && (store != null ==> && writable && generation <= 9223372036854775807
                                               && maxStored <= 9223372036854775807)
      ensures store != null && r.Err? ==> store.table == old(store.table)
      ensures EntryFor(digest, hash, key, s).Err? ==> r == Err(EntryFor(digest, hash, key, s).error)
    {
      hide Inserted, Touched, Newest;
      if !Fenced(digest, key, s.vector) { return Err(StateFence); }
      var payload := EncodePayloadBytes(s.candidates);
      if payload.Err? { return Err(Budget(payload.error)); }
      var entry := Entry(key, payload.value, hash(payload.value));
      PushL1(entry);
      if store == null { return Ok(()); }
      if generation > I64_MAX { return Err(Generation); }
      if maxStored > I64_MAX { return Err(Capacity); }
      if !writable { return Err(Write); }
      store.table := Inserted(store.table, key, Stored(entry.payload, entry.digest, generation), maxStored);
      r := Ok(());
    }

    method PushL1(entry: Entry)
      requires Valid()
      modifies this
      ensures Valid() && l1 == Newest(capacity, Touch(old(l1), entry)) && history == old(history) + [entry]
    {
      hide Newest, Without, Touched;
      TouchedNext(capacity, history, entry);
      var others := RemoveKey(l1, entry.key);
      l1 := PopFront(others + [entry], capacity);
      history := history + [entry];
    }
  }

  method RemoveKey(l1: seq<Entry>, key: Key) returns (r: seq<Entry>)
    ensures r == Without(l1, key)
  {
    hide Position;
    var i := 0;
    while i < |l1| && l1[i].key != key
      invariant 0 <= i <= |l1| && forall k :: 0 <= k < i ==> l1[k].key != key
    {
      i := i + 1;
    }
    r := if i < |l1| then l1[..i] + l1[i + 1..] else l1;
  }

  method PopFront(l1: seq<Entry>, n: nat) returns (r: seq<Entry>)
    ensures r == Newest(n, l1)
  {
    r := l1;
    while |r| > n
      invariant |r| <= |l1| && r == l1[|l1| - |r|..] && (|r| >= n || r == l1)
    {
      assert l1[|l1| - |r|..][1..] == l1[|l1| - |r| + 1..];
      r := r[1..];
    }
  }

  lemma TouchedNext(n: nat, history: seq<Entry>, e: Entry)
    requires n > 0
    ensures Newest(n, Touch(Newest(n, Touched(history)), e)) == Newest(n, Touched(history + [e]))
  {
    hide Touch, Newest;
    assert (history + [e])[..|history|] == history;
    TouchedDistinct(history);
    NewestOfTouch(n, Touched(history), e);
  }

  lemma TouchAt(l1: seq<Entry>, e: Entry, i: nat)
    requires i < |l1| && l1[i] == e && forall k :: 0 <= k < i ==> l1[k].key != e.key
    ensures Position(l1, e.key) == i && Touch(l1, e) == l1[..i] + l1[i + 1..] + [e] && |Touch(l1, e)| == |l1|
  {
    hide Position;
    assert Position(l1, e.key) == i;
  }

  lemma ShortIsNewest(n: nat, l1: seq<Entry>)
    requires |l1| <= n
    ensures Newest(n, l1) == l1
  {
  }

  /** Touching an entry that is there needs no trimming. */
  lemma TouchedAgain(n: nat, history: seq<Entry>, l1: seq<Entry>, e: Entry, i: nat)
    requires n > 0 && l1 == Newest(n, Touched(history)) && i < |l1| && l1[i] == e
    requires forall k :: 0 <= k < i ==> l1[k].key != e.key
    ensures Touch(l1, e) == l1[..i] + l1[i + 1..] + [e] == Newest(n, Touched(history + [e]))
    ensures Position(l1, e.key) == i
  {
    assert |l1| <= n;
    hide Touched, Touch, Newest, Position;
    TouchedNext(n, history, e);
    TouchAt(l1, e, i);
    ShortIsNewest(n, Touch(l1, e));
  }
}
