/** The inventory tables: whole rebuilds and incremental generation advances. */
module InventoryStore {
  import opened Prelude
  import opened Bytes
  import opened Merkle
  import opened MerkleOrder
  import opened MerkleLoop

  const U16_MAX: nat := 0xFFFF
  const REGULAR: nat := 10
  const INCLUDED: nat := 10
  const UNTRACKED_NOT_IGNORED: nat := 20

  datatype Problem = BoundExceeded | SourceChanged | Database

  /** Classification and Git fields, which incremental updates keep. */
  datatype Kept = Kept(classification: nat, gitPath: Option<Bytes>, gitOid: Option<Bytes>)

  const FRESH: Kept := Kept(UNTRACKED_NOT_IGNORED, None, None)

  datatype Row = Row(display: Bytes, comparison: Bytes, fileId: Option<Bytes>, content: Option<Bytes>, length: nat,
                     kind: nat, language: Option<Bytes>, inclusion: nat, owner: Option<Bytes>, kept: Kept)

  datatype Record = Record(path: Path, row: Row)

  datatype Upsert = Upsert(path: Path, display: Bytes, comparison: Bytes, fileId: Bytes, content: Bytes, length: nat,
                           language: Option<Bytes>)

  datatype Scope = Scope(workspace: Bytes, generation: nat)

  /** Rows keyed by workspace and generation, then by path. */
  type Table = map<Scope, map<Path, Row>>

  datatype Worktree = Worktree(generation: nat, inventory: Option<Digest>)

  // Leaf digests.

  function Zeros(n: nat): (z: Bytes)
    ensures |z| == n
  {
    seq(n, i => 0)
  }

  /** The content digest that is hashed: all zeros where there is none. */
  function ContentOf(r: Row): Bytes {
    match r.content case None => Zeros(32) case Some(c) => c
  }

  function LeafDigest(p: Path, r: Row): Digest {
    File(p, ContentOf(r), r.length, r.kind, r.kept.classification, r.inclusion)
  }

  function LeafDigests(rows: map<Path, Row>): map<Path, Digest> {
    map p | p in rows :: LeafDigest(p, rows[p])
  }

  predicate Readable(r: Row) {
    && (r.content.Some? ==> |r.content.value| == 32)
    && r.kind <= U16_MAX && r.kept.classification <= U16_MAX && r.inclusion <= U16_MAX
  }

  /** A content digest has 32 bytes, and every code two. */
  ghost predicate InRange(r: Row) {
    && (r.content.None? || |r.content.value| == 32)
    && r.kind < 65536 && r.kept.classification < 65536 && r.inclusion < 65536
  }

  function Stored(table: Table, s: Scope): map<Path, Row> {
    if s in table then table[s] else map[]
  }

  // Overlaying upserts.

  function Default(rows: map<Path, Row>, p: Path): Kept {
    if p in rows then rows[p].kept else FRESH
  }

  function UpsertRow(u: Upsert, kept: Kept): Row {
    Row(u.display, u.comparison, Some(u.fileId), Some(u.content), u.length, REGULAR, u.language, INCLUDED,
        Some(u.fileId), kept)
  }

  function Put(rows: map<Path, Row>, u: Upsert): map<Path, Row> {
    rows[u.path := UpsertRow(u, Default(rows, u.path))]
  }

  /** The prior rows without the removals, under the upserts in their order. */
  function Overlay(prior: map<Path, Row>, removals: set<Path>, upserts: seq<Upsert>): map<Path, Row> {
    if upserts == [] then prior - removals
    else Put(Overlay(prior, removals, upserts[..|upserts| - 1]), upserts[|upserts| - 1])
  }

  /** The last upsert of p, as an index, or -1. */
  function LastFor(upserts: seq<Upsert>, p: Path): (i: int)
    ensures -1 <= i < |upserts|
    ensures i >= 0 ==> upserts[i].path == p
    ensures forall k :: i < k < |upserts| ==> upserts[k].path != p
  {
    if upserts == [] then -1
    else if upserts[|upserts| - 1].path == p then |upserts| - 1
    else LastFor(upserts[..|upserts| - 1], p)
  }

  /** Row by row: the last upsert wins, keeping a surviving row's classification and Git fields. */
  lemma {:induction false} OverlayAt(prior: map<Path, Row>, removals: set<Path>, upserts: seq<Upsert>, p: Path)
    ensures var i := LastFor(upserts, p);
            var all := Overlay(prior, removals, upserts);
            if i >= 0 then
              && p in all
              && var u := upserts[i];
                 var kept := if p in prior && p !in removals then prior[p].kept else Kept(20, None, None);
                 all[p] == Row(u.display, u.comparison, Some(u.fileId), Some(u.content), u.length, 10, u.language, 10,
                               Some(u.fileId), kept)
            else (p in all <==> p in prior && p !in removals) && (p in all ==> all[p] == prior[p])
  {
    if upserts != [] {
      OverlayAt(prior, removals, upserts[..|upserts| - 1], p);
    }
  }

  /** Overlaying onto nothing loses the prior rows, unless each was removed or upserted with fresh fields. */
  lemma LostExactlyWhen(prior: map<Path, Row>, removals: set<Path>, upserts: seq<Upsert>)
    ensures Overlay(map[], removals, upserts) == Overlay(prior, removals, upserts) <==>
            forall p :: p in prior ==> p in removals || (LastFor(upserts, p) >= 0 && prior[p].kept == FRESH)
  {
    hide Overlay, LastFor;
    var a, b := Overlay(map[], removals, upserts), Overlay(prior, removals, upserts);
    if a == b {
      forall p | p in prior ensures p in removals || (LastFor(upserts, p) >= 0 && prior[p].kept == FRESH) {
        OverlayAt(map[], removals, upserts, p);
        OverlayAt(prior, removals, upserts, p);
      }
    }
    if forall p :: p in prior ==> p in removals || (LastFor(upserts, p) >= 0 && prior[p].kept == FRESH) {
      forall p ensures (p in a <==> p in b) && (p in a ==> a[p] == b[p]) {
        OverlayAt(map[], removals, upserts, p);
        OverlayAt(prior, removals, upserts, p);
      }
      assert a == b;
    }
  }

  // Digests of stored rows.

  /** The paths in ascending byte order. */
  ghost function Listing(paths: set<Path>): (r: seq<Path>)
    ensures Ascends(Whole, r) && forall p :: p in r <==> p in paths
  {
    if paths == {} then []
    else
      var p :| p in paths;
      InsertMeaning(Whole, p, Listing(paths - {p}));
      Insert(Whole, p, Listing(paths - {p}))
  }

  method PathsInOrder(paths: set<Path>) returns (listed: seq<Path>)
    ensures listed == Listing(paths)
  {
    hide Listing;
    listed := [];
    var rest := paths;
    while rest != {}
      invariant rest <= paths && Ascends(Whole, listed) && forall p :: p in listed <==> p in paths - rest
      decreases rest
    {
      var p :| p in rest;
      InsertMeaning(Whole, p, listed);
      listed := Insert(Whole, p, listed);
      rest := rest - {p};
    }
    AscendingUnique(listed, Listing(paths));
  }

  function LeavesOf(rows: map<Path, Row>, ps: seq<Path>): (r: seq<Leaf>)
    requires forall p :: p in ps ==> p in rows
    ensures |r| == |ps| && forall i :: 0 <= i < |r| ==> r[i] == Leaf(ps[i], LeafDigest(ps[i], rows[ps[i]]))
  {
    seq(|ps|, i requires 0 <= i < |ps| => Leaf(ps[i], LeafDigest(ps[i], rows[ps[i]])))
  }

  /** The leaves of stored rows, in path order. */
  ghost function RowLeaves(rows: map<Path, Row>): seq<Leaf> {
    LeavesOf(rows, Listing(rows.Keys))
  }

  ghost function StoredDigest(rows: map<Path, Row>): Digest {
    RootOf(RowLeaves(rows))
  }

  /** The digest of one stored generation, read back in path order. */
  method PersistedDigest(rows: map<Path, Row>) returns (r: Result<Digest, Problem>)
    ensures r.Ok? <==> forall p :: p in rows ==> InRange(rows[p])
    ensures r.Err? ==> r.error == SourceChanged
    ensures r.Ok? ==> r.value == StoredDigest(rows)
  {
    hide RootOf, LeafDigest, Listing;
    var ps := PathsInOrder(rows.Keys);
    for i := 0 to |ps|
      invariant forall k :: 0 <= k < i ==> Readable(rows[ps[k]])
    {
      assert ps[i] in ps;
      if !Readable(rows[ps[i]]) { return Err(SourceChanged); }
    }
    assert forall p :: p in rows ==> p in ps;
    var digest := MerkleFromLeaves(LeavesOf(rows, ps));
    r := Ok(digest);
  }

  // Records as rows.

  function RowsOf(records: seq<Record>): map<Path, Row> {
    if records == [] then map[]
    else RowsOf(records[..|records| - 1])[records[|records| - 1].path := records[|records| - 1].row]
  }

  ghost predicate DistinctPaths(records: seq<Record>) {
    forall i, j :: 0 <= i < j < |records| ==> records[i].path != records[j].path
  }

  function RecordLeaves(records: seq<Record>): (r: seq<Leaf>)
    ensures |r| == |records|
    ensures forall i :: 0 <= i < |r| ==> r[i] == Leaf(records[i].path, LeafDigest(records[i].path, records[i].row))
  {
    seq(|records|, i requires 0 <= i < |records| => Leaf(records[i].path, LeafDigest(records[i].path, records[i].row)))
  }

  lemma {:induction false} RowsOfPaths(records: seq<Record>)
    ensures forall p :: p in RowsOf(records) <==> exists i :: 0 <= i < |records| && records[i].path == p
  {
    if records != [] {
      var n := |records| - 1;
      RowsOfPaths(records[..n]);
      forall p ensures p in RowsOf(records) <==> exists i :: 0 <= i < |records| && records[i].path == p {
        if p in RowsOf(records[..n]) {
          var i :| 0 <= i < n && records[..n][i].path == p;
          assert records[i].path == p;
        }
        if i :| 0 <= i < |records| && records[i].path == p {
          if i < n { assert records[..n][i].path == p; }
        }
      }
    }
  }

  /** The digest of records, in the order they are given. */
  method InventoryDigest(records: seq<Record>) returns (digest: Digest)
    ensures digest == RootOf(RecordLeaves(records))
  {
    hide RootOf;
    digest := MerkleFromLeaves(RecordLeaves(records));
  }

  // Steps inside a transaction, on a working copy of one generation's rows.

  method RemovePaths(rows: map<Path, Row>, removals: set<Path>) returns (r: map<Path, Row>)
    ensures r == rows - removals
  {
    r := rows;
    var rest := removals;
    while rest != {}
      invariant rest <= removals && r == rows - (removals - rest)
      decreases rest
    {
      var p :| p in rest;
      r := r - {p};
      rest := rest - {p};
    }
  }

  ghost predicate LengthsFit(upserts: seq<Upsert>) {
    forall i :: 0 <= i < |upserts| ==> upserts[i].length <= I64_MAX
  }

  /** Insert or replace the upserts in turn; a length over the bound abandons them all. */
  method ApplyUpserts(prior: map<Path, Row>, removals: set<Path>, upserts: seq<Upsert>)
    returns (r: Result<map<Path, Row>, Problem>)
    ensures r == if LengthsFit(upserts) then Ok(Overlay(prior, removals, upserts)) else Err(BoundExceeded)
  {
    var rows := RemovePaths(prior, removals);
    for i := 0 to |upserts|
      invariant forall k :: 0 <= k < i ==> upserts[k].length <= I64_MAX
      invariant rows == Overlay(prior, removals, upserts[..i])
    {
      var u := upserts[i];
      var kept := if u.path in rows then rows[u.path].kept else FRESH;
      if u.length > I64_MAX { return Err(BoundExceeded); }
      assert upserts[..i + 1][..i] == upserts[..i];
      rows := rows[u.path := UpsertRow(u, kept)];
    }
    assert upserts[..|upserts|] == upserts;
    r := Ok(rows);
  }

  method InsertRecords(records: seq<Record>) returns (r: Result<map<Path, Row>, Problem>)
    ensures r.Ok? <==> DistinctPaths(records) && forall i :: 0 <= i < |records| ==> records[i].row.length <= I64_MAX
    ensures r.Ok? ==> r.value == RowsOf(records)
    ensures r.Err? ==> r.error in {BoundExceeded, Database}
  {
    var rows: map<Path, Row> := map[];
    for i := 0 to |records|
      invariant rows == RowsOf(records[..i]) && DistinctPaths(records[..i])
      invariant forall k :: 0 <= k < i ==> records[k].row.length <= I64_MAX
    {
      if records[i].row.length > I64_MAX { return Err(BoundExceeded); }
      RowsOfPaths(records[..i]);
      if records[i].path in rows {
        var k :| 0 <= k < i && records[..i][k].path == records[i].path;
        assert records[k].path == records[i].path;
        return Err(Database);
      }
      forall k | 0 <= k < i ensures records[k].path != records[i].path {
        assert records[..i][k].path == records[k].path;
      }
      assert records[..i + 1][..i] == records[..i];
      rows := rows[records[i].path := records[i].row];
    }
    assert records[..|records|] == records;
    r := Ok(rows);
  }

  class Store {
    var table: Table
    var generations: map<Bytes, nat>
    var worktrees: map<Bytes, Worktree>

    /** Replace a generation's rows by the records and publish their digest, or change nothing. */
    method Persist(w: Bytes, g: nat, records: seq<Record>) returns (r: Result<(), Problem>)
      modifies this
      ensures r.Ok? <==>
              && g <= 9223372036854775807 && w in old(generations) && old(generations)[w] == g
              && w in old(worktrees) && old(worktrees)[w].generation == g
              && DistinctPaths(records)
              && forall i :: 0 <= i < |records| ==> records[i].row.length <= 9223372036854775807
      ensures g <= I64_MAX && w in old(generations) && old(generations)[w] != g ==> r == Err(SourceChanged)
      ensures r.Err? ==> table == old(table) && worktrees == old(worktrees)
      ensures generations == old(generations)
      ensures r.Ok? ==> table == old(table)[Scope(w, g) := RowsOf(records)]
      ensures r.Ok? ==> worktrees == old(worktrees)[w := Worktree(g, Some(RootOf(RecordLeaves(records))))]
    {
      hide RootOf, RowsOf, DistinctPaths;
      var digest := InventoryDigest(records);
      if g > I64_MAX { return Err(BoundExceeded); }
      if w !in generations { return Err(Database); }
      if generations[w] != g { return Err(SourceChanged); }
      var rows := InsertRecords(records);
      if rows.Err? { return Err(rows.error); }
      if w !in worktrees || worktrees[w].generation != g { return Err(SourceChanged); }
      table := table[Scope(w, g) := rows.value];
      worktrees := worktrees[w := Worktree(g, Some(digest))];
      r := Ok(());
    }

    /** Carry the prior rows over, apply removals and upserts, and publish the digest, or change nothing. */
    method Advance(w: Bytes, prior: nat, g: nat, upserts: seq<Upsert>, removals: set<Path>)
      returns (r: Result<Digest, Problem>)
      modifies this
      ensures r.Err? ==> table == old(table) && worktrees == old(worktrees)
      ensures generations == old(generations)
      ensures prior <= I64_MAX && g <= I64_MAX && w in old(generations) && old(generations)[w] != g ==>
              r == Err(SourceChanged)
      ensures var here := Scope(w, prior);
              var carried := if prior == g || here !in old(table) then map[] else old(table)[here];
              var rows := Overlay(carried, removals, upserts);
              && (r.Ok? <==>
                  && prior <= 9223372036854775807 && g <= 9223372036854775807
                  && w in old(generations) && old(generations)[w] == g
                  && w in old(worktrees) && old(worktrees)[w].generation == g
                  && LengthsFit(upserts) && forall p :: p in rows ==> InRange(rows[p]))
              && (r.Ok? ==> && table == old(table)[Scope(w, g) := rows]
                            && worktrees == old(worktrees)[w := Worktree(g, Some(r.value))]
                            && r.value == StoredDigest(rows))
    {
      hide StoredDigest, Overlay, InRange;
      if prior > I64_MAX || g > I64_MAX { return Err(BoundExceeded); }
      if w !in generations { return Err(Database); }
      if generations[w] != g { return Err(SourceChanged); }
      var cleared := table[Scope(w, g) := map[]];
      var rows := ApplyUpserts(Stored(cleared, Scope(w, prior)), removals, upserts);
      if rows.Err? { return Err(rows.error); }
      var digest := PersistedDigest(rows.value);
      if digest.Err? { return Err(digest.error); }
      if w !in worktrees || worktrees[w].generation != g { return Err(SourceChanged); }
      table := table[Scope(w, g) := rows.value];
      worktrees := worktrees[w := Worktree(g, Some(digest.value))];
      r := Ok(digest.value);
    }
  }
}
