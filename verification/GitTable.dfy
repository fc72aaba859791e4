/** The persistent tier of the candidate cache: one table, trimmed per workspace. */
module GitTable {
  import opened Prelude
  import opened Bytes

  datatype Mode = Status | HeadTree

  /** `vector` is the digest of the captured state vector. */
  datatype Key = Key(workspace: Bytes, worktree: Bytes, vector: Bytes, topology: Bytes, mode: Mode)

  datatype Stored = Stored(payload: Bytes, digest: Bytes, generation: nat)

  type Table = map<Key, Stored>

  function ModeCode(m: Mode): nat {
    match m case Status => 10 case HeadTree => 20
  }

  /** The order of retention: later generations first, then greater digests, topologies and modes. */
  predicate Before(a: Key, s: Stored, b: Key, t: Stored) {
    || s.generation > t.generation
    || (s.generation == t.generation && Less(b.vector, a.vector))
    || (s.generation == t.generation && a.vector == b.vector && Less(b.topology, a.topology))
    || (s.generation == t.generation && a.vector == b.vector && a.topology == b.topology
        && ModeCode(a.mode) > ModeCode(b.mode))
  }

  /** The rows of the same workspace that are retained before this one. */
  function Ahead(table: Table, k: Key): set<Key>
    requires k in table
  {
    set a | a in table && a.workspace == k.workspace && Before(a, table[a], k, table[k])
  }

  predicate Survives(table: Table, workspace: Bytes, max: nat, k: Key)
    requires k in table
  {
    k.workspace != workspace || |Ahead(table, k)| < max
  }

  /** At most `max` rows of the workspace stay, the first in the order of retention. */
  function Trimmed(table: Table, workspace: Bytes, max: nat): Table {
    map k | k in table && Survives(table, workspace, max, k) :: table[k]
  }

  /** Replace or add a row, then trim its workspace. */
  function Inserted(table: Table, key: Key, row: Stored, max: nat): Table {
    Trimmed(table[key := row], key.workspace, max)
  }

  // Trimming keeps the bound and the newest rows.

  lemma BeforeTransitive(table: Table, a: Key, b: Key, c: Key)
    requires a in table && b in table && c in table
    requires Before(a, table[a], b, table[b]) && Before(b, table[b], c, table[c])
    ensures Before(a, table[a], c, table[c])
  {
    if Less(c.vector, b.vector) && Less(b.vector, a.vector) { LessTransitive(c.vector, b.vector, a.vector); }
    if Less(c.topology, b.topology) && Less(b.topology, a.topology) {
      LessTransitive(c.topology, b.topology, a.topology);
    }
  }

  /** A state digest belongs to one worktree. */
  ghost predicate DigestsNameWorktrees(table: Table) {
    forall a, b :: a in table && b in table && a.vector == b.vector ==> a.worktree == b.worktree
  }

  lemma BeforeTotal(table: Table, a: Key, b: Key)
    requires DigestsNameWorktrees(table) && a in table && b in table && a.workspace == b.workspace && a != b
    ensures Before(a, table[a], b, table[b]) || Before(b, table[b], a, table[a])
  {
    LessTotal(a.vector, b.vector);
    LessTotal(a.topology, b.topology);
  }

  /** Among some rows of one workspace one comes last. */
  lemma {:induction false} LastOf(table: Table, s: set<Key>, workspace: Bytes) returns (last: Key)
    requires DigestsNameWorktrees(table) && s != {} && forall k :: k in s ==> k in table && k.workspace == workspace
    ensures last in s && forall k :: k in s && k != last ==> Before(k, table[k], last, table[last])
  {
    hide Before, DigestsNameWorktrees;
    last :| last in s;
    var rest := s - {last};
    assert forall k :: k in s ==> k == last || k in rest;
    if rest != {} {
      var other := LastOf(table, rest, workspace);
      BeforeTotal(table, last, other);
      if Before(last, table[last], other, table[other]) {
        last := other;
      } else {
        forall k | k in s && k != last ensures Before(k, table[k], last, table[last]) {
          if k != other { BeforeTransitive(table, k, other, last); }
        }
      }
    }
  }

  ghost function RowsOf(table: Table, workspace: Bytes): set<Key> {
    set k | k in table && k.workspace == workspace
  }

  /** After trimming a workspace has at most as many rows as are allowed. */
  lemma TrimmedIsBounded(table: Table, workspace: Bytes, max: nat)
    requires DigestsNameWorktrees(table)
    ensures |RowsOf(Trimmed(table, workspace, max), workspace)| <= max
  {
    hide Before, DigestsNameWorktrees;
    var kept := RowsOf(Trimmed(table, workspace, max), workspace);
    if kept != {} {
      var last := LastOf(table, kept, workspace);
      assert kept - {last} <= Ahead(table, last);
      Proper(kept - {last}, Ahead(table, last));
    }
  }

  /** What is retained is retained with everything ahead of it. */
  lemma TrimmedKeepsFirst(table: Table, workspace: Bytes, max: nat, a: Key, b: Key)
    requires a in table && b in Trimmed(table, workspace, max) && a.workspace == b.workspace == workspace
    requires Before(a, table[a], b, table[b])
    ensures a in Trimmed(table, workspace, max) && Trimmed(table, workspace, max)[a] == table[a]
  {
    hide Before;
    forall k | k in Ahead(table, a) ensures k in Ahead(table, b) { BeforeTransitive(table, k, a, b); }
    Proper(Ahead(table, a), Ahead(table, b));
  }

  lemma BeforeIrreflexive(table: Table, k: Key)
    requires k in table
    ensures !Before(k, table[k], k, table[k])
  {
    LessIrreflexive(k.vector);
    LessIrreflexive(k.topology);
  }

  /** Among some rows of one workspace one comes first. */
  lemma {:induction false} FirstOf(table: Table, s: set<Key>, workspace: Bytes) returns (first: Key)
    requires DigestsNameWorktrees(table) && s != {} && forall k :: k in s ==> k in table && k.workspace == workspace
    ensures first in s && forall k :: k in s ==> !Before(k, table[k], first, table[first])
    decreases s
  {
    hide Before, DigestsNameWorktrees;
    first :| first in s;
    BeforeIrreflexive(table, first);
    var rest := s - {first};
    assert forall k :: k in s ==> k == first || k in rest;
    if rest != {} {
      var other := FirstOf(table, rest, workspace);
      if Before(other, table[other], first, table[first]) {
        if Before(first, table[first], other, table[other]) {
          BeforeTransitive(table, first, other, first);
          assert false;
        }
        first := other;
      } else {
        BeforeTotal(table, first, other);
        forall k | k in s && k != first ensures !Before(k, table[k], first, table[first]) {
          if Before(k, table[k], first, table[first]) { BeforeTransitive(table, k, first, other); }
        }
      }
    }
  }

  /** Trimming a workspace drops no more rows than it must, and none of another workspace. */
  lemma TrimmedKeepsAsMany(table: Table, workspace: Bytes, max: nat)
    requires DigestsNameWorktrees(table)
    ensures var rows := |RowsOf(table, workspace)|;
            |RowsOf(Trimmed(table, workspace, max), workspace)| == if rows <= max then rows else max
    ensures forall k :: k in table && k.workspace != workspace ==>
              k in Trimmed(table, workspace, max) && Trimmed(table, workspace, max)[k] == table[k]
  {
    hide Before, DigestsNameWorktrees;
    TrimmedIsBounded(table, workspace, max);
    var rows, kept := RowsOf(table, workspace), RowsOf(Trimmed(table, workspace, max), workspace);
    Proper(kept, rows);
    var dropped := rows - kept;
    if dropped != {} {
      var first := FirstOf(table, dropped, workspace);
      assert Ahead(table, first) <= kept;
      Proper(Ahead(table, first), kept);
    } else {
      assert forall k :: k in rows ==> k in kept || k in dropped;
      assert kept == rows;
    }
  }

  ghost predicate Bounded(table: Table, max: nat) {
    forall w :: |RowsOf(table, w)| <= max
  }

  /** A row of the same workspace from a later generation. */
  predicate Later(table: Table, k: Key, key: Key, row: Stored) {
    k in table && k != key && k.workspace == key.workspace && table[k].generation > row.generation
  }

  /** No insertion takes any workspace over its bound, and a row that stays displaces none of a later generation. */
  lemma InsertedIsBounded(table: Table, key: Key, row: Stored, max: nat)
    requires Bounded(table, max) && DigestsNameWorktrees(table[key := row])
    ensures Bounded(Inserted(table, key, row, max), max) && DigestsNameWorktrees(Inserted(table, key, row, max))
    ensures key in Inserted(table, key, row, max) ==>
              forall k :: Later(table, k, key, row) ==> k in Inserted(table, key, row, max)
  {
    hide Ahead;
    var more, after := table[key := row], Inserted(table, key, row, max);
    forall w ensures |RowsOf(after, w)| <= max {
      if w == key.workspace {
        TrimmedIsBounded(more, w, max);
      } else {
        assert RowsOf(after, w) == RowsOf(table, w);
      }
    }
    forall k | Later(table, k, key, row) && key in after ensures k in after {
      TrimmedKeepsFirst(more, key.workspace, max, k, key);
    }
  }
}
