/** What the published inventory digest binds. */
module InventoryBinding {
  import opened Prelude
  import opened Bytes
  import opened Merkle
  import opened MerkleFlat
  import opened MerkleOrder
  import opened MerkleBinding
  import opened InventoryStore

  // Stored rows.

  lemma ListingDistinct(s: set<Path>, i: nat, j: nat)
    requires i < j < |Listing(s)|
    ensures Less(Listing(s)[i], Listing(s)[j]) && Listing(s)[i] != Listing(s)[j]
  {
    hide Listing, Less;
    AscendsFar(Whole, Listing(s), i, j);
    LessIrreflexive(Listing(s)[i]);
  }

  lemma RowLeavesAre(rows: map<Path, Row>)
    ensures PathBearing(RowLeaves(rows)) && DistinctLeafPaths(RowLeaves(rows))
    ensures forall l :: l in RowLeaves(rows) <==> l.path in rows && l.digest == LeafDigest(l.path, rows[l.path])
  {
    hide Listing;
    var leaves, ps := RowLeaves(rows), Listing(rows.Keys);
    forall i, j | 0 <= i < j < |leaves| ensures leaves[i].path != leaves[j].path { ListingDistinct(rows.Keys, i, j); }
    forall l ensures l in leaves <==> l.path in rows && l.digest == LeafDigest(l.path, rows[l.path]) {
      if l in leaves {
        var i :| 0 <= i < |leaves| && leaves[i] == l;
        assert ps[i] in ps;
      }
      if l.path in rows && l.digest == LeafDigest(l.path, rows[l.path]) {
        assert l.path in ps;
        var i :| 0 <= i < |ps| && ps[i] == l.path;
        assert leaves[i] == l;
      }
    }
  }

  /** Thirty-two zeros, which stand for no content. */
  predicate IsBlank(content: Option<Bytes>) {
    content.None? || (|content.value| == 32 && forall i :: 0 <= i < 32 ==> content.value[i] == 0)
  }

  predicate SameLeaf(r: Row, s: Row) {
    && (r.content == s.content || (IsBlank(r.content) && IsBlank(s.content)))
    && r.length == s.length && r.kind == s.kind
    && r.kept.classification == s.kept.classification && r.inclusion == s.inclusion
  }

  lemma SameContent(r: Row, s: Row)
    ensures ContentOf(r) == ContentOf(s) <==> r.content == s.content || (IsBlank(r.content) && IsBlank(s.content))
  {
    assert IsBlank(r.content) <==> ContentOf(r) == Zeros(32);
    assert IsBlank(s.content) <==> ContentOf(s) == Zeros(32);
  }

  ghost predicate SameRows(a: map<Path, Row>, b: map<Path, Row>) {
    a.Keys == b.Keys && forall p :: p in a && p in b ==> SameLeaf(a[p], b[p])
  }

  lemma SameRowsSameLeaves(a: map<Path, Row>, b: map<Path, Row>)
    requires SameRows(a, b)
    ensures RowLeaves(a) == RowLeaves(b)
  {
    hide Listing;
    var ps := Listing(a.Keys);
    forall i | 0 <= i < |ps| ensures RowLeaves(a)[i] == RowLeaves(b)[i] {
      assert ps[i] in ps;
      assert ps[i] in a.Keys && ps[i] in b.Keys;
      assert SameLeaf(a[ps[i]], b[ps[i]]);
      SameContent(a[ps[i]], b[ps[i]]);
    }
  }

  /** Two generations publish one digest exactly when they list the same paths with the same content, length, kind,
      classification and inclusion; display, identifiers, language, owner and Git fields do not matter. */
  lemma DigestBindsRows(a: map<Path, Row>, b: map<Path, Row>)
    ensures StoredDigest(a) == StoredDigest(b) <==> SameRows(a, b)
  {
    hide RootOf, RowLeaves;
    if StoredDigest(a) == StoredDigest(b) {
      RowLeavesAre(a);
      RowLeavesAre(b);
      RootBindsLeaves(RowLeaves(a), RowLeaves(b));
      forall p | p in a ensures p in b && SameLeaf(a[p], b[p]) {
        assert Leaf(p, LeafDigest(p, a[p])) in RowLeaves(a);
        SameContent(a[p], b[p]);
      }
      forall p | p in b ensures p in a {
        assert Leaf(p, LeafDigest(p, b[p])) in RowLeaves(b);
      }
      assert a.Keys == b.Keys;
    }
    if SameRows(a, b) { SameRowsSameLeaves(a, b); }
  }

  // Records in their own order.

  lemma RecordRow(records: seq<Record>, i: nat)
    requires i < |records| && InventoryStore.DistinctPaths(records)
    ensures records[i].path in RowsOf(records) && RowsOf(records)[records[i].path] == records[i].row
  {
    if i < |records| - 1 {
      var init := records[..|records| - 1];
      RecordRow(init, i);
      assert init[i] == records[i] && records[i].path != records[|records| - 1].path;
    }
  }

  lemma RecordLeavesAre(records: seq<Record>)
    requires InventoryStore.DistinctPaths(records)
    ensures PathBearing(RecordLeaves(records)) && DistinctLeafPaths(RecordLeaves(records))
    ensures SameMembers(RecordLeaves(records), RowLeaves(RowsOf(records)))
  {
    hide RowsOf, RowLeaves;
    var leaves, rows := RecordLeaves(records), RowsOf(records);
    RowLeavesAre(rows);
    RowsOfPaths(records);
    forall l ensures l in leaves <==> l in RowLeaves(rows) {
      if l in leaves {
        var i :| 0 <= i < |leaves| && leaves[i] == l;
        RecordRow(records, i);
      }
      if l in RowLeaves(rows) {
        var i: nat :| i < |records| && records[i].path == l.path;
        RecordRow(records, i);
        assert leaves[i] == l;
      }
    }
  }

  /** Records whose paths are the two spellings of a top-level name come in byte order. */
  ghost predicate SpellingsInOrder(records: seq<Record>) {
    forall i, j :: 0 <= i < j < |records| && SamePlaceAndName(records[i].path, records[j].path) ==>
      Less(records[i].path, records[j].path)
  }

  predicate SamePlaceAndName(p: Path, q: Path) {
    Parent(p) == Parent(q) && Name(p) == Name(q)
  }

  ghost predicate PathsAscend(ls: seq<Leaf>) {
    forall i, j :: 0 <= i < j < |ls| ==> Less(ls[i].path, ls[j].path)
  }

  lemma {:induction false} LeavesAtInOrder(leaves: seq<Leaf>, d: Path, n: Bytes)
    requires forall i, j :: 0 <= i < j < |leaves| && SamePlaceAndName(leaves[i].path, leaves[j].path) ==>
               Less(leaves[i].path, leaves[j].path)
    ensures PathsAscend(LeavesAt(leaves, d, n))
  {
    hide Parent, Name, Less;
    if leaves != [] {
      var init, last := leaves[..|leaves| - 1], leaves[|leaves| - 1];
      LeavesAtInOrder(init, d, n);
      LeavesAtAre(init, d, n);
      var ls := LeavesAt(init, d, n);
      if Parent(last.path) == d && Name(last.path) == n {
        forall i | 0 <= i < |ls| ensures Less(ls[i].path, last.path) {
          assert ls[i] in ls;
          var k :| 0 <= k < |init| && init[k] == ls[i];
          assert leaves[k] == ls[i];
        }
      }
    }
  }

  lemma {:induction false} PathOrderUnique(a: seq<Leaf>, b: seq<Leaf>)
    requires PathsAscend(a) && PathsAscend(b) && SameMembers(a, b)
    ensures a == b
    decreases |a|
  {
    hide Less;
    assert b != [] ==> b[0] in b;
    if a != [] {
      assert a[0] in a;
      var k :| 0 <= k < |b| && b[k] == a[0];
      var m :| 0 <= m < |a| && a[m] == b[0];
      if k > 0 && m > 0 {
        LessTransitive(a[0].path, b[0].path, a[0].path);
        LessIrreflexive(a[0].path);
      }
      assert a[0] == b[0];
      LessIrreflexive(a[0].path);
      forall l ensures l in a[1..] <==> l in b[1..] {
        assert l in a <==> l == a[0] || l in a[1..];
        assert l in b <==> l == b[0] || l in b[1..];
        if l in a[1..] { var i :| 0 <= i < |a[1..]| && a[1..][i] == l; assert Less(a[0].path, a[i + 1].path); }
        if l in b[1..] { var i :| 0 <= i < |b[1..]| && b[1..][i] == l; assert Less(b[0].path, b[i + 1].path); }
      }
      PathOrderUnique(a[1..], b[1..]);
      assert a == [a[0]] + a[1..] && b == [b[0]] + b[1..];
    }
  }

  lemma StoredInOrder(rows: map<Path, Row>, n: Bytes)
    ensures PathsAscend(LeavesAt(RowLeaves(rows), [], n))
  {
    hide Listing, Less, LeavesAt, SamePlaceAndName;
    var leaves := RowLeaves(rows);
    forall i, j | 0 <= i < j < |leaves|
      ensures Less(leaves[i].path, leaves[j].path)
    {
      ListingDistinct(rows.Keys, i, j);
    }
    LeavesAtInOrder(leaves, [], n);
  }

  lemma OrderedAgreesWithStored(records: seq<Record>)
    requires InventoryStore.DistinctPaths(records) && SpellingsInOrder(records)
    ensures SameTopOrder(RecordLeaves(records), RowLeaves(RowsOf(records)))
  {
    hide RowsOf, RowLeaves, LeavesAt, Less, SamePlaceAndName, Parent, Name;
    var a, b := RecordLeaves(records), RowLeaves(RowsOf(records));
    RecordLeavesAre(records);
    forall n ensures LeavesAt(a, [], n) == LeavesAt(b, [], n) {
      LeavesAtInOrder(a, [], n);
      StoredInOrder(RowsOf(records), n);
      LeavesAtAre(a, [], n);
      LeavesAtAre(b, [], n);
      PathOrderUnique(LeavesAt(a, [], n), LeavesAt(b, [], n));
    }
  }

  lemma {:induction false} AgreesOnlyInOrder(records: seq<Record>, i: nat, j: nat)
    requires InventoryStore.DistinctPaths(records) && i < j < |records|
             && SamePlaceAndName(records[i].path, records[j].path)
    requires SameTopOrder(RecordLeaves(records), RowLeaves(RowsOf(records)))
    ensures Less(records[i].path, records[j].path)
  {
    hide RowsOf, RowLeaves, LeavesAt, Less, Parent, Name;
    var a, p, q := RecordLeaves(records), records[i].path, records[j].path;
    SamePlace(p, q);
    assert a[i].path == p && a[j].path == q;
    FilterKeepsOrder(a, [], Name(p), a[i], a[j]);
    StoredInOrder(RowsOf(records), Name(p));
    var ls := LeavesAt(RowLeaves(RowsOf(records)), [], Name(p));
    assert LeavesAt(a, [], Name(p)) == ls;
    var k, m :| 0 <= k < m < |ls| && ls[k] == a[i] && ls[m] == a[j];
  }

  /** A rebuild from records publishes the digest read back from its rows exactly when top-level names that occur in
      both spellings are given in byte order. */
  lemma RebuildMatchesIff(records: seq<Record>)
    requires InventoryStore.DistinctPaths(records)
    ensures RootOf(RecordLeaves(records)) == StoredDigest(RowsOf(records)) <==> SpellingsInOrder(records)
  {
    hide RootOf, RowsOf, RowLeaves, Less, SamePlaceAndName, SameTopOrder;
    RecordLeavesAre(records);
    RowLeavesAre(RowsOf(records));
    RootsBind(RecordLeaves(records), RowLeaves(RowsOf(records)));
    if SameTopOrder(RecordLeaves(records), RowLeaves(RowsOf(records))) {
      forall i, j | 0 <= i < j < |records| && SamePlaceAndName(records[i].path, records[j].path)
        ensures Less(records[i].path, records[j].path)
      {
        AgreesOnlyInOrder(records, i, j);
      }
    }
    if SpellingsInOrder(records) { OrderedAgreesWithStored(records); }
  }

  /** In particular whenever all paths are relative; then the digest is that of the directory tree. */
  lemma RelativeDigest(rows: map<Path, Row>)
    requires forall p :: p in rows ==> Relative(p)
    ensures StoredDigest(rows) == Root(LeafDigests(rows))
  {
    hide Relative, RowLeaves, Root, RootOf, FilesOf, FlatDigest, DirectoriesOf, IsSchedule;
    var leaves := RowLeaves(rows);
    RowLeavesAre(rows);
    forall i | 0 <= i < |leaves| ensures Relative(leaves[i].path) { assert leaves[i] in leaves; }
    var dirs := AnOrder(DirectoriesOf(leaves));
    OrderIsIrrelevant(leaves, dirs);
    RootLast(dirs, DirectoriesOf(leaves));
    FlatIsTree(leaves, dirs);
    FilesOfAre(leaves);
    forall p ensures p in FilesOf(leaves) <==> p in rows {
      if p in rows {
        var l := Leaf(p, LeafDigest(p, rows[p]));
        assert l in leaves;
        var i :| 0 <= i < |leaves| && leaves[i] == l;
      }
    }
    forall p | p in rows ensures FilesOf(leaves)[p] == LeafDigest(p, rows[p]) {
      var l := Leaf(p, LeafDigest(p, rows[p]));
      assert l in leaves;
      var i :| 0 <= i < |leaves| && leaves[i] == l;
    }
    assert FilesOf(leaves) == LeafDigests(rows);
  }

  // What is hashed for a file determines its fields.

  function LeafPreimage(path: Path, content: Bytes, length: nat, kind: nat, classification: nat,
                        inclusion: nat): Bytes {
    BigEndian(|path|, 8) + path + content + BigEndian(length, 8) + BigEndian(kind, 2) + BigEndian(classification, 2)
    + BigEndian(inclusion, 2)
  }

  predicate LeafFits(path: Path, content: Bytes, length: nat, kind: nat, classification: nat, inclusion: nat) {
    && |path| < Power256(8) && |content| == 32 && length < Power256(8)
    && kind < Power256(2) && classification < Power256(2) && inclusion < Power256(2)
  }

  lemma LeafPreimageInjective(p: Path, c: Bytes, n: nat, k: nat, l: nat, i: nat, p': Path, c': Bytes, n': nat, k': nat,
                              l': nat, i': nat)
    requires LeafFits(p, c, n, k, l, i) && LeafFits(p', c', n', k', l', i')
    requires LeafPreimage(p, c, n, k, l, i) == LeafPreimage(p', c', n', k', l', i')
    ensures p == p' && c == c' && n == n' && k == k' && l == l' && i == i'
  {
    hide BigEndian, FromBigEndian, Power256;
    var x, y := LeafPreimage(p, c, n, k, l, i), LeafPreimage(p', c', n', k', l', i');
    BigEndianRoundTrip(|p|, 8);
    BigEndianRoundTrip(|p'|, 8);
    assert x[..8] == BigEndian(|p|, 8) && y[..8] == BigEndian(|p'|, 8);
    var m := 8 + |p|;
    assert x[8..m] == p && y[8..m] == p';
    assert x[m..m + 32] == c && y[m..m + 32] == c';
    assert x[m + 32..] == BigEndian(n, 8) + BigEndian(k, 2) + BigEndian(l, 2) + BigEndian(i, 2);
    assert y[m + 32..] == BigEndian(n', 8) + BigEndian(k', 2) + BigEndian(l', 2) + BigEndian(i', 2);
    Fields(x, m + 32, n, k, l, i);
    Fields(y, m + 32, n', k', l', i');
  }

  lemma Fields(x: Bytes, m: nat, n: nat, k: nat, l: nat, i: nat)
    requires |x| == m + 14 && x[m..] == BigEndian(n, 8) + BigEndian(k, 2) + BigEndian(l, 2) + BigEndian(i, 2)
    requires n < Power256(8) && k < Power256(2) && l < Power256(2) && i < Power256(2)
    ensures n == FromBigEndian(x[m..m + 8]) && k == FromBigEndian(x[m + 8..m + 10])
    ensures l == FromBigEndian(x[m + 10..m + 12]) && i == FromBigEndian(x[m + 12..m + 14])
  {
    hide BigEndian, FromBigEndian, Power256;
    BigEndianRoundTrip(n, 8);
    BigEndianRoundTrip(k, 2);
    BigEndianRoundTrip(l, 2);
    BigEndianRoundTrip(i, 2);
    var e := x[m..];
    assert e[..8] == BigEndian(n, 8) && e[8..10] == BigEndian(k, 2);
    assert e[10..12] == BigEndian(l, 2) && e[12..14] == BigEndian(i, 2);
    assert e[..8] == x[m..m + 8] && e[8..10] == x[m + 8..m + 10];
    assert e[10..12] == x[m + 10..m + 12] && e[12..14] == x[m + 12..m + 14];
  }
}
