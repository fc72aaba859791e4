/** What the inventory digest determines. */
module MerkleBinding {
  import opened Bytes
  import opened Merkle
  import opened MerkleFlat
  import opened MerkleOrder

  // Reading the leaf digests back out of a digest.

  ghost function FilesUnder(digest: Digest): set<Digest>
    decreases digest, 1
  {
    match digest
    case Directory(children) => FilesAmong(children)
    case _ => {}
  }

  ghost function FilesAmong(children: seq<Child>): set<Digest>
    decreases children, 0
  {
    if children == [] then {} else FilesOfChild(children[0]) + FilesAmong(children[1..])
  }

  ghost function FilesOfChild(c: Child): set<Digest>
    decreases c
  {
    if c.kind == FILE then {c.digest} else FilesUnder(c.digest)
  }

  lemma {:induction false} FilesAmongAre(children: seq<Child>, f: Digest)
    ensures f in FilesAmong(children) <==> exists c :: c in children && f in FilesOfChild(c)
    decreases |children|
  {
    hide FilesOfChild;
    if children != [] {
      FilesAmongAre(children[1..], f);
      assert children[0] in children;
      if c :| c in children && f in FilesOfChild(c) {
        assert c == children[0] || c in children[1..];
      }
    }
  }

  ghost predicate IsLeafBelow(leaves: seq<Leaf>, d: Path, i: nat, f: Digest) {
    i < |leaves| && d in Chain(Parent(leaves[i].path)) && f == leaves[i].digest
  }

  ghost predicate LeafBelow(leaves: seq<Leaf>, d: Path, f: Digest) {
    exists i: nat :: IsLeafBelow(leaves, d, i, f)
  }

  /** On the way from q up to d there is a subdirectory of d, unless q is d. */
  lemma {:induction false} StepBelow(q: Path, d: Path) returns (e: Path)
    requires d in Chain(q) && d != q
    ensures e in Chain(q) && e != [] && Parent(e) == d
    decreases |q|
  {
    if Parent(q) == d {
      e := q;
    } else {
      e := StepBelow(Parent(q), d);
    }
  }

  ghost predicate Holds(leaves: seq<Leaf>, dirs: seq<Path>, k: nat, f: Digest)
    requires k < |dirs|
  {
    f in FilesUnder(FlatDigest(leaves, dirs, k))
  }

  /** A file in the digest is a leaf below the directory. */
  lemma HeldIsLeaf(leaves: seq<Leaf>, dirs: seq<Path>, k: nat, c: Child, f: Digest)
    requires k < |dirs|
    requires forall j: nat :: j < k && Holds(leaves, dirs, j, f) ==> LeafBelow(leaves, dirs[j], f)
    requires c in LeafChildren(leaves, dirs[k]) + DirectoryChildren(leaves, dirs, dirs[k], k)
    requires f in FilesOfChild(c)
    ensures LeafBelow(leaves, dirs[k], f)
  {
    hide Parent, Name, FlatDigest, LeafChildren, DirectoryChildren, FilesUnder, Chain;
    var d := dirs[k];
    if c in LeafChildren(leaves, d) {
      LeafChildrenAre(leaves, d);
      var i: nat :| IsFileChild(leaves, d, i, c);
      assert IsLeafBelow(leaves, d, i, f);
    } else {
      DirectoryChildrenAre(leaves, dirs, d, k);
      var j: nat :| IsDirectoryChild(leaves, dirs, d, k, j, c);
      assert Holds(leaves, dirs, j, f);
      var i: nat :| IsLeafBelow(leaves, dirs[j], i, f);
      ChainClosed(Parent(leaves[i].path));
      assert IsLeafBelow(leaves, d, i, f);
    }
  }

  /** A leaf below the directory is in one of its children. */
  lemma LeafIsHeld(leaves: seq<Leaf>, dirs: seq<Path>, k: nat, f: Digest) returns (c: Child)
    requires IsSchedule(dirs, DirectoriesOf(leaves)) && k < |dirs|
    requires forall j: nat :: j < k && LeafBelow(leaves, dirs[j], f) ==> Holds(leaves, dirs, j, f)
    requires LeafBelow(leaves, dirs[k], f)
    ensures c in LeafChildren(leaves, dirs[k]) + DirectoryChildren(leaves, dirs, dirs[k], k)
    ensures f in FilesOfChild(c)
  {
    hide Parent, Name, FlatDigest, Depth, LeafChildren, DirectoryChildren, DirectoriesOf, FilesUnder, Chain;
    var d := dirs[k];
    var i: nat :| IsLeafBelow(leaves, d, i, f);
    var q := Parent(leaves[i].path);
    if q == d {
      c := Child(Name(leaves[i].path), FILE, leaves[i].digest);
      LeafChildrenAre(leaves, d);
      assert IsFileChild(leaves, d, i, c);
    } else {
      var e := StepBelow(q, d);
      DirectoriesByMember(leaves);
      assert leaves[i] in leaves;
      assert e in dirs;
      var j: nat :| j < |dirs| && dirs[j] == e;
      ChildrenComeFirst(dirs, j, k);
      assert IsLeafBelow(leaves, dirs[j], i, f);
      assert Holds(leaves, dirs, j, f);
      c := Child(Name(e), DIRECTORY, FlatDigest(leaves, dirs, j));
      DirectoryChildrenAre(leaves, dirs, d, k);
      assert IsDirectoryChild(leaves, dirs, d, k, j, c);
    }
  }

  /** The digest of a directory holds exactly the leaf digests below it. */
  lemma {:induction false} DigestHolds(leaves: seq<Leaf>, dirs: seq<Path>, k: nat, f: Digest)
    requires IsSchedule(dirs, DirectoriesOf(leaves)) && k < |dirs|
    ensures Holds(leaves, dirs, k, f) <==> LeafBelow(leaves, dirs[k], f)
    decreases k
  {
    hide IsSchedule, LeafChildren, DirectoryChildren, SortByName, DirectoriesOf, LeafBelow, FilesOfChild, FilesAmong;
    forall j: nat | j < k ensures Holds(leaves, dirs, j, f) <==> LeafBelow(leaves, dirs[j], f) {
      DigestHolds(leaves, dirs, j, f);
    }
    var children := LeafChildren(leaves, dirs[k]) + DirectoryChildren(leaves, dirs, dirs[k], k);
    SortIsByName(children);
    FilesAmongAre(SortByName(children), f);
    if Holds(leaves, dirs, k, f) {
      var c :| c in SortByName(children) && f in FilesOfChild(c);
      HeldIsLeaf(leaves, dirs, k, c, f);
    }
    if LeafBelow(leaves, dirs[k], f) {
      var c := LeafIsHeld(leaves, dirs, k, f);
      assert c in SortByName(children);
    }
  }

  /** Exactly the leaf digests can be read off the root digest, whatever the paths. */
  lemma RootHolds(leaves: seq<Leaf>, f: Digest)
    ensures f in FilesUnder(RootOf(leaves)) <==> exists l :: l in leaves && l.digest == f
  {
    hide FlatDigest, FilesUnder, DirectoriesOf, RootOf, IsSchedule;
    var dirs := AnOrder(DirectoriesOf(leaves));
    OrderIsIrrelevant(leaves, dirs);
    RootLast(dirs, DirectoriesOf(leaves));
    DigestHolds(leaves, dirs, |dirs| - 1, f);
    if LeafBelow(leaves, [], f) {
      var i: nat :| IsLeafBelow(leaves, [], i, f);
      assert leaves[i] in leaves;
    }
    if l :| l in leaves && l.digest == f {
      var i: nat :| i < |leaves| && leaves[i] == l;
      assert IsLeafBelow(leaves, [], i, f);
    }
  }

  // Leaves as the inventory makes them.

  /** Every leaf digest hashes the path of its leaf. */
  ghost predicate PathBearing(leaves: seq<Leaf>) {
    forall l :: l in leaves ==> l.digest.File? && l.digest.path == l.path
  }

  ghost predicate DistinctLeafPaths(leaves: seq<Leaf>) {
    forall i, j :: 0 <= i < j < |leaves| ==> leaves[i].path != leaves[j].path
  }

  ghost predicate SameMembers(a: seq<Leaf>, b: seq<Leaf>) {
    forall l :: l in a <==> l in b
  }

  /** Equal digests mean the same leaves, whatever the paths. */
  lemma RootBindsLeaves(a: seq<Leaf>, b: seq<Leaf>)
    requires PathBearing(a) && PathBearing(b) && RootOf(a) == RootOf(b)
    ensures SameMembers(a, b)
  {
    hide RootOf, FilesUnder;
    forall l ensures l in a <==> l in b {
      RootHolds(a, l.digest);
      RootHolds(b, l.digest);
    }
  }

  /** The top-level files of one name are listed in the root as they come. */
  lemma RootListsTop(leaves: seq<Leaf>, n: Bytes)
    ensures RootOf(leaves).Directory?
    ensures forall c :: c in Named(RootOf(leaves).children, n) && c.kind == FILE ==>
            c in FileChildren(LeavesAt(leaves, [], n), n)
    ensures FileChildren(LeavesAt(leaves, [], n), n) <= Named(RootOf(leaves).children, n)
  {
    hide RootOf, DirectoriesOf, IsSchedule, Named, LeavesAt, LeafChildren, DirectoryChildren, DirectoriesAt,
         SortByName, DigestAt;
    var dirs := AnOrder(DirectoriesOf(leaves));
    OrderIsIrrelevant(leaves, dirs);
    RootLast(dirs, DirectoriesOf(leaves));
    FirstOfSchedule(dirs, DirectoriesOf(leaves));
    var k := |dirs| - 1;
    var files, directories := LeafChildren(leaves, []), DirectoryChildren(leaves, dirs, [], k);
    SortNamed(files + directories, n);
    NamedJoins(files, directories, n);
    NamedLeaves(leaves, [], n);
    NamedDirectories(leaves, dirs, [], k, n);
  }

  lemma PrefixByKind(a: seq<Child>, b: seq<Child>, all: seq<Child>)
    requires a <= all && b <= all && |a| <= |b|
    requires forall c :: c in b ==> c.kind == FILE
    requires forall c :: c in all && c.kind == FILE ==> c in a
    requires forall i, j :: 0 <= i < j < |b| ==> b[i] != b[j]
    ensures a == b
  {
    if b != [] {
      var last := |b| - 1;
      assert b[last] in b && b[last] == all[last] && b[last] in all;
      var k :| 0 <= k < |a| && a[k] == b[last];
      assert a[k] == all[k] == b[k];
    }
  }

  lemma {:induction false} LeavesAtDistinct(leaves: seq<Leaf>, d: Path, n: Bytes)
    requires DistinctLeafPaths(leaves)
    ensures DistinctLeafPaths(LeavesAt(leaves, d, n))
  {
    hide Parent, Name;
    if leaves != [] {
      var init, last := leaves[..|leaves| - 1], leaves[|leaves| - 1];
      LeavesAtDistinct(init, d, n);
      LeavesAtAre(init, d, n);
      var ls := LeavesAt(init, d, n);
      forall i | 0 <= i < |ls| ensures ls[i].path != last.path {
        assert ls[i] in ls;
        var k :| 0 <= k < |init| && init[k] == ls[i];
        assert leaves[k] == ls[i];
      }
    }
  }

  /** So equal roots list the top-level files of one name in one order. */
  lemma SameTop(a: seq<Leaf>, b: seq<Leaf>, n: Bytes)
    requires PathBearing(a) && PathBearing(b) && DistinctLeafPaths(a) && DistinctLeafPaths(b) && RootOf(a) == RootOf(b)
    ensures LeavesAt(a, [], n) == LeavesAt(b, [], n)
  {
    hide RootOf, LeavesAt, Named, Parent, Name;
    var x, y := LeavesAt(a, [], n), LeavesAt(b, [], n);
    var fx, fy := FileChildren(x, n), FileChildren(y, n);
    RootListsTop(a, n);
    RootListsTop(b, n);
    FileChildrenDistinct(a, n);
    FileChildrenDistinct(b, n);
    if |fx| <= |fy| {
      PrefixByKind(fx, fy, Named(RootOf(a).children, n));
    } else {
      PrefixByKind(fy, fx, Named(RootOf(a).children, n));
    }
    assert fx == fy;
    forall i | 0 <= i < |x| ensures x[i] == y[i] {
      assert fx[i] == fy[i];
      LeavesAtAre(a, [], n);
      LeavesAtAre(b, [], n);
      assert x[i] in x && y[i] in y;
    }
  }

  lemma FileChildrenDistinct(a: seq<Leaf>, n: Bytes)
    requires PathBearing(a) && DistinctLeafPaths(a)
    ensures var fs := FileChildren(LeavesAt(a, [], n), n);
            && (forall c :: c in fs ==> c.kind == FILE)
            && forall i, j :: 0 <= i < j < |fs| ==> fs[i] != fs[j]
  {
    hide LeavesAt, Parent, Name;
    var x := LeavesAt(a, [], n);
    LeavesAtDistinct(a, [], n);
    LeavesAtAre(a, [], n);
    forall i, j | 0 <= i < j < |x| ensures x[i].digest != x[j].digest {
      assert x[i] in x && x[j] in x;
    }
  }

  /** In all other places distinct paths have distinct names. */
  lemma {:induction false} OneInPlace(leaves: seq<Leaf>, d: Path, n: Bytes)
    requires DistinctLeafPaths(leaves) && d != []
    ensures |LeavesAt(leaves, d, n)| <= 1
  {
    hide Parent, Name, LeavesAt;
    var ls := LeavesAt(leaves, d, n);
    LeavesAtDistinct(leaves, d, n);
    LeavesAtAre(leaves, d, n);
    if |ls| > 1 {
      assert ls[0] in ls && ls[1] in ls;
      SamePlace(ls[0].path, ls[1].path);
    }
  }

  lemma SameInPlace(a: seq<Leaf>, b: seq<Leaf>, d: Path, n: Bytes)
    requires DistinctLeafPaths(a) && DistinctLeafPaths(b) && SameMembers(a, b) && d != []
    ensures LeavesAt(a, d, n) == LeavesAt(b, d, n)
  {
    hide Parent, Name, LeavesAt, DistinctLeafPaths;
    var x, y := LeavesAt(a, d, n), LeavesAt(b, d, n);
    OneInPlace(a, d, n);
    OneInPlace(b, d, n);
    LeavesAtAre(a, d, n);
    LeavesAtAre(b, d, n);
    assert x != [] ==> x[0] in x && x[0] in y;
    assert y != [] ==> y[0] in y && y[0] in x;
  }

  /** The top-level leaves of each name come in the same order. */
  ghost predicate SameTopOrder(a: seq<Leaf>, b: seq<Leaf>) {
    forall n :: LeavesAt(a, [], n) == LeavesAt(b, [], n)
  }

  /** Two inventories of distinct paths share a digest exactly when they hold the same leaves and list those that share
      a top-level name in the same order. */
  lemma RootsBind(a: seq<Leaf>, b: seq<Leaf>)
    requires PathBearing(a) && PathBearing(b) && DistinctLeafPaths(a) && DistinctLeafPaths(b)
    ensures RootOf(a) == RootOf(b) <==> SameMembers(a, b) && SameTopOrder(a, b)
  {
    hide RootOf, LeavesAt, PathBearing, DistinctLeafPaths, SameMembers;
    if RootOf(a) == RootOf(b) {
      RootBindsLeaves(a, b);
      forall n ensures LeavesAt(a, [], n) == LeavesAt(b, [], n) { SameTop(a, b, n); }
    }
    if SameMembers(a, b) && SameTopOrder(a, b) {
      forall d, n ensures LeavesAt(a, d, n) == LeavesAt(b, d, n) {
        if d != [] { SameInPlace(a, b, d, n); }
      }
      AlikeSameRoot(a, b);
    }
  }

  // When the order of the leaves does not matter.

  /** A top-level name occurs with and without a leading slash. */
  ghost predicate BothSpellings(leaves: seq<Leaf>, n: Bytes) {
    && SLASH !in n
    && (exists l :: l in leaves && l.path == n) && exists l :: l in leaves && l.path == [SLASH] + n
  }

  ghost predicate InOrderOf(ls: seq<Leaf>, x: Leaf, y: Leaf) {
    exists i, j :: 0 <= i < j < |ls| && ls[i] == x && ls[j] == y
  }

  lemma LongerKeepsOrder(ls: seq<Leaf>, more: seq<Leaf>, x: Leaf, y: Leaf)
    requires InOrderOf(ls, x, y) || (x in ls && more == [y])
    ensures InOrderOf(ls + more, x, y)
  {
    var all := ls + more;
    if InOrderOf(ls, x, y) {
      var k, m :| 0 <= k < m < |ls| && ls[k] == x && ls[m] == y;
      assert all[k] == x && all[m] == y;
    } else {
      var k :| 0 <= k < |ls| && ls[k] == x;
      assert all[k] == x && all[|ls|] == y;
    }
  }

  lemma {:induction false} FilterKeepsOrder(leaves: seq<Leaf>, d: Path, n: Bytes, x: Leaf, y: Leaf)
    requires InOrderOf(leaves, x, y)
    requires Parent(x.path) == Parent(y.path) == d && Name(x.path) == Name(y.path) == n
    ensures InOrderOf(LeavesAt(leaves, d, n), x, y)
  {
    hide Parent, Name;
    var i, j :| 0 <= i < j < |leaves| && leaves[i] == x && leaves[j] == y;
    var init, last := leaves[..|leaves| - 1], leaves[|leaves| - 1];
    var more := if Parent(last.path) == d && Name(last.path) == n then [last] else [];
    assert init[i] == x && x in init;
    if j == |leaves| - 1 {
      LeavesAtAre(init, d, n);
    } else {
      assert init[j] == y;
      FilterKeepsOrder(init, d, n, x, y);
    }
    LongerKeepsOrder(LeavesAt(init, d, n), more, x, y);
  }

  lemma SwapIsPermutation(leaves: seq<Leaf>, i: nat, j: nat)
    requires i < j < |leaves|
    ensures multiset(leaves[i := leaves[j]][j := leaves[i]]) == multiset(leaves)
  {
  }

  lemma PermutationKeeps(a: seq<Leaf>, b: seq<Leaf>)
    requires multiset(a) == multiset(b)
    ensures SameMembers(a, b) && |a| == |b|
  {
    forall l ensures l in a <==> l in b {
      assert l in a <==> l in multiset(a);
      assert l in b <==> l in multiset(b);
    }
    assert |multiset(a)| == |a| && |multiset(b)| == |b|;
  }

  lemma PermutationDistinct(a: seq<Leaf>, b: seq<Leaf>)
    requires multiset(a) == multiset(b) && DistinctLeafPaths(a)
    ensures DistinctLeafPaths(b)
  {
    forall i, j | 0 <= i < j < |b| ensures b[i].path != b[j].path {
      PermutationKeeps(a, b);
      assert b[i] in b && b[j] in b;
      if b[i].path == b[j].path {
        var k :| 0 <= k < |a| && a[k] == b[i];
        var m :| 0 <= m < |a| && a[m] == b[j];
        assert k == m;
        TwiceCounted(b, i, j);
        OnceCounted(a, k);
      }
    }
  }

  lemma TwiceCounted(b: seq<Leaf>, i: nat, j: nat)
    requires i < j < |b| && b[i] == b[j]
    ensures multiset(b)[b[i]] >= 2
  {
    assert b == b[..j] + b[j..];
    assert b[i] == b[..j][i] && b[j] == b[j..][0];
    assert b[i] in multiset(b[..j]) && b[i] in multiset(b[j..]);
  }

  lemma OnceCounted(a: seq<Leaf>, k: nat)
    requires k < |a| && DistinctLeafPaths(a)
    ensures multiset(a)[a[k]] == 1
  {
    var x := a[k];
    assert a == a[..k] + [x] + a[k + 1..];
    assert x !in a[..k] && x !in a[k + 1..];
  }

  /** Distinct paths share place and name only as the two spellings of a top-level name. */
  lemma SharedTop(leaves: seq<Leaf>, n: Bytes)
    requires DistinctLeafPaths(leaves) && |LeavesAt(leaves, [], n)| > 1
    ensures BothSpellings(leaves, n)
  {
    hide Parent, Name, LeavesAt;
    var ls := LeavesAt(leaves, [], n);
    LeavesAtDistinct(leaves, [], n);
    LeavesAtAre(leaves, [], n);
    assert ls[0] in ls && ls[1] in ls;
    SamePlace(ls[0].path, ls[1].path);
  }

  lemma TopIsSingle(leaves: seq<Leaf>, n: Bytes)
    requires DistinctLeafPaths(leaves) && forall m :: !BothSpellings(leaves, m)
    ensures |LeavesAt(leaves, [], n)| <= 1
  {
    hide LeavesAt, BothSpellings;
    if |LeavesAt(leaves, [], n)| > 1 { SharedTop(leaves, n); }
  }

  lemma SingleTopSame(a: seq<Leaf>, b: seq<Leaf>)
    requires DistinctLeafPaths(a) && DistinctLeafPaths(b) && SameMembers(a, b) && forall m :: !BothSpellings(a, m)
    ensures SameTopOrder(a, b)
  {
    hide Parent, Name, LeavesAt, DistinctLeafPaths;
    forall m ensures !BothSpellings(b, m) { assert !BothSpellings(a, m); }
    forall n ensures LeavesAt(a, [], n) == LeavesAt(b, [], n) {
      TopIsSingle(a, n);
      TopIsSingle(b, n);
      LeavesAtAre(a, [], n);
      LeavesAtAre(b, [], n);
      var x, y := LeavesAt(a, [], n), LeavesAt(b, [], n);
      assert x != [] ==> x[0] in x && x[0] in y;
      assert y != [] ==> y[0] in y && y[0] in x;
    }
  }

  ghost predicate AnyOrder(leaves: seq<Leaf>) {
    forall b :: multiset(b) == multiset(leaves) ==> RootOf(b) == RootOf(leaves)
  }

  lemma OneWay(ls: seq<Leaf>, x: Leaf, y: Leaf)
    requires DistinctLeafPaths(ls) && InOrderOf(ls, x, y)
    ensures !InOrderOf(ls, y, x)
  {
    var i, j :| 0 <= i < j < |ls| && ls[i] == x && ls[j] == y;
    forall k, m | 0 <= k < m < |ls| ensures !(ls[k] == y && ls[m] == x) {}
  }

  lemma NoBothOrders(a: seq<Leaf>, b: seq<Leaf>, n: Bytes, x: Leaf, y: Leaf)
    requires DistinctLeafPaths(a) && InOrderOf(a, x, y) && InOrderOf(b, y, x)
    requires Parent(x.path) == Parent(y.path) == [] && Name(x.path) == Name(y.path) == n
    ensures LeavesAt(a, [], n) != LeavesAt(b, [], n)
  {
    hide LeavesAt, Parent, Name, InOrderOf, DistinctLeafPaths;
    FilterKeepsOrder(a, [], n, x, y);
    FilterKeepsOrder(b, [], n, y, x);
    LeavesAtDistinct(a, [], n);
    OneWay(LeavesAt(a, [], n), x, y);
  }

  /** Exchanging two leaves of one place and name changes the digest. */
  lemma SwapDiffers(leaves: seq<Leaf>, k: nat, m: nat, b: seq<Leaf>)
    requires PathBearing(leaves) && DistinctLeafPaths(leaves) && k < m < |leaves|
             && b == leaves[k := leaves[m]][m := leaves[k]]
    requires Parent(leaves[k].path) == Parent(leaves[m].path) == [] && Name(leaves[k].path) == Name(leaves[m].path)
    ensures multiset(b) == multiset(leaves) && RootOf(b) != RootOf(leaves)
  {
    hide RootOf, LeavesAt, Parent, Name, DistinctLeafPaths;
    SwapIsPermutation(leaves, k, m);
    PermutationKeeps(leaves, b);
    PermutationDistinct(leaves, b);
    assert b[k] == leaves[m] && b[m] == leaves[k];
    NoBothOrders(leaves, b, Name(leaves[k].path), leaves[k], leaves[m]);
    RootsBind(leaves, b);
  }

  lemma SwapChangesRoot(leaves: seq<Leaf>, n: Bytes)
    requires PathBearing(leaves) && DistinctLeafPaths(leaves) && BothSpellings(leaves, n)
    ensures !AnyOrder(leaves)
  {
    hide RootOf, Parent, Name, PathBearing, DistinctLeafPaths;
    var x :| x in leaves && x.path == n;
    var y :| y in leaves && y.path == [SLASH] + n;
    TopLevel(n);
    assert |x.path| < |y.path|;
    var i: nat :| i < |leaves| && leaves[i] == x;
    var j: nat :| j < |leaves| && leaves[j] == y;
    if i < j {
      SwapDiffers(leaves, i, j, leaves[i := leaves[j]][j := leaves[i]]);
    } else {
      SwapDiffers(leaves, j, i, leaves[j := leaves[i]][i := leaves[j]]);
    }
  }

  /** The digest does not depend on the order of the leaves exactly when no top-level name occurs in both spellings. */
  lemma OrderIrrelevantIff(leaves: seq<Leaf>)
    requires PathBearing(leaves) && DistinctLeafPaths(leaves)
    ensures AnyOrder(leaves) <==> forall n :: !BothSpellings(leaves, n)
  {
    hide RootOf, LeavesAt, BothSpellings, AnyOrder;
    if n :| BothSpellings(leaves, n) { SwapChangesRoot(leaves, n); }
    if forall n :: !BothSpellings(leaves, n) { SpelledOnce(leaves); }
  }

  lemma SpelledOnce(leaves: seq<Leaf>)
    requires PathBearing(leaves) && DistinctLeafPaths(leaves) && forall n :: !BothSpellings(leaves, n)
    ensures AnyOrder(leaves)
  {
    hide RootOf, LeavesAt, BothSpellings;
    forall b | multiset(b) == multiset(leaves) ensures RootOf(b) == RootOf(leaves) {
      PermutationKeeps(leaves, b);
      PermutationDistinct(leaves, b);
      SingleTopSame(leaves, b);
      RootsBind(leaves, b);
    }
  }

  // What is hashed for a directory determines its children.

  datatype Hashed = Hashed(name: Bytes, kind: Byte, digest: Bytes)

  function Preimage(children: seq<Hashed>): Bytes {
    if children == [] then []
    else BigEndian(|children[0].name|, 8) + children[0].name + [children[0].kind] + children[0].digest
         + Preimage(children[1..])
  }

  ghost predicate Hashable(children: seq<Hashed>) {
    forall c :: c in children ==> |c.name| < Power256(8) && |c.digest| == 32
  }

  lemma FirstHashed(a: Hashed, rest: Bytes, b: Hashed, rest': Bytes)
    requires |a.name| < Power256(8) && |b.name| < Power256(8) && |a.digest| == |b.digest| == 32
    requires BigEndian(|a.name|, 8) + a.name + [a.kind] + a.digest + rest ==
             BigEndian(|b.name|, 8) + b.name + [b.kind] + b.digest + rest'
    ensures a == b && rest == rest'
  {
    hide BigEndian, FromBigEndian, Power256;
    var p := BigEndian(|a.name|, 8) + a.name + [a.kind] + a.digest + rest;
    var q := BigEndian(|b.name|, 8) + b.name + [b.kind] + b.digest + rest';
    BigEndianRoundTrip(|a.name|, 8);
    BigEndianRoundTrip(|b.name|, 8);
    assert p[..8] == BigEndian(|a.name|, 8) && q[..8] == BigEndian(|b.name|, 8);
    var n := 8 + |a.name|;
    assert p[8..n] == a.name && q[8..n] == b.name;
    assert p[n] == a.kind && q[n] == b.kind;
    assert p[n + 1..n + 33] == a.digest && q[n + 1..n + 33] == b.digest;
    assert p[n + 33..] == rest && q[n + 33..] == rest';
  }

  lemma {:induction false} PreimageInjective(a: seq<Hashed>, b: seq<Hashed>)
    requires Hashable(a) && Hashable(b) && Preimage(a) == Preimage(b)
    ensures a == b
    decreases |a|
  {
    hide BigEndian, Power256;
    assert a != [] ==> |Preimage(a)| >= 8;
    assert b != [] ==> |Preimage(b)| >= 8;
    if a != [] {
      assert a[0] in a && b[0] in b;
      FirstHashed(a[0], Preimage(a[1..]), b[0], Preimage(b[1..]));
      PreimageInjective(a[1..], b[1..]);
    }
  }
}
