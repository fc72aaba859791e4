/** The inventory digest of any leaves: it depends on their order only among leaves of one place and name. */
module MerkleOrder {
  import opened Bytes
  import opened Merkle
  import opened MerkleFlat

  // A stable sort is determined by what has each name, in its order.

  function Named(cs: seq<Child>, n: Bytes): seq<Child> {
    if cs == [] then []
    else if cs[0].name == n then [cs[0]] + Named(cs[1..], n)
    else Named(cs[1..], n)
  }

  lemma {:induction false} NamedJoins(a: seq<Child>, b: seq<Child>, n: Bytes)
    ensures Named(a + b, n) == Named(a, n) + Named(b, n)
  {
    if a == [] {
      assert a + b == b;
    } else {
      NamedJoins(a[1..], b, n);
      assert (a + b)[1..] == a[1..] + b;
    }
  }

  lemma {:induction false} NamedAre(cs: seq<Child>, n: Bytes)
    ensures forall c :: c in Named(cs, n) <==> c in cs && c.name == n
  {
    if cs != [] {
      NamedAre(cs[1..], n);
      assert forall c :: c in cs <==> c == cs[0] || c in cs[1..];
    }
  }

  lemma {:induction false} InsertNamed(c: Child, cs: seq<Child>, n: Bytes)
    ensures Named(InsertByName(c, cs), n) == Named([c] + cs, n)
  {
    hide Less;
    assert ([c] + cs)[1..] == cs;
    if cs != [] && Less(cs[0].name, c.name) {
      LessIrreflexive(c.name);
      InsertNamed(c, cs[1..], n);
      assert ([c] + cs[1..])[1..] == cs[1..];
      assert ([cs[0]] + InsertByName(c, cs[1..]))[1..] == InsertByName(c, cs[1..]);
    } else {
      assert cs == [] ==> [c] + cs == [c];
    }
  }

  /** Sorting keeps the order among equal names. */
  lemma {:induction false} SortNamed(cs: seq<Child>, n: Bytes)
    ensures Named(SortByName(cs), n) == Named(cs, n)
  {
    if cs != [] {
      SortNamed(cs[1..], n);
      InsertNamed(cs[0], SortByName(cs[1..]), n);
      assert ([cs[0]] + SortByName(cs[1..]))[1..] == SortByName(cs[1..]);
    }
  }

  ghost predicate ByName(cs: seq<Child>) {
    forall i, j :: 0 <= i < j < |cs| ==> !Less(cs[j].name, cs[i].name)
  }

  lemma NotLessTransitive(a: Bytes, b: Bytes, c: Bytes)
    requires !Less(b, a) && !Less(c, b)
    ensures !Less(c, a)
  {
    LessTotal(a, b);
    LessTotal(b, c);
    if Less(c, a) {
      if a != b { LessTransitive(c, a, b); }
    }
  }

  lemma {:induction false} InsertKeepsByName(c: Child, cs: seq<Child>)
    requires ByName(cs)
    ensures ByName(InsertByName(c, cs)) && forall x :: x in InsertByName(c, cs) <==> x == c || x in cs
  {
    hide Less;
    if cs != [] {
      assert forall x :: x in cs <==> x == cs[0] || x in cs[1..];
      if Less(cs[0].name, c.name) {
        InsertKeepsByName(c, cs[1..]);
        var r := InsertByName(c, cs[1..]);
        forall x | x in r ensures !Less(x.name, cs[0].name) {
          if x == c {
            if Less(c.name, cs[0].name) {
              LessTransitive(c.name, cs[0].name, c.name);
              LessIrreflexive(c.name);
            }
          } else {
            var k :| 0 <= k < |cs[1..]| && cs[1..][k] == x;
            assert cs[k + 1] == x;
          }
        }
      } else {
        forall k | 0 <= k < |cs| ensures !Less(cs[k].name, c.name) {
          if k > 0 { NotLessTransitive(c.name, cs[0].name, cs[k].name); }
        }
      }
    }
  }

  lemma {:induction false} SortIsByName(cs: seq<Child>)
    ensures ByName(SortByName(cs)) && forall x :: x in SortByName(cs) <==> x in cs
  {
    if cs != [] {
      SortIsByName(cs[1..]);
      InsertKeepsByName(cs[0], SortByName(cs[1..]));
      assert forall x :: x in cs <==> x == cs[0] || x in cs[1..];
    }
  }

  lemma FirstNamed(a: seq<Child>, b: seq<Child>)
    requires ByName(b) && a != [] && Named(a, a[0].name) == Named(b, a[0].name)
    ensures b != [] && !Less(a[0].name, b[0].name) && Named(b, a[0].name) != [] && Named(b, a[0].name)[0] == a[0]
  {
    NamedAre(b, a[0].name);
    assert Named(a, a[0].name)[0] == a[0];
    assert a[0] in Named(b, a[0].name);
    var k :| 0 <= k < |b| && b[k] == a[0];
    if k == 0 { LessIrreflexive(a[0].name); }
  }

  lemma {:induction false} ByNameIsUnique(a: seq<Child>, b: seq<Child>)
    requires ByName(a) && ByName(b) && NamedAlike(a, b)
    ensures a == b
  {
    hide Less;
    if a != [] {
      FirstNamed(a, b);
      FirstNamed(b, a);
      LessTotal(a[0].name, b[0].name);
      assert a[0] == b[0];
      forall n ensures Named(a[1..], n) == Named(b[1..], n) {
        assert Named(a, n) == Named(b, n);
        if a[0].name == n {
          assert Named(a[1..], n) == Named(a, n)[1..] && Named(b[1..], n) == Named(b, n)[1..];
        }
      }
      ByNameIsUnique(a[1..], b[1..]);
      assert a == [a[0]] + a[1..] && b == [b[0]] + b[1..];
    } else if b != [] {
      FirstNamed(b, a);
    }
  }

  ghost predicate NamedAlike(a: seq<Child>, b: seq<Child>) {
    forall n :: Named(a, n) == Named(b, n)
  }

  /** Two lists sort alike exactly when they have the same elements of each name in the same order. */
  lemma SortedAlike(a: seq<Child>, b: seq<Child>)
    ensures SortByName(a) == SortByName(b) <==> NamedAlike(a, b)
  {
    hide SortByName, ByName, Named;
    forall n ensures Named(SortByName(a), n) == Named(a, n) && Named(SortByName(b), n) == Named(b, n) {
      SortNamed(a, n);
      SortNamed(b, n);
    }
    if NamedAlike(a, b) {
      SortIsByName(a);
      SortIsByName(b);
      ByNameIsUnique(SortByName(a), SortByName(b));
    }
  }

  // Leaves of one place and name.

  function LeavesAt(leaves: seq<Leaf>, d: Path, n: Bytes): seq<Leaf> {
    if leaves == [] then []
    else
      var last := leaves[|leaves| - 1];
      LeavesAt(leaves[..|leaves| - 1], d, n) + if Parent(last.path) == d && Name(last.path) == n then [last] else []
  }

  function FileChildren(leaves: seq<Leaf>, n: Bytes): (r: seq<Child>)
    ensures |r| == |leaves| && forall i :: 0 <= i < |r| ==> r[i] == Child(n, FILE, leaves[i].digest)
  {
    seq(|leaves|, i requires 0 <= i < |leaves| => Child(n, FILE, leaves[i].digest))
  }

  lemma {:induction false} NamedLeaves(leaves: seq<Leaf>, d: Path, n: Bytes)
    ensures Named(LeafChildren(leaves, d), n) == FileChildren(LeavesAt(leaves, d, n), n)
  {
    hide Parent, Name;
    if leaves != [] {
      var init, last := leaves[..|leaves| - 1], leaves[|leaves| - 1];
      NamedLeaves(init, d, n);
      var child := Child(Name(last.path), FILE, last.digest);
      var more := if Parent(last.path) == d then [child] else [];
      NamedJoins(LeafChildren(init, d), more, n);
      assert [child][1..] == [];
      assert Named(more, n) == if Parent(last.path) == d && Name(last.path) == n then [child] else [];
      assert FileChildren(LeavesAt(leaves, d, n), n) == FileChildren(LeavesAt(init, d, n), n) + Named(more, n);
    }
  }

  lemma {:induction false} LeavesAtAre(leaves: seq<Leaf>, d: Path, n: Bytes)
    ensures forall l :: l in LeavesAt(leaves, d, n) <==> l in leaves && Parent(l.path) == d && Name(l.path) == n
  {
    hide Parent, Name;
    if leaves != [] {
      var init, last := leaves[..|leaves| - 1], leaves[|leaves| - 1];
      LeavesAtAre(init, d, n);
      assert forall l :: l in leaves <==> l in init || l == last;
    }
  }

  lemma {:induction false} DirectoriesByMember(leaves: seq<Leaf>)
    ensures forall d :: d in DirectoriesOf(leaves) <==> d == [] || exists l :: l in leaves && d in Chain(Parent(l.path))
  {
    hide Parent, Chain;
    if leaves != [] {
      var init, last := leaves[..|leaves| - 1], leaves[|leaves| - 1];
      DirectoriesByMember(init);
      assert forall l :: l in leaves <==> l in init || l == last;
    }
  }

  // Directories of one place and name.

  function DirectoriesAt(dirs: seq<Path>, d: Path, n: Bytes): seq<Path> {
    if dirs == [] then []
    else
      var e := dirs[|dirs| - 1];
      DirectoriesAt(dirs[..|dirs| - 1], d, n) + if e != [] && Parent(e) == d && Name(e) == n then [e] else []
  }

  lemma {:induction false} DirectoriesAtAre(dirs: seq<Path>, d: Path, n: Bytes)
    ensures forall e :: e in DirectoriesAt(dirs, d, n) <==> e in dirs && e != [] && Parent(e) == d && Name(e) == n
  {
    hide Parent, Name;
    if dirs != [] {
      var init, last := dirs[..|dirs| - 1], dirs[|dirs| - 1];
      DirectoriesAtAre(init, d, n);
      assert forall e :: e in dirs <==> e in init || e == last;
    }
  }

  lemma TailHasNoSlash(p: Path, i: nat)
    requires i <= |p| && forall k :: i <= k < |p| ==> p[k] != SLASH
    ensures SLASH !in p[i..]
  {
  }

  lemma NameHasNoSlash(p: Path)
    ensures SLASH !in Name(p)
  {
    hide LastSlash;
    TailHasNoSlash(p, LastSlash(p) + 1);
  }

  lemma PathParts(p: Path)
    ensures p == Name(p) || p == Parent(p) + [SLASH] + Name(p)
    ensures p == Name(p) ==> Parent(p) == []
  {
    hide LastSlash;
    NameHasNoSlash(p);
    var i := LastSlash(p);
    if i < 0 {
      assert p[0..] == p;
    } else {
      assert p == p[..i] + [p[i]] + p[i + 1..];
      assert |Name(p)| < |p|;
    }
  }

  /** Two paths of one place and name are one path, or a top-level name with and without a leading slash. */
  lemma SamePlace(p: Path, q: Path)
    requires Parent(p) == Parent(q) && Name(p) == Name(q) && p != q
    ensures Parent(p) == [] && SLASH !in Name(p)
    ensures (p == Name(p) && q == [SLASH] + Name(p)) || (q == Name(p) && p == [SLASH] + Name(p))
  {
    hide Parent, Name;
    NameHasNoSlash(p);
    PathParts(p);
    PathParts(q);
    assert [] + [SLASH] + Name(p) == [SLASH] + Name(p);
  }

  lemma {:induction false} NoSlashes(n: Bytes)
    requires SLASH !in n
    ensures Slashes(n) == 0
  {
    if n != [] {
      assert n[|n| - 1] in n;
      NoSlashes(n[..|n| - 1]);
    }
  }

  lemma SlashIsDeeper(n: Bytes)
    requires SLASH !in n
    ensures Depth(n) < Depth([SLASH] + n)
  {
    NoSlashes(n);
    var p := [SLASH] + n;
    TopLevel(n);
    SlashesBeforeLast(p);
  }

  lemma TopLevel(n: Bytes)
    requires SLASH !in n
    ensures Parent(n) == [] && Name(n) == n
    ensures Parent([SLASH] + n) == [] && Name([SLASH] + n) == n && LastSlash([SLASH] + n) == 0
  {
    assert LastSlash(n) == -1;
    var p := [SLASH] + n;
    assert p[0] == SLASH;
    assert forall k :: 0 < k < |p| ==> p[k] == n[k - 1] && p[k] in n;
  }

  lemma SamePlaceDepth(p: Path, q: Path)
    requires Parent(p) == Parent(q) && Name(p) == Name(q) && p != q
    ensures Depth(p) != Depth(q)
  {
    SamePlace(p, q);
    SlashIsDeeper(Name(p));
  }

  ghost predicate Falls(ps: seq<Path>) {
    forall i, j :: 0 <= i < j < |ps| ==> Depth(ps[i]) > Depth(ps[j])
  }

  lemma {:induction false} DirectoriesAtFall(dirs: seq<Path>, d: Path, n: Bytes)
    requires DeepestFirst(dirs)
    ensures Falls(DirectoriesAt(dirs, d, n))
  {
    hide Parent, Name, Depth;
    if dirs != [] {
      var init, last := dirs[..|dirs| - 1], dirs[|dirs| - 1];
      DirectoriesAtFall(init, d, n);
      DirectoriesAtAre(init, d, n);
      var ps := DirectoriesAt(init, d, n);
      if last != [] && Parent(last) == d && Name(last) == n {
        forall i | 0 <= i < |ps| ensures Depth(ps[i]) > Depth(last) {
          assert ps[i] in ps;
          var k :| 0 <= k < |init| && init[k] == ps[i];
          assert dirs[k] == ps[i] && Depth(dirs[k]) >= Depth(last) && dirs[k] != last;
          SamePlaceDepth(ps[i], last);
        }
      }
    }
  }

  lemma {:induction false} FallingIsUnique(a: seq<Path>, b: seq<Path>)
    requires Falls(a) && Falls(b) && forall p :: p in a <==> p in b
    ensures a == b
  {
    hide Depth;
    assert b != [] ==> b[0] in b;
    if a != [] {
      assert a[0] in b;
      var k :| 0 <= k < |b| && b[k] == a[0];
      assert b[0] in a;
      var m :| 0 <= m < |a| && a[m] == b[0];
      assert a[0] == b[0];
      forall p ensures p in a[1..] <==> p in b[1..] {
        assert p in a <==> p == a[0] || p in a[1..];
        assert p in b <==> p == b[0] || p in b[1..];
        if p in a[1..] { var i :| 0 <= i < |a[1..]| && a[1..][i] == p; assert Depth(a[0]) > Depth(a[i + 1]); }
        if p in b[1..] { var i :| 0 <= i < |b[1..]| && b[1..][i] == p; assert Depth(b[0]) > Depth(b[i + 1]); }
      }
      FallingIsUnique(a[1..], b[1..]);
      assert a == [a[0]] + a[1..] && b == [b[0]] + b[1..];
    }
  }

  /** Any two deepest-first orders list the directories of one place and name alike. */
  lemma DirectoriesAtAgree(a: seq<Path>, b: seq<Path>, s: set<Path>, d: Path, n: Bytes)
    requires IsSchedule(a, s) && IsSchedule(b, s)
    ensures DirectoriesAt(a, d, n) == DirectoriesAt(b, d, n)
  {
    hide Parent, Name, Depth, DirectoriesAt, Falls;
    DirectoriesAtFall(a, d, n);
    DirectoriesAtFall(b, d, n);
    DirectoriesAtAre(a, d, n);
    DirectoriesAtAre(b, d, n);
    FallingIsUnique(DirectoriesAt(a, d, n), DirectoriesAt(b, d, n));
  }

  /** All of them come before their parent. */
  lemma {:induction false} DirectoriesAtEarly(dirs: seq<Path>, k: nat, n: Bytes)
    requires DeepestFirst(dirs) && k < |dirs|
    ensures DirectoriesAt(dirs[..k], dirs[k], n) == DirectoriesAt(dirs, dirs[k], n)
  {
    hide Depth, Name;
    LaterAreNoChildren(dirs, k, |dirs|, n);
    assert dirs[..|dirs|] == dirs;
  }

  lemma {:induction false} LaterAreNoChildren(dirs: seq<Path>, k: nat, i: nat, n: Bytes)
    requires DeepestFirst(dirs) && k < |dirs| && k <= i <= |dirs|
    ensures DirectoriesAt(dirs[..k], dirs[k], n) == DirectoriesAt(dirs[..i], dirs[k], n)
    decreases i
  {
    hide Depth, Name, DeepestFirst;
    if i > k {
      LaterAreNoChildren(dirs, k, i - 1, n);
      assert dirs[..i][..i - 1] == dirs[..i - 1];
      if dirs[i - 1] != [] && Parent(dirs[i - 1]) == dirs[k] { ChildrenComeFirst(dirs, i - 1, k); }
    }
  }

  // The digest of a directory does not depend on the order of the directories.

  ghost function PositionOf(dirs: seq<Path>, e: Path): (i: nat)
    requires e in dirs
    ensures i < |dirs| && dirs[i] == e
  {
    var i :| 0 <= i < |dirs| && dirs[i] == e;
    i
  }

  ghost function DigestAt(leaves: seq<Leaf>, dirs: seq<Path>, e: Path): Digest {
    if e in dirs then FlatDigest(leaves, dirs, PositionOf(dirs, e)) else Directory([])
  }

  lemma DigestAtIs(leaves: seq<Leaf>, dirs: seq<Path>, j: nat)
    requires DeepestFirst(dirs) && j < |dirs|
    ensures DigestAt(leaves, dirs, dirs[j]) == FlatDigest(leaves, dirs, j)
  {
    hide FlatDigest, Depth;
    assert dirs[j] in dirs;
    var i := PositionOf(dirs, dirs[j]);
    assert i == j;
  }

  ghost function Tagged(leaves: seq<Leaf>, dirs: seq<Path>, es: seq<Path>, n: Bytes): (r: seq<Child>)
    ensures |r| == |es| && forall i :: 0 <= i < |r| ==> r[i] == Child(n, DIRECTORY, DigestAt(leaves, dirs, es[i]))
  {
    seq(|es|, i requires 0 <= i < |es| => Child(n, DIRECTORY, DigestAt(leaves, dirs, es[i])))
  }

  lemma {:induction false} NamedDirectories(leaves: seq<Leaf>, dirs: seq<Path>, d: Path, i: nat, n: Bytes)
    requires DeepestFirst(dirs) && i <= |dirs|
    ensures Named(DirectoryChildren(leaves, dirs, d, i), n) == Tagged(leaves, dirs, DirectoriesAt(dirs[..i], d, n), n)
    decreases i
  {
    hide Parent, Name, FlatDigest, DigestAt, DeepestFirst;
    if i > 0 {
      var e, init := dirs[i - 1], dirs[..i - 1];
      NamedDirectories(leaves, dirs, d, i - 1, n);
      assert dirs[..i][..i - 1] == init;
      DigestAtIs(leaves, dirs, i - 1);
      var child := Child(Name(e), DIRECTORY, FlatDigest(leaves, dirs, i - 1));
      var more := if e != [] && Parent(e) == d then [child] else [];
      NamedJoins(DirectoryChildren(leaves, dirs, d, i - 1), more, n);
      assert [child][1..] == [];
      assert Named(more, n) == if e != [] && Parent(e) == d && Name(e) == n then [child] else [];
      assert Tagged(leaves, dirs, DirectoriesAt(dirs[..i], d, n), n) ==
             Tagged(leaves, dirs, DirectoriesAt(init, d, n), n) + Named(more, n);
    }
  }

  /** The same leaves of each place and name, in the same order. */
  ghost predicate LeavesAlike(a: seq<Leaf>, b: seq<Leaf>) {
    forall d, n :: LeavesAt(a, d, n) == LeavesAt(b, d, n)
  }

  lemma SameNamed(a: seq<Leaf>, dirsA: seq<Path>, b: seq<Leaf>, dirsB: seq<Path>, s: set<Path>, i: nat, j: nat,
                  n: Bytes)
    requires IsSchedule(dirsA, s) && IsSchedule(dirsB, s) && LeavesAlike(a, b)
    requires i < |dirsA| && j < |dirsB| && dirsA[i] == dirsB[j]
    requires forall k: nat :: k < i ==> DigestAt(a, dirsA, dirsA[k]) == DigestAt(b, dirsB, dirsA[k])
    ensures Named(LeafChildren(a, dirsA[i]) + DirectoryChildren(a, dirsA, dirsA[i], i), n) ==
            Named(LeafChildren(b, dirsB[j]) + DirectoryChildren(b, dirsB, dirsB[j], j), n)
  {
    hide Parent, Name, FlatDigest, DigestAt, DirectoriesAt, LeavesAt, LeafChildren, DirectoryChildren, Named, Depth;
    var d := dirsA[i];
    NamedJoins(LeafChildren(a, d), DirectoryChildren(a, dirsA, d, i), n);
    NamedJoins(LeafChildren(b, d), DirectoryChildren(b, dirsB, d, j), n);
    NamedLeaves(a, d, n);
    NamedLeaves(b, d, n);
    NamedDirectories(a, dirsA, d, i, n);
    NamedDirectories(b, dirsB, d, j, n);
    DirectoriesAtEarly(dirsA, i, n);
    DirectoriesAtEarly(dirsB, j, n);
    DirectoriesAtAgree(dirsA, dirsB, s, d, n);
    DirectoriesAtAre(dirsA[..i], d, n);
    var es := DirectoriesAt(dirsA[..i], d, n);
    forall k | 0 <= k < |es| ensures DigestAt(a, dirsA, es[k]) == DigestAt(b, dirsB, es[k]) {
      assert es[k] in dirsA[..i];
      var m: nat :| m < i && dirsA[..i][m] == es[k];
      assert dirsA[m] == es[k];
    }
    assert Tagged(a, dirsA, es, n) == Tagged(b, dirsB, es, n);
  }

  lemma {:induction false} SameDigests(a: seq<Leaf>, dirsA: seq<Path>, b: seq<Leaf>, dirsB: seq<Path>, s: set<Path>,
                                       i: nat)
    requires IsSchedule(dirsA, s) && IsSchedule(dirsB, s) && LeavesAlike(a, b) && i < |dirsA|
    ensures DigestAt(a, dirsA, dirsA[i]) == DigestAt(b, dirsB, dirsA[i])
    decreases i
  {
    hide DigestAt, LeafChildren, DirectoryChildren, Named, Depth, SortByName, LeavesAlike;
    forall k: nat | k < i ensures DigestAt(a, dirsA, dirsA[k]) == DigestAt(b, dirsB, dirsA[k]) {
      SameDigests(a, dirsA, b, dirsB, s, k);
    }
    assert dirsA[i] in dirsA && dirsA[i] in dirsB;
    var j: nat :| j < |dirsB| && dirsB[j] == dirsA[i];
    var cs := LeafChildren(a, dirsA[i]) + DirectoryChildren(a, dirsA, dirsA[i], i);
    var cs' := LeafChildren(b, dirsB[j]) + DirectoryChildren(b, dirsB, dirsB[j], j);
    forall n ensures Named(cs, n) == Named(cs', n) { SameNamed(a, dirsA, b, dirsB, s, i, j, n); }
    SortedAlike(cs, cs');
    DigestAtIs(a, dirsA, i);
    DigestAtIs(b, dirsB, j);
  }

  // The digest of all leaves.

  lemma {:induction false} Shallowest(s: set<Path>) returns (d: Path)
    requires s != {}
    ensures d in s && forall x :: x in s ==> Depth(d) <= Depth(x)
  {
    hide Depth;
    d :| d in s;
    assert s - {d} == {} ==> s == {d};
    if s - {d} != {} {
      var e := Shallowest(s - {d});
      assert forall x :: x in s ==> x == d || x in s - {d};
      if Depth(e) < Depth(d) { d := e; }
    }
  }

  lemma NextDirectory(init: seq<Path>, s: set<Path>, d: Path)
    requires IsSchedule(init, s - {d}) && d in s && forall x :: x in s ==> Depth(d) <= Depth(x)
    ensures IsSchedule(init + [d], s)
  {
    hide Depth;
    var dirs := init + [d];
    forall x ensures x in dirs <==> x in s {
      assert x in dirs <==> x in init || x == d;
    }
    forall i | 0 <= i < |init| ensures init[i] != d && Depth(init[i]) >= Depth(d) {
      assert init[i] in init;
    }
  }

  lemma {:induction false} OrderExists(s: set<Path>) returns (dirs: seq<Path>)
    ensures IsSchedule(dirs, s)
    decreases |s|
  {
    if s == {} {
      dirs := [];
    } else {
      hide Depth, IsSchedule;
      var d := Shallowest(s);
      var init := OrderExists(s - {d});
      NextDirectory(init, s, d);
      dirs := init + [d];
    }
  }

  lemma SomeOrder(s: set<Path>)
    ensures exists dirs :: IsSchedule(dirs, s)
  {
    hide IsSchedule;
    var dirs := OrderExists(s);
  }

  /** Some deepest-first order of the directories. */
  ghost function AnOrder(s: set<Path>): (dirs: seq<Path>)
    ensures IsSchedule(dirs, s)
  {
    SomeOrder(s);
    var dirs :| IsSchedule(dirs, s);
    dirs
  }

  /** The digest that the flat loop returns for these leaves. */
  ghost function RootOf(leaves: seq<Leaf>): Digest {
    DigestAt(leaves, AnOrder(DirectoriesOf(leaves)), [])
  }

  lemma RootLast(dirs: seq<Path>, s: set<Path>)
    requires IsSchedule(dirs, s) && [] in s
    ensures dirs != [] && dirs[|dirs| - 1] == []
  {
    assert [] in dirs;
    var k :| 0 <= k < |dirs| && dirs[k] == [];
    assert dirs[|dirs| - 1] in dirs;
    if k < |dirs| - 1 { assert Depth(dirs[k]) >= Depth(dirs[|dirs| - 1]); }
  }

  /** Every deepest-first order gives that digest. */
  lemma OrderIsIrrelevant(leaves: seq<Leaf>, dirs: seq<Path>)
    requires IsSchedule(dirs, DirectoriesOf(leaves))
    ensures dirs != [] && FlatDigest(leaves, dirs, |dirs| - 1) == RootOf(leaves)
  {
    hide FlatDigest, DigestAt, Depth, DirectoriesOf, IsSchedule;
    var s := DirectoriesOf(leaves);
    RootLast(dirs, s);
    SameDigests(leaves, dirs, leaves, AnOrder(s), s, |dirs| - 1);
    FirstOfSchedule(dirs, s);
    DigestAtIs(leaves, dirs, |dirs| - 1);
  }

  lemma FirstOfSchedule(dirs: seq<Path>, s: set<Path>)
    requires IsSchedule(dirs, s)
    ensures DeepestFirst(dirs)
  {
  }

  lemma AlikeMembers(a: seq<Leaf>, b: seq<Leaf>)
    requires LeavesAlike(a, b)
    ensures DirectoriesOf(a) == DirectoriesOf(b) && forall l :: l in a <==> l in b
  {
    hide LeavesAt, Parent, Name, Chain, DirectoriesOf;
    forall l ensures l in a <==> l in b {
      LeavesAtAre(a, Parent(l.path), Name(l.path));
      LeavesAtAre(b, Parent(l.path), Name(l.path));
      assert LeavesAt(a, Parent(l.path), Name(l.path)) == LeavesAt(b, Parent(l.path), Name(l.path));
    }
    DirectoriesByMember(a);
    DirectoriesByMember(b);
  }

  /** Leaves that agree in each place and name share the digest. */
  lemma AlikeSameRoot(a: seq<Leaf>, b: seq<Leaf>)
    requires LeavesAlike(a, b)
    ensures RootOf(a) == RootOf(b)
  {
    hide LeavesAlike, DigestAt, DirectoriesOf, IsSchedule;
    AlikeMembers(a, b);
    var s := DirectoriesOf(a);
    var dirs := AnOrder(s);
    RootLast(dirs, s);
    SameDigests(a, dirs, b, dirs, s, |dirs| - 1);
  }
}
