/** The Merkle inventory: paths, directory children, and the recursive directory-tree digest. */
module Merkle {
  import opened Bytes

  type Path = Bytes

  const FILE: nat := 1
  const DIRECTORY: nat := 2

  /** Digests of a collision-free hash: what was hashed can be read off. */
  datatype Digest =
    | Directory(children: seq<Child>)
    | File(path: Path, content: Bytes, length: nat, kind: nat, classification: nat, inclusion: nat)

  datatype Child = Child(name: Bytes, kind: nat, digest: Digest)

  datatype Leaf = Leaf(path: Path, digest: Digest)

  // Paths.

  function LastSlash(p: Path): (i: int)
    ensures -1 <= i < |p| && (i >= 0 ==> p[i] == SLASH) && forall k :: i < k < |p| ==> p[k] != SLASH
  {
    if p == [] then -1
    else if p[|p| - 1] == SLASH then |p| - 1
    else LastSlash(p[..|p| - 1])
  }

  function Parent(p: Path): (d: Path)
    ensures p != [] ==> |d| < |p|
  {
    if LastSlash(p) < 0 then [] else p[..LastSlash(p)]
  }

  function Name(p: Path): Bytes {
    p[LastSlash(p) + 1..]
  }

  function Extend(d: Path, name: Bytes): Path {
    if d == [] then name else d + [SLASH] + name
  }

  predicate Relative(p: Path) {
    p != [] ==> p[0] != SLASH
  }

  function Slashes(p: Path): nat {
    if p == [] then 0 else Slashes(p[..|p| - 1]) + if p[|p| - 1] == SLASH then 1 else 0
  }

  function Depth(p: Path): nat {
    if p == [] then 0 else Slashes(p) + 1
  }

  lemma {:induction false} SlashesBeforeLast(p: Path)
    requires LastSlash(p) >= 0
    ensures Slashes(p) == Slashes(p[..LastSlash(p)]) + 1
  {
    if p[|p| - 1] != SLASH {
      var q := p[..|p| - 1];
      SlashesBeforeLast(q);
      assert p[..LastSlash(p)] == q[..LastSlash(q)];
    }
  }

  lemma ParentIsHigher(p: Path)
    requires p != []
    ensures Depth(Parent(p)) < Depth(p)
  {
    if LastSlash(p) >= 0 { SlashesBeforeLast(p); }
  }

  lemma ParentRelative(p: Path)
    requires Relative(p)
    ensures Relative(Parent(p)) && Extend(Parent(p), Name(p)) == p
  {
    var i := LastSlash(p);
    if i >= 0 { assert p == p[..i] + [SLASH] + p[i + 1..]; }
  }

  // Directories.

  /** A directory and all its ancestors. */
  function Chain(d: Path): (s: set<Path>)
    ensures d in s && [] in s
    decreases |d|
  {
    if d == [] then {[]} else {d} + Chain(Parent(d))
  }

  /** Every directory on the way to some leaf. */
  function DirectoriesOf(leaves: seq<Leaf>): (s: set<Path>)
    ensures [] in s
  {
    if leaves == [] then {[]}
    else DirectoriesOf(leaves[..|leaves| - 1]) + Chain(Parent(leaves[|leaves| - 1].path))
  }

  predicate ClosedUp(s: set<Path>) {
    [] in s && forall d :: d in s ==> Parent(d) in s
  }

  lemma {:induction false} ChainClosed(d: Path)
    ensures ClosedUp(Chain(d))
    decreases |d|
  {
    if d != [] { ChainClosed(Parent(d)); }
  }

  lemma {:induction false} ChainInside(d: Path, s: set<Path>)
    requires ClosedUp(s) && d in s
    ensures Chain(d) <= s
    decreases |d|
  {
    if d != [] { ChainInside(Parent(d), s); }
  }

  lemma {:induction false} DirectoriesClosed(leaves: seq<Leaf>)
    ensures ClosedUp(DirectoriesOf(leaves))
  {
    if leaves != [] {
      DirectoriesClosed(leaves[..|leaves| - 1]);
      ChainClosed(Parent(leaves[|leaves| - 1].path));
    }
  }

  // Sorting children.

  predicate Before(a: Child, b: Child) {
    Less(a.name, b.name) || (a.name == b.name && a.kind < b.kind)
  }

  ghost predicate Ascending(cs: seq<Child>) {
    forall i, j :: 0 <= i < j < |cs| ==> Before(cs[i], cs[j])
  }

  function InsertByName(c: Child, cs: seq<Child>): seq<Child> {
    if cs == [] then [c]
    else if Less(cs[0].name, c.name) then [cs[0]] + InsertByName(c, cs[1..])
    else [c] + cs
  }

  /** Stable sort by name. */
  function SortByName(cs: seq<Child>): seq<Child> {
    if cs == [] then [] else InsertByName(cs[0], SortByName(cs[1..]))
  }

  /** No two children share name and kind, and of two with one name the file comes first. */
  ghost predicate Orderly(cs: seq<Child>) {
    forall i, j :: 0 <= i < j < |cs| ==> cs[i].name != cs[j].name || cs[i].kind < cs[j].kind
  }

  lemma BeforeTransitive(a: Child, b: Child, c: Child)
    requires Before(a, b) && Before(b, c)
    ensures Before(a, c)
  {
    if Less(a.name, b.name) && Less(b.name, c.name) { LessTransitive(a.name, b.name, c.name); }
  }

  lemma BeforeIrreflexive(a: Child)
    ensures !Before(a, a)
  {
    LessIrreflexive(a.name);
  }

  lemma {:induction false} InsertByNameAscends(c: Child, cs: seq<Child>)
    requires Ascending(cs) && forall x :: x in cs ==> c.name != x.name || c.kind < x.kind
    ensures Ascending(InsertByName(c, cs))
    ensures forall x :: x in InsertByName(c, cs) <==> x == c || x in cs
    decreases |cs|
  {
    hide Less;
    if cs != [] {
      var rest := cs[1..];
      assert cs[0] in cs && forall x :: x in cs <==> x == cs[0] || x in rest;
      if Less(cs[0].name, c.name) {
        InsertByNameAscends(c, rest);
        var r := InsertByName(c, rest);
        forall x | x in r ensures Before(cs[0], x) {
          if x != c { var k :| 0 <= k < |rest| && rest[k] == x; assert cs[k + 1] == x; }
        }
      } else {
        LessTotal(cs[0].name, c.name);
        assert Before(c, cs[0]);
        forall k | 0 <= k < |cs| ensures Before(c, cs[k]) {
          if k > 0 { BeforeTransitive(c, cs[0], cs[k]); }
        }
      }
    }
  }

  lemma {:induction false} SortByNameAscends(cs: seq<Child>)
    requires Orderly(cs)
    ensures Ascending(SortByName(cs)) && forall x :: x in SortByName(cs) <==> x in cs
    decreases |cs|
  {
    if cs != [] {
      SortByNameAscends(cs[1..]);
      forall x | x in SortByName(cs[1..]) ensures cs[0].name != x.name || cs[0].kind < x.kind {
        var k :| 0 <= k < |cs[1..]| && cs[1..][k] == x;
        assert cs[k + 1] == x;
      }
      InsertByNameAscends(cs[0], SortByName(cs[1..]));
    }
  }

  lemma {:induction false} AscendingIsUnique(a: seq<Child>, b: seq<Child>)
    requires Ascending(a) && Ascending(b) && forall x :: x in a <==> x in b
    ensures a == b
    decreases |a|
  {
    hide Before;
    assert b != [] ==> b[0] in b;
    if a != [] {
      assert a[0] in b;
      var k :| 0 <= k < |b| && b[k] == a[0];
      assert b[0] in a;
      var m :| 0 <= m < |a| && a[m] == b[0];
      if k > 0 && m > 0 {
        BeforeTransitive(a[0], b[0], a[0]);
        BeforeIrreflexive(a[0]);
      }
      assert a[0] == b[0];
      BeforeIrreflexive(a[0]);
      forall x ensures x in a[1..] <==> x in b[1..] {
        assert x in a <==> x == a[0] || x in a[1..];
        assert x in b <==> x == b[0] || x in b[1..];
        if x in a[1..] { var i :| 0 <= i < |a[1..]| && a[1..][i] == x; assert Before(a[0], a[i + 1]); }
        if x in b[1..] { var i :| 0 <= i < |b[1..]| && b[1..][i] == x; assert Before(b[0], b[i + 1]); }
      }
      AscendingIsUnique(a[1..], b[1..]);
      assert a == [a[0]] + a[1..] && b == [b[0]] + b[1..];
    }
  }

  /** The one ascending listing of a set of children, if there is one. */
  ghost function InOrder(s: set<Child>): seq<Child> {
    if exists cs :: Lists(cs, s) then var cs :| Lists(cs, s); cs else []
  }

  ghost predicate Lists(cs: seq<Child>, s: set<Child>) {
    Ascending(cs) && forall x :: x in cs <==> x in s
  }

  lemma InOrderIs(cs: seq<Child>, s: set<Child>)
    requires Lists(cs, s)
    ensures InOrder(s) == cs
  {
    AscendingIsUnique(cs, InOrder(s));
  }

  // The recursive digest of a directory tree.

  ghost function Longest(paths: set<Path>): (n: nat)
    ensures forall p :: p in paths ==> |p| <= n
  {
    if paths == {} then 0
    else
      var p :| p in paths;
      var rest := Longest(paths - {p});
      if |p| > rest then |p| else rest
  }

  ghost function DirectoriesIn(paths: set<Path>): (s: set<Path>)
  {
    {[]} + set p, d | p in paths && d in Chain(Parent(p)) :: d
  }

  lemma {:induction false} ChainShorter(d: Path, e: Path)
    requires e in Chain(d)
    ensures |e| <= |d|
    decreases |d|
  {
    if e != d { ChainShorter(Parent(d), e); }
  }

  lemma DirectoriesShorter(paths: set<Path>, n: nat, e: Path)
    requires (forall p :: p in paths ==> |p| <= n) && e in DirectoriesIn(paths)
    ensures |e| <= n
  {
    if e != [] {
      var p :| p in paths && e in Chain(Parent(p));
      ChainShorter(Parent(p), e);
    }
  }

  /** What a directory holds: its files, and its subdirectories with their digests. */
  ghost function ChildrenOf(files: map<Path, Digest>, n: nat, d: Path): set<Child>
    requires forall p :: p in files ==> |p| <= n
    decreases n - |d|, 0
  {
    (set p | p in files && Parent(p) == d :: Child(Name(p), FILE, files[p])) +
    (set e | e in DirectoriesIn(files.Keys) && e != [] && Parent(e) == d ::
       Child(Name(e), DIRECTORY, (DirectoriesShorter(files.Keys, n, e); TreeDigest(files, n, e))))
  }

  ghost function TreeDigest(files: map<Path, Digest>, n: nat, d: Path): Digest
    requires forall p :: p in files ==> |p| <= n
    decreases n - |d|, 1
  {
    Directory(InOrder(ChildrenOf(files, n, d)))
  }

  ghost function Root(files: map<Path, Digest>): Digest {
    TreeDigest(files, Longest(files.Keys), [])
  }
}
