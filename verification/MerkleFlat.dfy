/** The inventory digest as the flat loop computes it, and the tree digest it amounts to. */
module MerkleFlat {
  import opened Merkle

  // What the loop computes, for any leaves.

  function LeafChildren(leaves: seq<Leaf>, d: Path): seq<Child> {
    if leaves == [] then []
    else
      var last := leaves[|leaves| - 1];
      LeafChildren(leaves[..|leaves| - 1], d) +
      if Parent(last.path) == d then [Child(Name(last.path), FILE, last.digest)] else []
  }

  /** The digests of the subdirectories of d among the first i directories, in their order. */
  function DirectoryChildren(leaves: seq<Leaf>, dirs: seq<Path>, d: Path, i: nat): seq<Child>
    requires i <= |dirs|
    decreases i, 0
  {
    if i == 0 then []
    else
      var e := dirs[i - 1];
      DirectoryChildren(leaves, dirs, d, i - 1) +
      if e != [] && Parent(e) == d then [Child(Name(e), DIRECTORY, FlatDigest(leaves, dirs, i - 1))] else []
  }

  function FlatDigest(leaves: seq<Leaf>, dirs: seq<Path>, k: nat): Digest
    requires k < |dirs|
    decreases k, 1
  {
    Directory(SortByName(LeafChildren(leaves, dirs[k]) + DirectoryChildren(leaves, dirs, dirs[k], k)))
  }

  ghost predicate DeepestFirst(dirs: seq<Path>) {
    && (forall i, j :: 0 <= i < j < |dirs| ==> Depth(dirs[i]) >= Depth(dirs[j]))
    && (forall i, j :: 0 <= i < j < |dirs| ==> dirs[i] != dirs[j])
  }

  ghost predicate IsSchedule(dirs: seq<Path>, s: set<Path>) {
    DeepestFirst(dirs) && forall d :: d in dirs <==> d in s
  }

  // The leaves as a set of files.

  function FilesOf(leaves: seq<Leaf>): map<Path, Digest> {
    if leaves == [] then map[]
    else FilesOf(leaves[..|leaves| - 1])[leaves[|leaves| - 1].path := leaves[|leaves| - 1].digest]
  }

  ghost predicate DistinctRelative(leaves: seq<Leaf>) {
    && (forall i :: 0 <= i < |leaves| ==> Relative(leaves[i].path))
    && (forall i, j :: 0 <= i < j < |leaves| ==> leaves[i].path != leaves[j].path)
  }

  ghost predicate IsFileChild(leaves: seq<Leaf>, d: Path, i: nat, x: Child) {
    && i < |leaves| && Parent(leaves[i].path) == d
    && x == Child(Name(leaves[i].path), FILE, leaves[i].digest)
  }

  lemma {:induction false} LeafChildrenAre(leaves: seq<Leaf>, d: Path)
    ensures forall x :: x in LeafChildren(leaves, d) ==> exists i: nat :: IsFileChild(leaves, d, i, x)
    ensures forall i: nat, x :: IsFileChild(leaves, d, i, x) ==> x in LeafChildren(leaves, d)
  {
    hide Parent, Name;
    if leaves != [] {
      var init, last := leaves[..|leaves| - 1], |leaves| - 1;
      LeafChildrenAre(init, d);
      forall x | x in LeafChildren(leaves, d) ensures exists i: nat :: IsFileChild(leaves, d, i, x) {
        if x in LeafChildren(init, d) {
          var i: nat :| IsFileChild(init, d, i, x);
          assert IsFileChild(leaves, d, i, x);
        } else {
          assert IsFileChild(leaves, d, last, x);
        }
      }
      forall i: nat, x | IsFileChild(leaves, d, i, x) ensures x in LeafChildren(leaves, d) {
        if i < last { assert IsFileChild(init, d, i, x); }
      }
    }
  }

  /** Relative paths in one directory differ in their names. */
  lemma SameParentSameName(p: Path, q: Path)
    requires Relative(p) && Relative(q) && Parent(p) == Parent(q) && Name(p) == Name(q)
    ensures p == q
  {
    ParentRelative(p);
    ParentRelative(q);
  }

  ghost predicate DistinctNames(cs: seq<Child>, kind: nat) {
    && (forall i :: 0 <= i < |cs| ==> cs[i].kind == kind)
    && forall i, j :: 0 <= i < j < |cs| ==> cs[i].name != cs[j].name
  }

  lemma AppendDistinct(cs: seq<Child>, kind: nat, c: Child)
    requires DistinctNames(cs, kind) && c.kind == kind && forall x :: x in cs ==> x.name != c.name
    ensures DistinctNames(cs + [c], kind)
  {
  }

  lemma {:induction false} LeafChildrenDistinct(leaves: seq<Leaf>, d: Path)
    requires DistinctRelative(leaves)
    ensures DistinctNames(LeafChildren(leaves, d), FILE)
  {
    hide Parent, Name, Relative;
    if leaves != [] {
      var init, last := leaves[..|leaves| - 1], leaves[|leaves| - 1];
      LeafChildrenDistinct(init, d);
      if Parent(last.path) == d {
        LeafChildrenAre(init, d);
        forall x | x in LeafChildren(init, d) ensures x.name != Name(last.path) {
          var i: nat :| IsFileChild(init, d, i, x);
          assert leaves[i].path != last.path && Relative(leaves[i].path) && Relative(leaves[|leaves| - 1].path);
          if x.name == Name(last.path) { SameParentSameName(leaves[i].path, last.path); }
        }
        AppendDistinct(LeafChildren(init, d), FILE, Child(Name(last.path), FILE, last.digest));
      }
    }
  }

  ghost predicate IsDirectoryChild(leaves: seq<Leaf>, dirs: seq<Path>, d: Path, i: nat, j: nat, x: Child)
    requires i <= |dirs|
  {
    j < i && dirs[j] != [] && Parent(dirs[j]) == d && x == Child(Name(dirs[j]), DIRECTORY, FlatDigest(leaves, dirs, j))
  }

  lemma {:induction false} DirectoryChildrenAre(leaves: seq<Leaf>, dirs: seq<Path>, d: Path, i: nat)
    requires i <= |dirs|
    ensures forall x :: x in DirectoryChildren(leaves, dirs, d, i) ==>
            exists j: nat :: IsDirectoryChild(leaves, dirs, d, i, j, x)
    ensures forall j: nat, x :: IsDirectoryChild(leaves, dirs, d, i, j, x) ==>
            x in DirectoryChildren(leaves, dirs, d, i)
  {
    hide Parent, Name, FlatDigest;
    if i > 0 {
      DirectoryChildrenAre(leaves, dirs, d, i - 1);
      forall x | x in DirectoryChildren(leaves, dirs, d, i)
        ensures exists j: nat :: IsDirectoryChild(leaves, dirs, d, i, j, x)
      {
        if x in DirectoryChildren(leaves, dirs, d, i - 1) {
          var j: nat :| IsDirectoryChild(leaves, dirs, d, i - 1, j, x);
          assert IsDirectoryChild(leaves, dirs, d, i, j, x);
        } else {
          assert IsDirectoryChild(leaves, dirs, d, i, i - 1, x);
        }
      }
      forall j: nat, x | IsDirectoryChild(leaves, dirs, d, i, j, x) ensures x in DirectoryChildren(leaves, dirs, d, i) {
        if j < i - 1 { assert IsDirectoryChild(leaves, dirs, d, i - 1, j, x); }
      }
    }
  }

  lemma {:induction false} DirectoryChildrenDistinct(leaves: seq<Leaf>, dirs: seq<Path>, d: Path, i: nat)
    requires i <= |dirs| && DeepestFirst(dirs) && forall j :: 0 <= j < |dirs| ==> Relative(dirs[j])
    ensures DistinctNames(DirectoryChildren(leaves, dirs, d, i), DIRECTORY)
  {
    hide Parent, Name, FlatDigest, Relative, Depth;
    if i > 0 {
      var e, cs := dirs[i - 1], DirectoryChildren(leaves, dirs, d, i - 1);
      DirectoryChildrenDistinct(leaves, dirs, d, i - 1);
      if e != [] && Parent(e) == d {
        DirectoryChildrenAre(leaves, dirs, d, i - 1);
        forall x | x in cs ensures x.name != Name(e) {
          var j: nat :| IsDirectoryChild(leaves, dirs, d, i - 1, j, x);
          if x.name == Name(e) { SameParentSameName(dirs[j], e); }
        }
        AppendDistinct(cs, DIRECTORY, Child(Name(e), DIRECTORY, FlatDigest(leaves, dirs, i - 1)));
      }
    }
  }

  lemma FilesThenDirectories(files: seq<Child>, dirs: seq<Child>)
    requires DistinctNames(files, FILE) && DistinctNames(dirs, DIRECTORY)
    ensures Orderly(files + dirs)
  {
  }

  // The directories are the same, told from the leaves or from the files.

  ghost predicate HasPath(leaves: seq<Leaf>, p: Path) {
    exists i :: 0 <= i < |leaves| && leaves[i].path == p
  }

  lemma HasPathNext(init: seq<Leaf>, last: Leaf, p: Path)
    ensures HasPath(init + [last], p) <==> HasPath(init, p) || last.path == p
  {
    var leaves := init + [last];
    if HasPath(init, p) {
      var i :| 0 <= i < |init| && init[i].path == p;
      assert leaves[i].path == p;
    }
    if last.path == p { assert leaves[|init|].path == p; }
  }

  lemma {:induction false} FilesOfPaths(leaves: seq<Leaf>)
    ensures forall p :: p in FilesOf(leaves) <==> HasPath(leaves, p)
  {
    if leaves != [] {
      hide HasPath;
      var init, last := leaves[..|leaves| - 1], leaves[|leaves| - 1];
      FilesOfPaths(init);
      assert leaves == init + [last];
      forall p ensures p in FilesOf(leaves) <==> HasPath(leaves, p) { HasPathNext(init, last, p); }
    }
  }

  lemma {:induction false} FileOfLeaf(leaves: seq<Leaf>, i: nat)
    requires DistinctRelative(leaves) && i < |leaves|
    ensures leaves[i].path in FilesOf(leaves) && FilesOf(leaves)[leaves[i].path] == leaves[i].digest
  {
    hide Relative;
    var init := leaves[..|leaves| - 1];
    if i < |init| {
      FileOfLeaf(init, i);
      assert init[i] == leaves[i] && leaves[i].path != leaves[|init|].path;
    }
  }

  lemma FilesOfAre(leaves: seq<Leaf>)
    requires DistinctRelative(leaves)
    ensures forall p :: p in FilesOf(leaves) <==> exists i :: 0 <= i < |leaves| && leaves[i].path == p
    ensures forall i :: 0 <= i < |leaves| ==> FilesOf(leaves)[leaves[i].path] == leaves[i].digest
  {
    hide FilesOf, DistinctRelative;
    FilesOfPaths(leaves);
    forall i | 0 <= i < |leaves|
      ensures leaves[i].path in FilesOf(leaves) && FilesOf(leaves)[leaves[i].path] == leaves[i].digest
    {
      FileOfLeaf(leaves, i);
    }
  }

  lemma {:induction false} DirectoriesAgree(leaves: seq<Leaf>)
    ensures DirectoriesOf(leaves) == DirectoriesIn(FilesOf(leaves).Keys)
  {
    hide Parent, Chain;
    if leaves != [] {
      var init, last := leaves[..|leaves| - 1], leaves[|leaves| - 1];
      DirectoriesAgree(init);
      assert FilesOf(leaves).Keys == FilesOf(init).Keys + {last.path};
    }
  }

  lemma {:induction false} ChainRelative(d: Path)
    requires Relative(d)
    ensures forall e :: e in Chain(d) ==> Relative(e)
    decreases |d|
  {
    if d != [] {
      ParentRelative(d);
      ChainRelative(Parent(d));
    }
  }

  lemma {:induction false} DirectoriesRelative(leaves: seq<Leaf>)
    requires DistinctRelative(leaves)
    ensures forall e :: e in DirectoriesOf(leaves) ==> Relative(e)
  {
    hide Parent, Chain;
    if leaves != [] {
      DirectoriesRelative(leaves[..|leaves| - 1]);
      assert Relative(leaves[|leaves| - 1].path);
      ParentRelative(leaves[|leaves| - 1].path);
      ChainRelative(Parent(leaves[|leaves| - 1].path));
    }
  }

  // The flat digest of every directory is its tree digest.

  /** All subdirectories of the k-th directory come before it. */
  lemma ChildrenComeFirst(dirs: seq<Path>, j: nat, k: nat)
    requires DeepestFirst(dirs) && j < |dirs| && k < |dirs| && dirs[j] != [] && Parent(dirs[j]) == dirs[k]
    ensures j < k
  {
    ParentIsHigher(dirs[j]);
  }

  ghost predicate Matches(leaves: seq<Leaf>, dirs: seq<Path>, n: nat, j: nat)
    requires j < |dirs| && forall p :: p in FilesOf(leaves) ==> |p| <= n
  {
    FlatDigest(leaves, dirs, j) == TreeDigest(FilesOf(leaves), n, dirs[j])
  }

  lemma SameChildren(leaves: seq<Leaf>, dirs: seq<Path>, n: nat, k: nat, x: Child)
    requires DistinctRelative(leaves) && IsSchedule(dirs, DirectoriesOf(leaves)) && k < |dirs|
    requires forall p :: p in FilesOf(leaves) ==> |p| <= n
    requires forall j :: 0 <= j < k ==> Matches(leaves, dirs, n, j)
    ensures x in LeafChildren(leaves, dirs[k]) + DirectoryChildren(leaves, dirs, dirs[k], k) <==>
            x in ChildrenOf(FilesOf(leaves), n, dirs[k])
  {
    hide Parent, Name, FlatDigest, Relative, Depth, TreeDigest, FilesOf, LeafChildren, DirectoryChildren,
         DirectoriesOf, DirectoriesIn;
    var files, d := FilesOf(leaves), dirs[k];
    FilesOfAre(leaves);
    LeafChildrenAre(leaves, d);
    DirectoryChildrenAre(leaves, dirs, d, k);
    DirectoriesAgree(leaves);
    if x in LeafChildren(leaves, d) {
      var i: nat :| IsFileChild(leaves, d, i, x);
      assert leaves[i].path in files;
    } else if x in DirectoryChildren(leaves, dirs, d, k) {
      var j: nat :| IsDirectoryChild(leaves, dirs, d, k, j, x);
      assert Matches(leaves, dirs, n, j);
      assert dirs[j] in dirs;
    }
    if x in ChildrenOf(files, n, d) {
      if p :| p in files && Parent(p) == d && x == Child(Name(p), FILE, files[p]) {
        var i :| 0 <= i < |leaves| && leaves[i].path == p;
        assert IsFileChild(leaves, d, i, x);
      } else {
        var e :| e in DirectoriesIn(files.Keys) && e != [] && Parent(e) == d && x.name == Name(e) && x.kind == DIRECTORY
                 && x.digest == TreeDigest(files, n, e);
        assert e in dirs;
        var j :| 0 <= j < |dirs| && dirs[j] == e;
        ChildrenComeFirst(dirs, j, k);
        assert Matches(leaves, dirs, n, j);
        assert IsDirectoryChild(leaves, dirs, d, k, j, x);
      }
    }
  }

  lemma {:induction false} FlatMatches(leaves: seq<Leaf>, dirs: seq<Path>, n: nat, k: nat)
    requires DistinctRelative(leaves) && IsSchedule(dirs, DirectoriesOf(leaves)) && k < |dirs|
    requires forall p :: p in FilesOf(leaves) ==> |p| <= n
    ensures Matches(leaves, dirs, n, k)
    decreases k
  {
    hide FilesOf, Relative, LeafChildren, DirectoryChildren, SortByName, ChildrenOf, Orderly, DirectoriesOf;
    forall j | 0 <= j < k ensures Matches(leaves, dirs, n, j) { FlatMatches(leaves, dirs, n, j); }
    var files, d := FilesOf(leaves), dirs[k];
    var children := LeafChildren(leaves, d) + DirectoryChildren(leaves, dirs, d, k);
    DirectoriesRelative(leaves);
    forall j | 0 <= j < |dirs| ensures Relative(dirs[j]) { assert dirs[j] in dirs; }
    LeafChildrenDistinct(leaves, d);
    DirectoryChildrenDistinct(leaves, dirs, d, k);
    FilesThenDirectories(LeafChildren(leaves, d), DirectoryChildren(leaves, dirs, d, k));
    SortByNameAscends(children);
    forall x ensures x in children <==> x in ChildrenOf(files, n, d) { SameChildren(leaves, dirs, n, k, x); }
    InOrderIs(SortByName(children), ChildrenOf(files, n, d));
  }

  /** For distinct relative paths, the flat loop gives the digest of the directory tree. */
  lemma FlatIsTree(leaves: seq<Leaf>, dirs: seq<Path>)
    requires DistinctRelative(leaves) && IsSchedule(dirs, DirectoriesOf(leaves)) && dirs != [] && dirs[|dirs| - 1] == []
    ensures FlatDigest(leaves, dirs, |dirs| - 1) == Root(FilesOf(leaves))
  {
    hide FlatDigest, TreeDigest, FilesOf;
    FlatMatches(leaves, dirs, Longest(FilesOf(leaves).Keys), |dirs| - 1);
  }
}
