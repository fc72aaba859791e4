/** The flat, deepest-first computation of the inventory digest, and what it amounts to. */
module MerkleLoop {
  import opened Bytes
  import opened Merkle
  import opened MerkleFlat
  import opened MerkleOrder

  // The loops.

  function Got(directories: map<Path, seq<Child>>, d: Path): seq<Child> {
    if d in directories then directories[d] else []
  }

  /** Insert a directory and its ancestors, stopping at the first one already known. */
  method AddAncestors(known: set<Path>, d: Path) returns (all: set<Path>)
    requires ClosedUp(known)
    ensures all == known + Chain(d) && ClosedUp(all)
  {
    all := known;
    var ancestor := d;
    while ancestor !in all
      invariant known <= all && all + Chain(ancestor) == known + Chain(d)
      invariant forall x :: x in all && x !in known ==> |x| > |ancestor|
      decreases |ancestor|
    {
      all := all + {ancestor};
      ancestor := Parent(ancestor);
    }
    ChainInside(ancestor, known);
    ChainClosed(d);
  }

  method GroupLeaves(leaves: seq<Leaf>) returns (directories: map<Path, seq<Child>>, paths: set<Path>)
    ensures paths == DirectoriesOf(leaves)
    ensures forall d :: Got(directories, d) == LeafChildren(leaves, d)
  {
    directories, paths := map[], {[]};
    NoLeafYet(leaves);
    hide Parent, Name, Chain, LeafChildren, DirectoriesOf, ClosedUp;
    for i := 0 to |leaves|
      invariant paths == DirectoriesOf(leaves[..i]) && ClosedUp(paths)
      invariant forall d :: Got(directories, d) == LeafChildren(leaves[..i], d)
    {
      var parent := Parent(leaves[i].path);
      var child := Child(Name(leaves[i].path), FILE, leaves[i].digest);
      paths := AddAncestors(paths, parent);
      var next := directories[parent := Got(directories, parent) + [child]];
      forall d ensures Got(next, d) == LeafChildren(leaves[..i + 1], d) { NextLeafChild(leaves, i, d); }
      NextDirectories(leaves, i);
      directories := next;
    }
    assert leaves[..|leaves|] == leaves;
  }

  lemma NoLeafYet(leaves: seq<Leaf>)
    ensures DirectoriesOf(leaves[..0]) == {[]} && ClosedUp({[]}) && forall d :: LeafChildren(leaves[..0], d) == []
  {
    assert leaves[..0] == [];
  }

  lemma NextLeafChild(leaves: seq<Leaf>, i: nat, d: Path)
    requires i < |leaves|
    ensures LeafChildren(leaves[..i + 1], d) ==
            if Parent(leaves[i].path) == d then LeafChildren(leaves[..i], d)
               + [Child(Name(leaves[i].path), FILE, leaves[i].digest)]
            else LeafChildren(leaves[..i], d)
  {
    hide Parent, Name;
    assert leaves[..i + 1][..i] == leaves[..i];
    assert LeafChildren(leaves[..i], d) + [] == LeafChildren(leaves[..i], d);
  }

  lemma NextDirectories(leaves: seq<Leaf>, i: nat)
    requires i < |leaves|
    ensures DirectoriesOf(leaves[..i + 1]) == DirectoriesOf(leaves[..i]) + Chain(Parent(leaves[i].path))
  {
    hide Parent, Chain;
    assert leaves[..i + 1][..i] == leaves[..i];
  }

  /** The directories from the deepest up. */
  method SortByDepth(paths: set<Path>) returns (dirs: seq<Path>)
    ensures IsSchedule(dirs, paths)
  {
    dirs := [];
    var rest := paths;
    while rest != {}
      invariant rest <= paths && IsSchedule(dirs, paths - rest)
      decreases rest
    {
      var d :| d in rest;
      dirs := InsertByDepth(dirs, d);
      rest := rest - {d};
    }
  }

  method InsertByDepth(dirs: seq<Path>, d: Path) returns (r: seq<Path>)
    requires DeepestFirst(dirs) && d !in dirs
    ensures DeepestFirst(r) && forall x :: x in r <==> x == d || x in dirs
  {
    hide Depth, DeepestFirst;
    var i := 0;
    while i < |dirs| && Depth(dirs[i]) > Depth(d)
      invariant 0 <= i <= |dirs| && forall k :: 0 <= k < i ==> Depth(dirs[k]) > Depth(d)
    {
      i := i + 1;
    }
    r := dirs[..i] + [d] + dirs[i..];
    InsertedAt(dirs, d, i, r);
  }

  lemma InsertedAt(dirs: seq<Path>, d: Path, i: nat, r: seq<Path>)
    requires DeepestFirst(dirs) && d !in dirs && i <= |dirs| && r == dirs[..i] + [d] + dirs[i..]
    requires forall k :: 0 <= k < i ==> Depth(dirs[k]) > Depth(d)
    requires i < |dirs| ==> Depth(dirs[i]) <= Depth(d)
    ensures DeepestFirst(r) && forall x :: x in r <==> x == d || x in dirs
  {
    hide Depth;
    assert forall k :: 0 <= k < |r| ==> r[k] == if k < i then dirs[k] else if k == i then d else dirs[k - 1];
    forall k | i <= k < |dirs| ensures Depth(dirs[k]) <= Depth(d) {}
    forall x ensures x in r <==> x == d || x in dirs {
      if x in dirs {
        var k :| 0 <= k < |dirs| && dirs[k] == x;
        assert r[if k < i then k else k + 1] == x;
      }
      if x == d { assert r[i] == x; }
    }
  }

  /** Digest the directories in turn, handing each digest up to its parent. */
  method DigestUpwards(leaves: seq<Leaf>, grouped: map<Path, seq<Child>>, order: seq<Path>) returns (root: Digest)
    requires DeepestFirst(order) && order != [] && order[|order| - 1] == []
    requires forall d :: Got(grouped, d) == LeafChildren(leaves, d)
    ensures root == FlatDigest(leaves, order, |order| - 1)
  {
    hide SortByName, LeafChildren, Parent, Name, FlatDigest, DirectoryChildren, Pending, Depth;
    var directories := grouped;
    var k := 0;
    forall j | 0 <= j < |order| ensures Pending(leaves, order, j, 0, Got(directories, order[j])) {
      PendingStart(leaves, order, j);
    }
    while order[k] != []
      invariant 0 <= k < |order|
      invariant forall j :: k <= j < |order| ==> Pending(leaves, order, j, k, Got(directories, order[j]))
      decreases |order| - k
    {
      var path := order[k];
      PendingDigest(leaves, order, k, Got(directories, path));
      var digest := Directory(SortByName(Got(directories, path)));
      var parent := Parent(path);
      var others := directories - {path};
      var siblings := Got(others, parent) + [Child(Name(path), DIRECTORY, digest)];
      forall j | k < j < |order|
        ensures Pending(leaves, order, j, k + 1, Got(others[parent := siblings], order[j]))
      {
        assert order[j] != path;
        assert Pending(leaves, order, j, k, Got(directories, order[j]));
        HandedUp(leaves, order, j, k, Got(others, order[j]), digest);
      }
      directories := others[parent := siblings];
      k := k + 1;
    }
    PendingDigest(leaves, order, k, Got(directories, order[k]));
    root := Directory(SortByName(Got(directories, order[k])));
  }

  /** The children of the j-th directory once the first k directories are done. */
  ghost predicate Pending(leaves: seq<Leaf>, order: seq<Path>, j: nat, k: nat, children: seq<Child>)
    requires j < |order| && k <= |order|
  {
    children == LeafChildren(leaves, order[j]) + DirectoryChildren(leaves, order, order[j], k)
  }

  lemma PendingStart(leaves: seq<Leaf>, order: seq<Path>, j: nat)
    requires j < |order|
    ensures Pending(leaves, order, j, 0, LeafChildren(leaves, order[j]))
  {
    hide LeafChildren;
    assert LeafChildren(leaves, order[j]) + [] == LeafChildren(leaves, order[j]);
  }

  lemma PendingDigest(leaves: seq<Leaf>, order: seq<Path>, k: nat, children: seq<Child>)
    requires k < |order| && Pending(leaves, order, k, k, children)
    ensures Directory(SortByName(children)) == FlatDigest(leaves, order, k)
  {
    hide LeafChildren, SortByName, DirectoryChildren;
  }

  lemma HandedUp(leaves: seq<Leaf>, order: seq<Path>, j: nat, k: nat, children: seq<Child>, digest: Digest)
    requires k < j < |order| && order[k] != [] && Pending(leaves, order, j, k, children)
    requires digest == FlatDigest(leaves, order, k)
    ensures Pending(leaves, order, j, k + 1,
                    if Parent(order[k]) == order[j] then children + [Child(Name(order[k]), DIRECTORY, digest)]
                       else children)
  {
    hide LeafChildren, FlatDigest, Parent, Name;
    var mine := LeafChildren(leaves, order[j]);
    var done := DirectoryChildren(leaves, order, order[j], k);
    var child := Child(Name(order[k]), DIRECTORY, digest);
    assert mine + (done + [child]) == mine + done + [child];
    assert mine + (done + []) == mine + done;
  }

  /** The loop returns the one digest of the leaves, which for distinct relative paths is that of the directory tree. */
  method MerkleFromLeaves(leaves: seq<Leaf>) returns (root: Digest)
    ensures root == RootOf(leaves)
    ensures DistinctRelative(leaves) ==> root == Root(FilesOf(leaves))
  {
    hide FlatDigest, Root, DistinctRelative, Got, RootOf;
    var directories, paths := GroupLeaves(leaves);
    var order := SortByDepth(paths);
    RootLast(order, paths);
    root := DigestUpwards(leaves, directories, order);
    OrderIsIrrelevant(leaves, order);
    if DistinctRelative(leaves) { FlatIsTree(leaves, order); }
  }
}
