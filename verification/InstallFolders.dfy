/** Pruning of empty folders after a sweep: the collected folders are removed one by one,
    longest path first, with a removal that only takes empty folders. */
module InstallFolders {
  import opened Components
  import opened PathTree

  /** Length of the native path below the application folder, with its separators. */
  function NativeSize(p: Path): nat { if p == [] then 0 else NativeSize(Parent(p)) + |p[|p| - 1]| + 1 }

  lemma {:induction false} JoinSnoc(ns: Path, n: string)
    requires ns != []
    ensures |Join(ns + [n], '/')| == |Join(ns, '/')| + 1 + |n|
  {
    if |ns| > 1 {
      assert (ns + [n])[1..] == ns[1..] + [n];
      JoinSnoc(ns[1..], n);
    } else {
      assert (ns + [n])[1..] == [n];
    }
  }

  /** It is the length of the path with a separator in front. */
  lemma {:induction false} NativeLength(p: Path)
    requires p != []
    ensures NativeSize(p) == |Join(p, '/')| + 1
  {
    if |p| > 1 {
      NativeLength(Parent(p));
      JoinSnoc(Parent(p), p[|p| - 1]);
      assert p == Parent(p) + [p[|p| - 1]];
    }
  }

  lemma {:induction false} LongerBelow(d: Path, p: Path)
    requires d < p
    ensures NativeSize(d) < NativeSize(p)
    decreases |p|
  {
    if d != Parent(p) {
      assert d < Parent(p);
      LongerBelow(d, Parent(p));
    }
  }

  ghost predicate LongestFirst(folders: seq<Path>) {
    forall i, j :: 0 <= i < j < |folders| ==> NativeSize(folders[i]) >= NativeSize(folders[j])
  }

  /** `std::sort` by decreasing size; how it orders equal sizes is left open. */
  ghost predicate SortsLongestFirst(sort: seq<Path> -> seq<Path>) {
    forall s :: LongestFirst(sort(s)) && multiset(sort(s)) == multiset(s)
  }

  /** `p` keeps folder `d` from going: a file below it, or a folder at or below it that
      cannot be removed. */
  predicate Blocks(files: set<Path>, dirs: set<Path>, refused: set<Path>, d: Path, p: Path) {
    (p in files && d < p) || (p in refused && p in dirs && d <= p)
  }

  ghost predicate Stays(files: set<Path>, dirs: set<Path>, refused: set<Path>, d: Path) {
    exists p :: Blocks(files, dirs, refused, d, p)
  }

  /** Only directories have something below them. */
  ghost predicate IsFolderTree(dirs: set<Path>, files: set<Path>) {
    IsTree(dirs + files) && dirs !! files && forall p :: p in dirs + files && |p| > 1 ==> Parent(p) in dirs
  }

  /** Of the folders in `done`, those that need not stay are gone. */
  ghost predicate PrunedTo(files: set<Path>, start: set<Path>, dirs: set<Path>, refused: set<Path>, done: seq<Path>) {
    forall d :: d in dirs <==> d in start && (d in done ==> Stays(files, start, refused, d))
  }

  class InstallFolder {
    var dirs: set<Path>
    /** Everything that is not a directory. */
    var files: set<Path>

    ghost predicate Valid()
      reads this
    {
      IsFolderTree(dirs, files)
    }

    /** `fs::remove` on a folder: it fails on one that is not empty, or in `refused`. */
    method Remove(folder: Path, refused: set<Path>)
      requires Valid() && folder in dirs
      modifies this`dirs
      ensures Valid()
      ensures dirs == if folder in refused || !Childless(old(dirs) + files, folder) then old(dirs)
                      else old(dirs) - {folder}
    {
      var entries := dirs + files;
      if folder !in refused && forall p :: p in entries && p != [] ==> Parent(p) != folder {
        dirs := dirs - {folder};
      }
    }

    method CollectFolders(visits: seq<Path>) returns (folders: seq<Path>)
      ensures forall p :: p in folders <==> p in visits && p in dirs
    {
      folders := [];
      for i := 0 to |visits|
        invariant forall p :: p in folders <==> p in visits[..i] && p in dirs
      {
        if visits[i] in dirs { folders := folders + [visits[i]]; }
      }
      assert visits[..|visits|] == visits;
    }

    /** Collects the directories that the iterator visits, sorts them and removes them.
        Afterwards exactly the folders that have to stay are left, whatever the order of
        visits and of folders of one size. */
    method RemoveEmptyInstallFolders(visits: seq<Path>, sort: seq<Path> -> seq<Path>, refused: set<Path>)
      requires Valid() && SortsLongestFirst(sort)
      requires forall p :: p in visits <==> p in dirs + files
      modifies this`dirs
      ensures Valid()
      ensures forall d :: d in dirs <==> d in old(dirs) && Stays(files, old(dirs), refused, d)
    {
      hide Stays, Childless, IsFolderTree, PrunedTo, LongestFirst;
      var collected := CollectFolders(visits);
      var folders := sort(collected);
      SameMembers(collected, folders);
      ghost var start := dirs;
      NothingPruned(files, start, refused);
      for i := 0 to |folders|
        invariant Valid() && PrunedTo(files, start, dirs, refused, folders[..i])
      {
        PruneStep(files, start, dirs, refused, folders, i);
        if folders[i] in dirs { Remove(folders[i], refused); }
      }
      assert folders[..|folders|] == folders;
      AllPruned(files, start, dirs, refused, folders);
    }
  }

  lemma NothingPruned(files: set<Path>, start: set<Path>, refused: set<Path>)
    ensures PrunedTo(files, start, start, refused, [])
  {
  }

  lemma AllPruned(files: set<Path>, start: set<Path>, dirs: set<Path>, refused: set<Path>, done: seq<Path>)
    requires PrunedTo(files, start, dirs, refused, done) && forall p :: p in start ==> p in done
    ensures forall d :: d in dirs <==> d in start && Stays(files, start, refused, d)
  {
    hide Stays;
  }

  /** Trying the next folder. */
  lemma PruneStep(files: set<Path>, start: set<Path>, dirs: set<Path>, refused: set<Path>, folders: seq<Path>, i: nat)
    requires i < |folders| && IsFolderTree(start, files) && PrunedTo(files, start, dirs, refused, folders[..i])
    requires LongestFirst(folders) && forall p :: p in start <==> p in folders
    ensures var d := folders[i];
      var next := if d !in dirs || d in refused || !Childless(dirs + files, d) then dirs else dirs - {d};
      PrunedTo(files, start, next, refused, folders[..i + 1])
  {
    hide Stays, Childless, LongestFirst;
    var d := folders[i];
    assert folders[..i + 1] == folders[..i] + [d];
    if d in dirs {
      if Stays(files, start, refused, d) {
        StayingHasChild(files, start, dirs, refused, d);
      } else {
        LeavingIsChildless(files, start, dirs, refused, folders, i);
      }
    }
  }

  lemma SameMembers(s: seq<Path>, t: seq<Path>)
    requires multiset(s) == multiset(t)
    ensures forall p :: p in s <==> p in t
  {
    forall p ensures p in s <==> p in t { assert p in multiset(s) <==> p in multiset(t); }
  }

  /** Whatever has something below it is a directory. */
  lemma AncestorIsFolder(files: set<Path>, start: set<Path>, c: Path, p: Path)
    requires IsTree(start + files) && forall p :: p in start + files && |p| > 1 ==> Parent(p) in start
    requires c != [] && c < p && p in start + files
    ensures c in start
  {
    var below := ChildToward(c, p);
    AncestorsIn(start + files, p, below);
    assert Parent(below) == c;
  }

  /** A folder that has to stay is refused or has a child that is still there. */
  lemma StayingHasChild(files: set<Path>, start: set<Path>, dirs: set<Path>, refused: set<Path>, d: Path)
    requires IsTree(start + files) && forall p :: p in start + files && |p| > 1 ==> Parent(p) in start
    requires forall c :: c in start && Stays(files, start, refused, c) ==> c in dirs
    requires Stays(files, start, refused, d)
    ensures d in refused || !Childless(dirs + files, d)
  {
    var p :| Blocks(files, start, refused, d, p);
    if d == p {
      assert d in refused;
    } else {
      var c := ChildToward(d, p);
      if c < p { AncestorIsFolder(files, start, c, p); } else { assert c == p; }
      if c < p || p !in files {
        assert Blocks(files, start, refused, c, p);
      }
      assert c in dirs + files && Parent(c) == d;
    }
  }

  lemma StaysAbove(files: set<Path>, start: set<Path>, refused: set<Path>, d: Path, p: Path)
    requires d <= p && !Stays(files, start, refused, d)
    ensures !Stays(files, start, refused, p) && (d < p ==> p !in files)
  {
    assert !Blocks(files, start, refused, d, p);
    forall b ensures !Blocks(files, start, refused, p, b) {
      assert !Blocks(files, start, refused, d, b);
    }
  }

  /** A folder that need not stay has lost all its children by the time it is visited:
      they have longer paths. */
  lemma LeavingIsChildless(files: set<Path>, start: set<Path>, dirs: set<Path>, refused: set<Path>,
                           folders: seq<Path>, i: nat)
    requires i < |folders| && LongestFirst(folders) && forall p :: p in start <==> p in folders
    requires forall d :: d in dirs <==> d in start && (d in folders[..i] ==> Stays(files, start, refused, d))
    requires folders[i] in start && !Stays(files, start, refused, folders[i])
    ensures folders[i] !in refused && Childless(dirs + files, folders[i])
  {
    var d := folders[i];
    assert !Blocks(files, start, refused, d, d);
    forall p | d < p ensures p !in dirs + files {
      StaysAbove(files, start, refused, d, p);
      LongerBelow(d, p);
      if p in start {
        var k :| 0 <= k < |folders| && folders[k] == p;
        assert k < i ==> folders[..i][k] == p;
      }
    }
    forall p | p != [] && Parent(p) == d ensures d < p {}
  }
}
