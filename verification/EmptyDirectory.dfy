/** The POSIX directory emptier: a recursion over a changing file system that extends and
    truncates one shared name string, and repeats a pass while the last one removed
    something. */
module EmptyDirectory {
  import opened Components
  import opened PathTree

  /** `lstat`: links are not followed. */
  datatype Kind = File | Link | Directory(device: int)

  /** The entry that a name string stands for. */
  function PathOf(name: string): Path { Split(name, '/') }

  lemma PathOfChild(name: string, entry: string)
    requires IsName(entry, '/')
    ensures PathOf(name + "/" + entry) == PathOf(name) + [entry]
  {
    SplitAppend(name, entry, '/');
    SplitName(entry, '/');
  }

  function Below(entries: set<Path>, r: Path): set<Path> { set p | p in entries && r < p }

  lemma BelowShrinks(entries: set<Path>, r: Path, c: Path)
    requires c in entries && r < c
    ensures Below(entries, c) < Below(entries, r)
  {
    assert c in Below(entries, r) && c !in Below(entries, c);
  }

  class FileSystem {
    var entries: set<Path>
    /** The string that all levels of the recursion share. */
    var name: string
    const kind: Path -> Kind
    /** Entries whose `unlink` or `rmdir` is refused. */
    const refused: set<Path>
    /** Directories that `opendir` cannot open. */
    const unreadable: set<Path>

    ghost predicate Valid()
      reads this`entries
    {
      && IsTree(entries)
      && (forall p, i :: p in entries && 0 <= i < |p| ==> IsName(p[i], '/'))
      && (forall p :: p in entries && |p| > 1 ==> kind(Parent(p)).Directory?)
    }

    predicate IsForeign(base: int, p: Path) { kind(p).Directory? && kind(p).device != base }

    /** Why `b` below `r` cannot go: it is refused, it is on another device or below a
        directory that is, or a directory above it cannot be read. */
    predicate Blocker(r: Path, base: int, b: Path) {
      r < b &&
      (b in refused
       || (exists k :: |r| < k <= |b| && IsForeign(base, b[..k]))
       || (exists k :: |r| <= k < |b| && b[..k] in unreadable))
    }

    /** `q` is a blocker or above one. */
    ghost predicate Kept(es: set<Path>, r: Path, base: int, q: Path) {
      exists b :: b in es && Blocker(r, base, b) && q <= b
    }

    /** What emptying `r` leaves of `es`. */
    ghost predicate Emptied(es: set<Path>, r: Path, base: int, after: set<Path>) {
      forall q :: q in after <==> q in es && (r < q ==> Kept(es, r, base, q))
    }

    // ----- Calls to the operating system -----

    method RemoveDirectory(p: Path) returns (ok: bool)
      requires Valid() && p in entries
      modifies this`entries
      ensures Valid()
      ensures ok <==> p !in refused && Below(old(entries), p) == {}
      ensures entries == if ok then old(entries) - {p} else old(entries)
    {
      ok := p !in refused && forall q :: q in entries && q != [] ==> Parent(q) != p;
      ChildlessMeansNothingBelow(entries, p);
      assert Below(entries, p) == {} <==> forall q :: q in entries ==> q !in Below(entries, p);
      if ok { entries := entries - {p}; }
    }

    method Unlink(p: Path) returns (ok: bool)
      requires Valid() && p in entries
      modifies this`entries
      ensures Valid()
      ensures ok <==> p !in refused && !kind(p).Directory?
      ensures entries == if ok then old(entries) - {p} else old(entries)
    {
      ok := p !in refused && !kind(p).Directory?;
      if ok {
        NothingBelowLeaf(entries, p);
        ChildlessMeansNothingBelow(entries, p);
        entries := entries - {p};
      }
    }

    lemma NothingBelowLeaf(es: set<Path>, p: Path)
      requires IsTree(es) && (forall q :: q in es && |q| > 1 ==> kind(Parent(q)).Directory?)
      requires p in es && !kind(p).Directory?
      ensures Childless(es, p) && Below(es, p) == {}
    {
      ChildlessMeansNothingBelow(es, p);
    }

    // ----- The emptier -----

    /** Removes what is below the named directory and returns with the name restored. With
        `basedev` 0 it first looks the directory up; anything but a directory is left
        alone. */
    method EmptyDirLocal(basedev: int)
      requires Valid()
      requires basedev != 0 ==> PathOf(name) in entries && kind(PathOf(name)).Directory?
      modifies this`entries, this`name
      ensures Valid() && name == old(name)
      ensures var r := PathOf(name);
        if r in old(entries) && kind(r).Directory?
        then Emptied(old(entries), r, if basedev == 0 then kind(r).device else basedev, entries)
        else entries == old(entries)
      decreases Below(entries, PathOf(name)), 2
    {
      var base := basedev;
      var r := PathOf(name);
      if base == 0 {
        if r !in entries || !kind(r).Directory? { return; }
        base := kind(r).device;
      }
      if r in unreadable {
        UnreadableKeepsAll(entries, r, base);
        return;
      }
      ghost var start := entries;
      ghost var settled: set<Path> := {};
      SettledAtFirst(start, r, base);
      while true
        invariant Valid() && name == old(name)
        invariant Progress(start, r, base, settled, entries)
        decreases entries
      {
        ghost var before := entries;
        var removed: bool;
        removed, settled := Pass(base, start, settled);
        if !removed { break; }
      }
      SettledAtLast(start, r, base, settled, entries);
    }

    /** Of the children of `r`, those in `settled` and what is below them look as they will
        in the end; what has to stay is still there; nothing outside changes. */
    ghost predicate Progress(start: set<Path>, r: Path, base: int, settled: set<Path>, now: set<Path>) {
      && now <= start
      && (forall q :: q in start && (!(r < q) || Kept(start, r, base, q)) ==> q in now)
      && (forall q :: q in now && r < q && ChildToward(r, q) in settled ==> Kept(start, r, base, q))
    }

    /** One pass of `readdir` over the children, in any order. */
    method Pass(base: int, ghost start: set<Path>, ghost settled: set<Path>)
      returns (removed: bool, ghost settledNow: set<Path>)
      requires Valid() && IsTree(start)
      requires var r := PathOf(name); r !in unreadable && Progress(start, r, base, settled, entries)
      modifies this`entries, this`name
      ensures Valid() && name == old(name) && entries <= old(entries)
      ensures removed ==> entries < old(entries)
      ensures Progress(start, PathOf(name), base, settledNow, entries)
      ensures AllIn(entries, PathOf(name), settledNow)
      decreases Below(entries, PathOf(name)), 1
    {
      hide Progress, AllIn, PathOf;
      var r := PathOf(name);
      removed, settledNow := false, settled;
      var todo := set p | p in entries && p != [] && Parent(p) == r;
      ghost var children := todo;
      ChildrenIn(entries, r, children);
      while todo != {}
        invariant Valid() && name == old(name) && entries <= old(entries)
        invariant removed ==> entries < old(entries)
        invariant Progress(start, r, base, settledNow, entries)
        invariant todo <= children && children <= settledNow + todo
        decreases todo
      {
        var c :| c in todo;
        assert c in old(entries) && c[|c| - 1] == c[|c| - 1];
        var gone := RemoveChild(base, start, settledNow, c);
        removed := removed || gone;
        settledNow := settledNow + {c};
        todo := todo - {c};
      }
      AllInShrinks(old(entries), entries, r, children, settledNow);
    }

    /** Everything below `r` is at or below a member of `children`. */
    ghost predicate AllIn(es: set<Path>, r: Path, children: set<Path>) {
      forall p :: p in es && r < p ==> ChildToward(r, p) in children
    }

    lemma ChildrenIn(es: set<Path>, r: Path, children: set<Path>)
      requires IsTree(es) && forall c :: c in es && c != [] && Parent(c) == r ==> c in children
      ensures AllIn(es, r, children)
    {
      forall p | p in es && r < p ensures ChildToward(r, p) in children {
        AncestorsIn(es, p, ChildToward(r, p));
      }
    }

    lemma AllInShrinks(es: set<Path>, now: set<Path>, r: Path, children: set<Path>, settled: set<Path>)
      requires AllIn(es, r, children) && now <= es && children <= settled
      ensures AllIn(now, r, settled)
    {
    }

    /** The body of the loop for the child `c`; says whether it was removed here. */
    method RemoveChild(base: int, ghost start: set<Path>, ghost settled: set<Path>, c: Path) returns (removed: bool)
      requires Valid() && IsTree(start)
      requires var r := PathOf(name); r !in unreadable && Progress(start, r, base, settled, entries)
      requires c != [] && Parent(c) == PathOf(name) && IsName(c[|c| - 1], '/')
      modifies this`entries, this`name
      ensures Valid() && name == old(name) && entries <= old(entries)
      ensures removed ==> c in old(entries) && c !in entries
      ensures Progress(start, PathOf(name), base, settled + {c}, entries)
      decreases Below(entries, PathOf(name)), 0
    {
      hide Progress, PathOf, Below;
      removed := false;
      var t := name;
      ghost var r := PathOf(name);
      if c !in entries {
        MissingChild(start, r, base, settled, entries, c);
        return;
      }
      PathOfChild(name, c[|c| - 1]);
      assert r + [c[|c| - 1]] == c;
      name := name + "/";
      name := name + c[|c| - 1];
      ghost var before := entries;
      if kind(c).Directory? && kind(c).device == base {
        BelowShrinks(entries, r, c);
        EmptyDirLocal(base);
        ghost var mid := entries;
        assert mid <= before && c in mid by { EmptiedWithin(before, c, base, mid); }
        removed := RemoveDirectory(c);
        EmptiedChild(start, r, base, settled, before, mid, entries, c);
      } else {
        removed := Unlink(c);
        UnlinkedChild(start, r, base, settled, before, entries, c);
      }
      name := t;
    }

    lemma EmptiedWithin(es: set<Path>, c: Path, base: int, after: set<Path>)
      requires Emptied(es, c, base, after) && c in es
      ensures after <= es && c in after
    {
      hide Kept;
    }

    lemma MissingChild(start: set<Path>, r: Path, base: int, settled: set<Path>, now: set<Path>, c: Path)
      requires Progress(start, r, base, settled, now) && IsTree(now)
      requires c != [] && Parent(c) == r && c !in now
      ensures Progress(start, r, base, settled + {c}, now)
    {
      hide Kept;
      forall q | q in now && r < q ensures ChildToward(r, q) != c {
        AncestorsIn(now, q, ChildToward(r, q));
      }
    }

    /** Below a child on the same device the blockers are the same as seen from `r`. */
    lemma BlockerFromChild(r: Path, base: int, c: Path, b: Path)
      requires c != [] && Parent(c) == r && c < b
      requires r !in unreadable && !IsForeign(base, c)
      ensures Blocker(r, base, b) <==> Blocker(c, base, b)
    {
      hide IsForeign;
      assert b[..|r|] == r && b[..|c|] == c && r < b;
    }

    lemma BlockerAtChild(r: Path, base: int, c: Path)
      requires c != [] && Parent(c) == r
      requires r !in unreadable && !IsForeign(base, c)
      ensures Blocker(r, base, c) <==> c in refused
    {
      hide IsForeign;
      assert c[..|r|] == r && c[..|c|] == c;
    }

    lemma KeptFromChild(start: set<Path>, r: Path, base: int, settled: set<Path>, now: set<Path>, c: Path, q: Path)
      requires Progress(start, r, base, settled, now)
      requires c != [] && Parent(c) == r && c < q
      requires r !in unreadable && !IsForeign(base, c)
      ensures Kept(start, r, base, q) <==> Kept(now, c, base, q)
    {
      hide Blocker, IsForeign;
      if Kept(start, r, base, q) {
        var b :| b in start && Blocker(r, base, b) && q <= b;
        BlockerFromChild(r, base, c, b);
        assert Kept(start, r, base, b);
        assert b in now;
      }
      if Kept(now, c, base, q) {
        var b :| b in now && Blocker(c, base, b) && q <= b;
        BlockerFromChild(r, base, c, b);
      }
    }

    lemma KeptAbove(es: set<Path>, r: Path, base: int, c: Path, q: Path)
      requires Kept(es, r, base, q) && c <= q
      ensures Kept(es, r, base, c)
    {
      hide Blocker;
      var b :| b in es && Blocker(r, base, b) && q <= b;
      assert c <= b;
    }

    /** A child stays iff it is refused or something below it stays. */
    lemma KeptAtChild(start: set<Path>, r: Path, base: int, c: Path) returns (b: Path)
      requires c in start && c != [] && Parent(c) == r
      requires r !in unreadable && !IsForeign(base, c)
      requires Kept(start, r, base, c)
      ensures c !in refused ==> c < b && b in start && Kept(start, r, base, b)
    {
      b :| b in start && Blocker(r, base, b) && c <= b;
      BlockerAtChild(r, base, c);
      hide Blocker, IsForeign;
      assert b == c || c < b;
    }

    lemma EmptiedChild(start: set<Path>, r: Path, base: int, settled: set<Path>, before: set<Path>,
                       mid: set<Path>, after: set<Path>, c: Path)
      requires Progress(start, r, base, settled, before)
      requires c in before && c != [] && Parent(c) == r && r !in unreadable && !IsForeign(base, c)
      requires Emptied(before, c, base, mid)
      requires after == if c !in refused && Below(mid, c) == {} then mid - {c} else mid
      ensures Progress(start, r, base, settled + {c}, after)
    {
      hide Blocker, IsForeign;
      forall q | c < q ensures Kept(start, r, base, q) <==> Kept(before, c, base, q) {
        KeptFromChild(start, r, base, settled, before, c, q);
      }
      assert forall q :: q in mid && c < q ==> Kept(start, r, base, q);
      if Kept(start, r, base, c) {
        var b := KeptAtChild(start, r, base, c);
        assert c !in refused ==> b in before && b in mid && b in Below(mid, c);
      }
      ChildStays(start, r, base, mid, after, c);
      hide Kept;
      forall q | q in after && r < q && ChildToward(r, q) in settled + {c} ensures Kept(start, r, base, q) {
        assert c == ChildToward(r, q) ==> c == q || c < q;
      }
    }

    lemma ChildStays(start: set<Path>, r: Path, base: int, mid: set<Path>, after: set<Path>, c: Path)
      requires c in start && c != [] && Parent(c) == r && r !in unreadable && !IsForeign(base, c)
      requires forall q :: q in mid && c < q ==> Kept(start, r, base, q)
      requires after == if c !in refused && Below(mid, c) == {} then mid - {c} else mid
      ensures c in after ==> Kept(start, r, base, c)
    {
      if c in after {
        if c in refused {
          BlockerAtChild(r, base, c);
          assert Blocker(r, base, c);
        } else {
          hide Kept;
          assert Below(mid, c) != {};
          var b :| b in Below(mid, c);
          KeptAbove(start, r, base, c, b);
        }
      }
    }

    lemma ForeignKept(start: set<Path>, r: Path, base: int, c: Path, q: Path)
      requires c != [] && Parent(c) == r && IsForeign(base, c) && c <= q && q in start
      ensures Kept(start, r, base, q)
    {
      assert q[..|c|] == c && r < q;
      assert Blocker(r, base, q);
    }

    lemma UnlinkedChild(start: set<Path>, r: Path, base: int, settled: set<Path>, before: set<Path>,
                        after: set<Path>, c: Path)
      requires Progress(start, r, base, settled, before) && IsTree(before)
      requires forall q :: q in before && |q| > 1 ==> kind(Parent(q)).Directory?
      requires c in before && c != [] && Parent(c) == r && r !in unreadable
      requires !(kind(c).Directory? && kind(c).device == base)
      requires after == if c !in refused && !kind(c).Directory? then before - {c} else before
      ensures Progress(start, r, base, settled + {c}, after)
    {
      if IsForeign(base, c) {
        forall q | q in start && c <= q ensures Kept(start, r, base, q) {
          ForeignKept(start, r, base, c, q);
        }
        hide Kept;
      } else {
        NothingBelowLeaf(before, c);
        forall q | c < q ensures q !in before { assert q !in Below(before, c); }
        if Kept(start, r, base, c) {
          var b := KeptAtChild(start, r, base, c);
          assert c !in refused ==> b in before;
        }
        ChildStays(start, r, base, before, after, c);
        hide Kept;
        forall q | q in after && r < q && ChildToward(r, q) in settled + {c} ensures Kept(start, r, base, q) {
          assert c == ChildToward(r, q) ==> c == q || c < q;
        }
      }
    }

    lemma UnreadableKeepsAll(es: set<Path>, r: Path, base: int)
      requires r in unreadable
      ensures Emptied(es, r, base, es)
    {
      forall q | q in es && r < q ensures Kept(es, r, base, q) {
        assert q[..|r|] == r;
        assert Blocker(r, base, q);
      }
    }

    lemma SettledAtFirst(es: set<Path>, r: Path, base: int)
      ensures Progress(es, r, base, {}, es)
    {
    }

    lemma SettledAtLast(start: set<Path>, r: Path, base: int, settled: set<Path>, now: set<Path>)
      requires Progress(start, r, base, settled, now)
      requires AllIn(now, r, settled)
      ensures Emptied(start, r, base, now)
    {
    }

    lemma ForeignAbove(es: set<Path>, r: Path, base: int, b: Path) returns (f: Path)
      requires IsTree(es) && refused == {} && unreadable == {}
      requires b in es && Blocker(r, base, b)
      ensures f in es && r < f && f <= b && IsForeign(base, f)
    {
      hide IsForeign;
      var k :| |r| < k <= |b| && IsForeign(base, b[..k]);
      f := b[..k];
      AncestorsIn(es, b, f);
    }

    lemma BelowForeign(r: Path, base: int, f: Path, b: Path)
      requires r < f && f <= b && IsForeign(base, f)
      ensures Blocker(r, base, b)
    {
      hide IsForeign;
      assert b[..|f|] == f;
    }

    /** `q` is at, above or below a directory of another device that is below `r`. */
    ghost predicate NearForeign(es: set<Path>, r: Path, base: int, q: Path) {
      exists f :: f in es && r < f && IsForeign(base, f) && (f <= q || q <= f)
    }

    /** Without refusals and unreadable directories, emptying leaves exactly the
        directories of other devices, what is below them, and the directories above them. */
    lemma HealthyEmptying(es: set<Path>, r: Path, base: int, after: set<Path>)
      requires IsTree(es) && refused == {} && unreadable == {}
      requires Emptied(es, r, base, after)
      ensures forall q :: q in es && r < q ==> (q in after <==> NearForeign(es, r, base, q))
    {
      hide Blocker, IsForeign;
      forall q | q in es && r < q ensures q in after <==> NearForeign(es, r, base, q) {
        if q in after {
          var b :| b in es && Blocker(r, base, b) && q <= b;
          var f := ForeignAbove(es, r, base, b);
          assert f <= q || q <= f;
        }
        if NearForeign(es, r, base, q) {
          var f :| f in es && r < f && IsForeign(base, f) && (f <= q || q <= f);
          BelowForeign(r, base, f, if f <= q then q else f);
        }
      }
    }
  }
}
