/** Where the files of the three folders really lie. The updater appends the path of a file
    to the name of a folder; the maps of `Disk` stand for the places this leads to. */
module UpdatePlaces {
  import opened Wrappers
  import opened Components
  import opened ManifestPath
  import opened UpdateDisk
  import opened UpdateTransaction

  /** A directory stack, as `Walk` builds it. */
  type Dir = seq<string>

  // ----- Places of paths -----

  lemma {:induction false} WalkInside(base: Dir, kept: Dir, ns: seq<string>, rooted: bool)
    requires Plain(kept) && !Escapes(ns, |kept|)
    ensures Walk(base + kept, ns) == base + Collapse(kept, ns, rooted)
    decreases ns
  {
    if ns != [] {
      if ns[0] == DOT {
        WalkInside(base, kept, ns[1..], rooted);
      } else if ns[0] == DOTDOT {
        var front := kept[..|kept| - 1];
        assert (base + kept)[..|base + kept| - 1] == base + front;
        WalkInside(base, front, ns[1..], rooted);
      } else {
        assert base + kept + [ns[0]] == base + (kept + [ns[0]]);
        WalkInside(base, kept + [ns[0]], ns[1..], rooted);
      }
    }
  }

  /** A path that stays inside leads to its normal components below the folder. */
  lemma InsidePlace(base: Dir, s: string)
    requires StaysInside(s)
    ensures Resolve(base, s) == base + NormalNames(s)
  {
    assert base + [] == base;
    WalkInside(base, [], Names(s), Rooted(s));
  }

  lemma {:induction false} EscapeForgets(data: Dir, u: string, b: string, kept: Dir, ns: seq<string>)
    requires Escapes(ns, |kept|)
    ensures Walk(data + [u] + kept, ns) == Walk(data + [b] + kept, ns)
    decreases ns
  {
    if ns[0] == DOT {
      EscapeForgets(data, u, b, kept, ns[1..]);
    } else if ns[0] == DOTDOT {
      if kept == [] {
        assert data + [u] + kept == data + [u] && data + [b] + kept == data + [b];
        assert (data + [u])[..|data|] == data && (data + [b])[..|data|] == data;
      } else {
        var front := kept[..|kept| - 1];
        assert (data + [u] + kept)[..|data| + |kept|] == data + [u] + front;
        assert (data + [b] + kept)[..|data| + |kept|] == data + [b] + front;
        EscapeForgets(data, u, b, front, ns[1..]);
      }
    } else {
      assert data + [u] + kept + [ns[0]] == data + [u] + (kept + [ns[0]]);
      assert data + [b] + kept + [ns[0]] == data + [b] + (kept + [ns[0]]);
      EscapeForgets(data, u, b, kept + [ns[0]], ns[1..]);
    }
  }

  /** Two folders side by side have different places for a path exactly when the path
      stays inside. */
  lemma SiblingPlacesApartIff(data: Dir, u: string, b: string, s: string)
    requires u != b
    ensures Resolve(data + [u], s) != Resolve(data + [b], s) <==> StaysInside(s)
  {
    if StaysInside(s) {
      InsidePlace(data + [u], s);
      InsidePlace(data + [b], s);
      assert Resolve(data + [u], s)[|data|] == u && Resolve(data + [b], s)[|data|] == b;
    } else {
      EscapeForgets(data, u, b, [], Names(s));
      assert data + [u] + [] == data + [u] && data + [b] + [] == data + [b];
    }
  }

  // ----- Folders -----

  datatype Folders = Folders(app: Dir, update: Dir, backup: Dir) {
    function Of(w: Place): Dir {
      match w
      case App => app
      case Update => update
      case Backup => backup
    }

    /** None of the folders lies in another. */
    ghost predicate Apart() {
      forall v: Place, w: Place :: v != w ==> !(Of(v) <= Of(w))
    }
  }

  function PlaceOf(fl: Folders, w: Place, p: string): Dir { Resolve(fl.Of(w), p) }

  lemma DifferentFolders(f: Dir, g: Dir, p: string, q: string)
    requires !(f <= g) && !(g <= f) && StaysInside(p) && StaysInside(q)
    ensures Resolve(f, p) != Resolve(g, q)
  {
    InsidePlace(f, p);
    InsidePlace(g, q);
    var a, b := f + NormalNames(p), g + NormalNames(q);
    assert a[..|f|] == f && b[..|g|] == g;
    hide NormalNames, Resolve;
    if |f| <= |g| {
      assert a[..|f|] != b[..|f|] by { assert b[..|f|] == g[..|f|]; }
    } else {
      assert a[..|g|] != b[..|g|] by { assert a[..|g|] == f[..|g|]; }
    }
  }

  lemma SamePlaceIff(f: Dir, p: string, q: string)
    requires StaysInside(p) && StaysInside(q)
    ensures Resolve(f, p) == Resolve(f, q) <==> NormalNames(p) == NormalNames(q)
  {
    InsidePlace(f, p);
    InsidePlace(f, q);
    hide NormalNames, Resolve;
    assert (f + NormalNames(p))[|f|..] == NormalNames(p) && (f + NormalNames(q))[|f|..] == NormalNames(q);
  }

  // ----- The maps stand for the places -----

  type FileSystem = map<Dir, Content>

  function FileAt(fs: FileSystem, x: Dir): Option<Content> { if x in fs then Some(fs[x]) else None }

  /** The paths stay inside, and lead to one place only if they have one normal form. */
  ghost predicate Placeable(ps: set<string>) {
    && (forall p :: p in ps ==> StaysInside(p))
    && forall p, q :: p in ps && q in ps && NormalNames(p) == NormalNames(q) ==> Norm(p) == Norm(q)
  }

  ghost predicate Shows(fl: Folders, fs: FileSystem, d: Disk, ps: set<string>) {
    forall w: Place, p :: p in ps ==> At(Get(d, w), Norm(p)) == FileAt(fs, PlaceOf(fl, w, p))
  }

  function RenamePlace(overwrites: bool, fs: FileSystem, from: Dir, to: Dir): (FileSystem, RenameResult) {
    if from !in fs then (fs, NoEntry)
    else if !overwrites && to in fs then (fs, Failed)
    else ((fs - {from})[to := fs[from]], Renamed)
  }

  lemma PlacesDiffer(fl: Folders, ps: set<string>, v: Place, p: string, w: Place, q: string)
    requires fl.Apart() && Placeable(ps) && p in ps && q in ps
    ensures PlaceOf(fl, v, p) == PlaceOf(fl, w, q) ==> v == w && Norm(p) == Norm(q)
    ensures v == w && NormalNames(p) == NormalNames(q) ==> PlaceOf(fl, v, p) == PlaceOf(fl, w, q)
  {
    if v == w {
      SamePlaceIff(fl.Of(v), p, q);
    } else {
      assert !(fl.Of(v) <= fl.Of(w)) && !(fl.Of(w) <= fl.Of(v));
      DifferentFolders(fl.Of(v), fl.Of(w), p, q);
    }
  }

  lemma SameNormSamePlace(fl: Folders, w: Place, p: string, q: string)
    requires StaysInside(p) && StaysInside(q) && Norm(p) == Norm(q)
    ensures PlaceOf(fl, w, p) == PlaceOf(fl, w, q)
  {
    BodyNames(p);
    BodyNames(q);
    SamePlaceIff(fl.Of(w), p, q);
  }

  lemma FieldIsAt(d: Disk, w: Place, q: string)
    ensures SlotField(SlotAt(d, q), w) == At(Get(d, w), q)
  {
  }

  /** What a rename does at one place. */
  lemma RenamedPlace(overwrites: bool, fs: FileSystem, from: Dir, to: Dir, z: Dir)
    requires from != to
    ensures var (gs, r) := RenamePlace(overwrites, fs, from, to);
      && (r == NoEntry <==> FileAt(fs, from).None?)
      && (r == Failed <==> FileAt(fs, from).Some? && !overwrites && FileAt(fs, to).Some?)
      && FileAt(gs, z) == (if r == Renamed && z == from then None
                           else if r == Renamed && z == to then FileAt(fs, from) else FileAt(fs, z))
  {
  }

  lemma RenameResultAgrees(mc: Machine, os: Os, s: Run, from: Place, to: Place, p: string, w: Place, q: string)
    requires from != to && Ask(os, s).Works?
    ensures var (t, r) := Rename(mc, os, s, from, to, p);
      && (r == NoEntry <==> At(Get(s.disk, from), p).None?)
      && (r == Failed <==> At(Get(s.disk, from), p).Some? && !mc.Overwrites() && At(Get(s.disk, to), p).Some?)
      && At(Get(t.disk, w), q) == (if r == Renamed && w == from && q == p then None
                                   else if r == Renamed && w == to && q == p then At(Get(s.disk, from), p)
                                   else At(Get(s.disk, w), q))
  {
    RenameSlot(mc, os, s, from, to, p);
    var t := Rename(mc, os, s, from, to, p).0;
    hide Rename, Get;
    FieldIsAt(s.disk, from, p);
    FieldIsAt(s.disk, to, p);
    FieldIsAt(s.disk, w, q);
    FieldIsAt(t.disk, w, q);
    hide SlotAt;
  }

  /** A rename between two places does to the file system what it does to the maps, as long
      as all paths stay inside and no folder lies in another. */
  lemma RenameShows(mc: Machine, os: Os, s: Run, fl: Folders, fs: FileSystem, ps: set<string>,
                    from: Place, to: Place, p: string)
    requires fl.Apart() && Placeable(ps) && p in ps && from != to
    requires Shows(fl, fs, s.disk, ps) && Ask(os, s).Works?
    ensures var (t, r) := Rename(mc, os, s, from, to, Norm(p));
      var (gs, done) := RenamePlace(mc.Overwrites(), fs, PlaceOf(fl, from, p), PlaceOf(fl, to, p));
      r == done && Shows(fl, gs, t.disk, ps)
  {
    var (t, r) := Rename(mc, os, s, from, to, Norm(p));
    var x, y := PlaceOf(fl, from, p), PlaceOf(fl, to, p);
    var (gs, done) := RenamePlace(mc.Overwrites(), fs, x, y);
    PlacesDiffer(fl, ps, from, p, to, p);
    RenameResultAgrees(mc, os, s, from, to, Norm(p), from, Norm(p));
    RenamedPlace(mc.Overwrites(), fs, x, y, x);
    hide Norm, NormalNames, PlaceOf, Rename, RenamePlace, Get, FileAt, At;
    assert r == done;
    forall w: Place, q | q in ps ensures At(Get(t.disk, w), Norm(q)) == FileAt(gs, PlaceOf(fl, w, q)) {
      RenameResultAgrees(mc, os, s, from, to, Norm(p), w, Norm(q));
      RenamedPlace(mc.Overwrites(), fs, x, y, PlaceOf(fl, w, q));
      PlacesDiffer(fl, ps, w, q, from, p);
      PlacesDiffer(fl, ps, w, q, to, p);
      if Norm(q) == Norm(p) { SameNormSamePlace(fl, w, q, p); }
    }
  }

  // ----- A path that climbs out -----

  /** One round of the swap at the real places, without refusals. */
  function SwapPlaces(overwrites: bool, fl: Folders, fs: FileSystem, p: string): (FileSystem, Option<Stage>) {
    var (fs1, saved) := RenamePlace(overwrites, fs, PlaceOf(fl, App, p), PlaceOf(fl, Backup, p));
    if saved == Failed then (fs1, Some(BackupMove))
    else
      var (fs2, installed) := RenamePlace(overwrites, fs1, PlaceOf(fl, Update, p), PlaceOf(fl, App, p));
      (fs2, if installed == Renamed then None else Some(Install))
  }

  /** The update and backup folders lie side by side. */
  predicate Siblings(fl: Folders) {
    && fl.update != [] && fl.backup != [] && fl.update != fl.backup
    && fl.update[..|fl.update| - 1] == fl.backup[..|fl.backup| - 1]
  }

  /** An unrefused swap of a new file for an old one with no backup in the way installs the
      new content exactly when the path stays inside. Otherwise the two folders have one
      place for the path: the old file is moved over the download and back again, and the
      round still succeeds; or, where a rename does not replace its target, it never gets
      past the first rename. */
  lemma SwapInstallsIff(overwrites: bool, fl: Folders, fs: FileSystem, p: string)
    requires Siblings(fl) && Resolve(fl.app, p) !in {Resolve(fl.update, p), Resolve(fl.backup, p)}
    requires Resolve(fl.app, p) in fs && Resolve(fl.update, p) in fs
    requires Resolve(fl.backup, p) in fs ==> Resolve(fl.backup, p) == Resolve(fl.update, p)
    requires fs[Resolve(fl.update, p)] != fs[Resolve(fl.app, p)]
    ensures var (gs, stopped) := SwapPlaces(overwrites, fl, fs, p);
      var x, y := Resolve(fl.app, p), Resolve(fl.update, p);
      && (stopped.None? && FileAt(gs, x) == Some(fs[y]) <==> StaysInside(p))
      && (!StaysInside(p) ==> FileAt(gs, x) == Some(fs[x]) && (stopped.None? <==> overwrites))
  {
    hide Resolve, StaysInside, RenamePlace;
    var data := fl.update[..|fl.update| - 1];
    var u, b := fl.update[|data|], fl.backup[|data|];
    assert fl.update == data + [u] && fl.backup == data + [b];
    SiblingPlacesApartIff(data, u, b, p);
    var x, y, z := PlaceOf(fl, App, p), PlaceOf(fl, Update, p), PlaceOf(fl, Backup, p);
    var gs := RenamePlace(overwrites, fs, x, z).0;
    hide PlaceOf;
    RenamedPlace(overwrites, fs, x, z, x);
    RenamedPlace(overwrites, fs, x, z, y);
    RenamedPlace(overwrites, gs, y, x, x);
  }

  lemma ClimbingNames()
    ensures Names("../a") == ["..", "a"]
  {
    assert Slashes("../a") == "../a";
    SplitName("a", '/');
    SplitName("..", '/');
    SplitAppend("..", "a", '/');
    assert ".." + ['/'] + "a" == "../a";
    hide Split;
  }

  /** "../a" is such a path: beside the folders lies one file for both of them. */
  lemma ClimbingPathsMeet(data: Dir)
    ensures !StaysInside("../a") && !StaysInside("/../a")
    ensures Resolve(data + ["update"], "../a") == Resolve(data + ["backup"], "../a")
  {
    hide Resolve, Names;
    EscapingNames();
    ClimbingNames();
    SiblingPlacesApartIff(data, "update", "backup", "../a");
  }

  // ----- Volumes that ignore case -----

  lemma {:induction false} WalkLower(base: Dir, ns: seq<string>)
    ensures Walk(LowerAll(base), LowerAll(ns)) == LowerAll(Walk(base, ns))
    decreases ns
  {
    if ns != [] {
      LowerOfNames(ns[0]);
      assert LowerAll(ns)[1..] == LowerAll(ns[1..]);
      if ns[0] == DOT {
        WalkLower(base, ns[1..]);
      } else if ns[0] == DOTDOT {
        var front := if base == [] then [] else base[..|base| - 1];
        assert LowerAll(front) == if LowerAll(base) == [] then [] else LowerAll(base)[..|base| - 1];
        WalkLower(front, ns[1..]);
      } else {
        assert LowerAll(base + [ns[0]]) == LowerAll(base) + [Lower(ns[0])];
        WalkLower(base + [ns[0]], ns[1..]);
      }
    }
  }

  /** In lower case, folder and path lead to the place in lower case, and the name of the file
      is the normal form of the path: on a volume that ignores case, the lemmas above hold
      with everything in lower case. */
  lemma LowerCasePlace(mc: Machine, base: Dir, p: string)
    ensures Resolve(LowerAll(base), Lower(p)) == LowerAll(Resolve(base, p))
    ensures NameOf(mc, p) == Norm(Identity(mc, p))
  {
    NamesLower(p);
    WalkLower(base, Names(p));
    NormLower(p);
    hide Norm, Names;
  }

  lemma CaseVariants(mc: Machine)
    ensures NameOf(mc, "A") == NameOf(mc, "a") <==> mc.IgnoresCase()
  {
    PlainName("A");
    PlainName("a");
    hide Norm;
    assert Lower("A")[0] == 'a' && Lower("a")[0] == 'a';
    assert Lower("A") == "a" && Lower("a") == "a";
  }

  lemma PlainName(n: string)
    requires n in {"A", "a"}
    ensures Norm(n) == n
  {
    var ns := [n];
    assert AreNames(ns, '/') && Plain(ns) && Join(ns, '/') == n;
    assert IsFilePath(n);
    FilePathNormalIff(n);
    hide Norm;
  }

  /** The old file "A" and the manifest path "a": where a volume ignores case they are one
      file, which a rollback before it was saved moves over its download; where it does not,
      "A" is another file and everything is restored. */
  lemma CaseVariantRolledBack(mc: Machine, os: Os, s: Run, stored: Content)
    requires mc.Overwrites() && s.disk.app == map[NameOf(mc, "A") := stored] && s.disk.backup == map[]
    requires StoppedThenRolledBack(mc, os, s, [NameOf(mc, "a")], 0, BackupFolder)
    ensures Restored(s.disk, RolledBack(mc, os, s, [NameOf(mc, "a")])) <==> !mc.IgnoresCase()
  {
    hide StoppedThenRolledBack, Restored, RolledBack, NameOf;
    CaseVariants(mc);
    RollbackFromCleanBackup(mc, os, s, [NameOf(mc, "a")], 0, BackupFolder);
  }
}
