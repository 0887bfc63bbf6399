/** When the sweep runs at all: only in a folder that held the application binary before the
    run, and only for a manifest that lists it. A folder that never was an installation keeps
    its files, but only until an update has put the binary there. */
module UpdateAnchor {
  import opened Wrappers
  import opened ManifestPath
  import opened VersionNumber
  import opened Manifest
  import opened UpdateDisk
  import opened UpdateTransaction
  import opened UpdateSweep
  import opened UpdateRuns
  import opened UpdateConservation
  import opened UpdateSafety

  /** The manifest lists a file with the key of `p`. */
  ghost predicate ListsKey(mc: Machine, m: Manifest, p: string) {
    exists i :: 0 <= i < |m.entries| && mc.PathKey(m.entries[i].path) == mc.PathKey(p)
  }

  lemma NormalPathsKeys(mc: Machine, m: Manifest, p: string)
    ensures (exists q :: q in NormalPaths(mc, m.entries) && mc.PathKey(q) == mc.PathKey(p)) <==> ListsKey(mc, m, p)
  {
    hide NameOf, Norm;
    var normal := NormalPaths(mc, m.entries);
    if q :| q in normal && mc.PathKey(q) == mc.PathKey(p) {
      var i :| 0 <= i < |normal| && normal[i] == q;
      NameNormal(mc, m.entries[i].path);
    }
    if i :| 0 <= i < |m.entries| && mc.PathKey(m.entries[i].path) == mc.PathKey(p) {
      NameNormal(mc, m.entries[i].path);
      assert normal[i] in normal;
    }
  }

  lemma UnlistedIsObsolete(mc: Machine, m: Manifest, d: Disk, q: string)
    ensures Obsolete(mc, ExpectedKeys(mc, NormalPaths(mc, m.entries)), d, q) <==> q in d.app && !ListsKey(mc, m, q)
  {
    NormalPathsKeys(mc, m, q);
    KeyStable(q, mc.FoldsCase());
    hide NormalPaths, ListsKey, Norm;
  }

  // ----- No sweep -----

  lemma TransactionLeaves(mc: Machine, os: Os, s: Run, paths: seq<string>, manifestPaths: seq<string>, anchor: bool,
                          q: string)
    requires Distinct(paths) && q !in paths
    requires !anchor || forall p :: p in manifestPaths ==> mc.PathKey(p) != mc.PathKey(mc.Binary())
    ensures At(PerformUpdate(mc, os, s, paths, manifestPaths, anchor).0.disk.app, q) == At(s.disk.app, q)
  {
    hide InstallFrom, Rollback, CleanupObsolete, SlotAt, Distinct;
    var (s1, folder) := MkdirP(os, s);
    if folder {
      var (s2, stopped) := InstallFrom(mc, os, s1, paths, 0);
      InstallFromSlots(mc, os, s1, paths, q);
      if stopped.Some? {
        var n := stopped.value.0 + 1;
        RollbackSlots(mc, os, s2, paths, n);
        assert q !in PathSet(paths[..n]);
        SameSlot(s2.disk, Rollback(mc, os, s2, paths, n).disk, q);
      } else {
        NoSweep(mc, os, s2, manifestPaths, anchor);
      }
      SameSlot(s1.disk, s2.disk, q);
    }
  }

  lemma SameSlot(d: Disk, e: Disk, q: string)
    ensures SlotAt(e, q) == SlotAt(d, q) ==> At(e.app, q) == At(d.app, q)
  {
  }

  lemma UnlistedNotPending(mc: Machine, app: Files, m: Manifest, q: string)
    requires !ListsKey(mc, m, q)
    ensures q !in Paths(Pending(mc, app, m.entries))
  {
    hide Pending, Norm, NameOf;
    var todo := Pending(mc, app, m.entries);
    if q in Paths(todo) {
      var j :| 0 <= j < |todo| && Paths(todo)[j] == q;
      assert todo[j] in todo;
      var i := PendingFrom(mc, app, m.entries, todo[j]);
      NameNormal(mc, m.entries[i].path);
      assert false;
    }
  }

  lemma ApplyLeaves(mc: Machine, os: Os, s: Run, m: Manifest, anchor: bool, q: string)
    requires SeparatePlaces(mc, m.entries) && !ListsKey(mc, m, q) && (!anchor || !ListsKey(mc, m, mc.Binary()))
    ensures At(ApplyManifest(mc, os, s, m, anchor).disk.app, q) == At(s.disk.app, q)
  {
    hide DownloadFrom, Pending, NormalPaths, Paths, PerformUpdate, SeparatePlaces, Downloaded, ParseInt, FinalCleanup,
      RemoveFolder, Distinct, ListsKey, Norm, NameOf;
    var todo, manifestPaths := Pending(mc, s.disk.app, m.entries), NormalPaths(mc, m.entries);
    PendingFits(mc, s.disk.app, m.entries);
    DistinctOfFits(mc, Paths(todo), manifestPaths);
    UnlistedNotPending(mc, s.disk.app, m, q);
    NormalPathsKeys(mc, m, mc.Binary());
    RemovalSpares(os, s);
    var s1 := RemoveFolder(os, s, Backup);
    DownloadAll(mc, os, s1, todo, 0);
    hide FitsManifest;
    var (s2, downloaded) := DownloadFrom(mc, os, s1, todo, 0);
    if downloaded {
      TransactionLeaves(mc, os, s2, Paths(todo), manifestPaths, anchor, q);
      FinalCleanupKeeps(os, PerformUpdate(mc, os, s2, Paths(todo), manifestPaths, anchor).0, ParseInt(m.version));
    }
  }

  /** Where the application binary was not there before the run, or the manifest does not list
      it, every file that the manifest does not list stays as it is, whatever the replies. */
  lemma StrangersStay(mc: Machine, os: Os, d: Disk, text: string, m: Manifest, q: string)
    requires Parse(text) == Some(m) && SeparatePlaces(mc, m.entries)
    requires NameOf(mc, mc.Binary()) !in d.app || !ListsKey(mc, m, mc.Binary())
    requires !ListsKey(mc, m, q)
    ensures At(CheckForUpdates(mc, os, Start(d), text).disk.app, q) == At(d.app, q)
  {
    hide Parse, ApplyManifest, SeparatePlaces, IsUpdate, ListsKey, CheckForUpdates, Fetched, Proceeds, NameOf;
    RunIs(mc, os, d, text);
    ApplyLeaves(mc, os, Fetched(d), m, Anchored(mc, d.app), q);
  }

  // ----- The sweep -----

  /** Names outside the manifest are distinct once normalised. */
  ghost predicate StrangersApart(mc: Machine, m: Manifest, d: Disk) {
    forall q, r :: q in d.app && r in d.app && !ListsKey(mc, m, q) && !ListsKey(mc, m, r) && Norm(q) == Norm(r)
      ==> q == r
  }

  /** Where the binary was there and is listed, a healthy run moves every file that the
      manifest does not list into the backup folder. */
  lemma StrangersSwept(mc: Machine, os: Os, d: Disk, text: string, m: Manifest, q: string)
    requires Parse(text) == Some(m) && SeparatePlaces(mc, m.entries) && IsUpdate(mc, d, m) && HealthyRun(mc, os, m)
    requires forall f: Files, r :: r in f ==> r in os.listing(f)
    requires NameOf(mc, mc.Binary()) in d.app && ListsKey(mc, m, mc.Binary()) && StrangersApart(mc, m, d)
    requires q in d.app && !ListsKey(mc, m, q)
    ensures var e := CheckForUpdates(mc, os, Start(d), text).disk;
      q !in e.app && At(e.backup, Norm(q)) == Some(d.app[q])
  {
    var manifestPaths := NormalPaths(mc, m.entries);
    var expected := ExpectedKeys(mc, manifestPaths);
    NormalPathsKeys(mc, m, mc.Binary());
    SweepArmedIff(mc, manifestPaths, true);
    forall r ensures Obsolete(mc, expected, d, r) <==> r in d.app && !ListsKey(mc, m, r) {
      UnlistedIsObsolete(mc, m, d, r);
    }
    KeyStable(q, mc.FoldsCase());
    hide Parse, SeparatePlaces, IsUpdate, HealthyRun, CheckForUpdates, NormalPaths, SweepArmed, ListsKey, Norm, NameOf,
      ExpectedKeys, IsExpected, AllInstalled;
    HealthyRunSweeps(mc, os, d, text, m);
  }

  // ----- The run after the first -----

  lemma InstalledIsThere(mc: Machine, app: Files, m: Manifest, i: nat)
    requires AllInstalled(mc, app, m.entries) && i < |m.entries|
    ensures NameOf(mc, m.entries[i].path) in app
  {
    assert Installed(mc, app, m.entries[i]);
  }

  /** The protection of a folder that was no installation ends with the first update: that
      one installs the binary, and the next one sweeps whatever the manifest does not list. */
  lemma SecondUpdateSweeps(mc: Machine, d: Disk, os1: Os, text1: string, m1: Manifest, i: nat,
                           os2: Os, text2: string, m2: Manifest, q: string)
    requires Parse(text1) == Some(m1) && SeparatePlaces(mc, m1.entries)
    requires HealthyRun(mc, os1, m1) && IsUpdate(mc, d, m1)
    requires Parse(text2) == Some(m2) && SeparatePlaces(mc, m2.entries) && HealthyRun(mc, os2, m2)
    requires NameOf(mc, mc.Binary()) !in d.app
    requires i < |m1.entries| && NameOf(mc, m1.entries[i].path) == NameOf(mc, mc.Binary())
    requires q in d.app && !ListsKey(mc, m1, q) && !ListsKey(mc, m2, q) && ListsKey(mc, m2, mc.Binary())
    requires forall f: Files, r :: r in f ==> r in os2.listing(f)
    requires var now := CheckForUpdates(mc, os1, Start(d), text1).disk;
      IsUpdate(mc, now, m2) && StrangersApart(mc, m2, now)
    ensures var now := CheckForUpdates(mc, os1, Start(d), text1).disk;
      var e := CheckForUpdates(mc, os2, Start(now), text2).disk;
      At(now.app, q) == Some(d.app[q]) && q !in e.app && At(e.backup, Norm(q)) == Some(d.app[q])
  {
    hide Parse, SeparatePlaces, IsUpdate, HealthyRun, CheckForUpdates, ListsKey, Norm, NameOf, AllInstalled,
      StrangersApart, ParseInt;
    var now := CheckForUpdates(mc, os1, Start(d), text1).disk;
    StrangersStay(mc, os1, d, text1, m1, q);
    HealthyRunInstalls(mc, os1, d, text1, m1);
    InstalledIsThere(mc, now.app, m1, i);
    StrangersSwept(mc, os2, now, text2, m2, q);
  }
}
