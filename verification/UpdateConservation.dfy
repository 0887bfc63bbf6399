/** Conservation over a whole run, with the exact condition: when no replies of the operating
    system can make a run lose a file. */
module UpdateConservation {
  import opened Wrappers
  import opened ManifestPath
  import opened VersionNumber
  import opened Manifest
  import opened UpdateDisk
  import opened UpdateKills
  import opened UpdateTransaction
  import opened UpdateSweep
  import opened UpdateRuns

  /** The content is under its path in one of the folders, or in the backup folder under the
      normal form of that path. */
  predicate Conserved(d: Disk, q: string, c: Content) { SavedOrSwept(d, q, c) || Held(d, q, c) }

  // ----- No run loses a file -----

  lemma LeftOverBackup(os: Os, s: Run, q: string)
    ensures var t := RemoveFolder(os, s, Backup);
      && t.disk.app == s.disk.app
      && At(t.disk.backup, q) in {None, At(s.disk.backup, q)}
      && (Ask(os, s).Works? ==> At(t.disk.backup, q) == None)
  {
  }

  lemma SameObsolete(mc: Machine, expected: set<string>, d: Disk, e: Disk)
    requires ObsoleteApart(mc, expected, d) && e.app == d.app
    ensures ObsoleteApart(mc, expected, e)
  {
    hide IsExpected, Norm, NameOf;
    forall q, r | Obsolete(mc, expected, e, q) && Obsolete(mc, expected, e, r) && Norm(q) == Norm(r) ensures q == r {
      assert Obsolete(mc, expected, d, q) && Obsolete(mc, expected, d, r);
    }
  }

  lemma WriteVersionKeeps(os: Os, s: Run, version: int)
    ensures var t := WriteVersion(os, s, version).disk;
      t.app == s.disk.app && t.backup == s.disk.backup && t.update == s.disk.update
  {
  }

  lemma FinalCleanupKeeps(os: Os, s: Run, version: int)
    ensures var t := FinalCleanup(os, s, version); t.disk.app == s.disk.app && t.disk.backup == s.disk.backup
    ensures Ask(os, s).Works? ==> FinalCleanup(os, s, version).disk.update == map[]
  {
    WriteVersionKeeps(os, RemoveFolder(os, s, Update), version);
    hide WriteVersion;
  }

  lemma FewerBackups(d: Disk, e: Disk, paths: seq<string>)
    requires NoOtherBackup(d, paths) && e.app == d.app
    requires forall q :: At(e.backup, q) in {None, At(d.backup, q)}
    ensures NoOtherBackup(e, paths)
  {
    forall i | 0 <= i < |paths| && paths[i] in e.app && paths[i] in e.backup
      ensures e.backup[paths[i]] == e.app[paths[i]]
    {
      assert At(e.backup, paths[i]) == At(d.backup, paths[i]);
    }
  }

  /** Obsolete names stay apart if there is a sweep; where a rename replaces its target, no
      pending file has a different one as its left-over backup. */
  ghost predicate LosesNothing(mc: Machine, d: Disk, m: Manifest) {
    var manifestPaths := NormalPaths(mc, m.entries);
    && (SweepArmed(mc, manifestPaths, Anchored(mc, d.app)) ==> ObsoleteApart(mc, ExpectedKeys(mc, manifestPaths), d))
    && (mc.Overwrites() ==> NoOtherBackup(d, Paths(Pending(mc, d.app, m.entries))))
  }

  lemma ApplyConserves(mc: Machine, os: Os, s: Run, m: Manifest, q: string)
    requires SeparatePlaces(mc, m.entries) && LosesNothing(mc, s.disk, m) && q in s.disk.app
    ensures Conserved(ApplyManifest(mc, os, s, m, Anchored(mc, s.disk.app)).disk, q, s.disk.app[q])
  {
    hide Pending, NormalPaths, SeparatePlaces, DownloadFrom, PerformUpdate, Downloaded, ParseInt, RemoveFolder,
      NoOtherBackup, ObsoleteApart, SweepArmed, ExpectedKeys, FinalCleanup, Anchored, Conserved, Distinct;
    var anchor := Anchored(mc, s.disk.app);
    var todo, manifestPaths := Pending(mc, s.disk.app, m.entries), NormalPaths(mc, m.entries);
    PendingFits(mc, s.disk.app, m.entries);
    DistinctOfFits(mc, Paths(todo), manifestPaths);
    hide FitsManifest;
    var s1 := RemoveFolder(os, s, Backup);
    RemovedBackup(os, s);
    forall p ensures At(s1.disk.backup, p) in {None, At(s.disk.backup, p)} { LeftOverBackup(os, s, p); }
    DownloadAll(mc, os, s1, todo, 0);
    var (s2, downloaded) := DownloadFrom(mc, os, s1, todo, 0);
    if mc.Overwrites() { FewerBackups(s.disk, s2.disk, Paths(todo)); }
    if SweepArmed(mc, manifestPaths, anchor) { SameObsolete(mc, ExpectedKeys(mc, manifestPaths), s.disk, s2.disk); }
    if downloaded {
      var (s3, applied) := PerformUpdate(mc, os, s2, Paths(todo), manifestPaths, anchor);
      NothingIsLost(mc, os, s2, Paths(todo), manifestPaths, anchor, q);
      if applied {
        FinalCleanupKeeps(os, s3, ParseInt(m.version));
        ConservedOn(s3.disk, FinalCleanup(os, s3, ParseInt(m.version)).disk, q, s.disk.app[q]);
      } else {
        HeldIsConserved(s3.disk, q, s.disk.app[q]);
      }
    } else {
      Untouched(s2.disk, q);
    }
  }

  lemma Untouched(d: Disk, q: string)
    requires q in d.app
    ensures Conserved(d, q, d.app[q])
  {
    hide Norm;
  }

  lemma HeldIsConserved(d: Disk, q: string, c: Content)
    requires SavedOrSwept(d, q, c) || Held(d, q, c)
    ensures Conserved(d, q, c)
  {
  }

  lemma ConservedOn(d: Disk, e: Disk, q: string, c: Content)
    requires SavedOrSwept(d, q, c) && e.app == d.app && e.backup == d.backup
    ensures Conserved(e, q, c)
  {
    hide Norm;
  }

  lemma DistinctOfFits(mc: Machine, paths: seq<string>, manifestPaths: seq<string>)
    requires FitsManifest(mc, paths, manifestPaths)
    ensures Distinct(paths)
  {
  }

  lemma ObsoleteUntouched(mc: Machine, os: Os, s: Run, paths: seq<string>, manifestPaths: seq<string>, q: string)
    requires FitsManifest(mc, paths, manifestPaths) && Obsolete(mc, ExpectedKeys(mc, manifestPaths), s.disk, q)
    ensures var t := InstallFrom(mc, os, s, paths, 0).0;
      Obsolete(mc, ExpectedKeys(mc, manifestPaths), t.disk, q) && t.disk.app[q] == s.disk.app[q]
  {
    if q in paths { ListedIsExpected(mc, manifestPaths, q); }
    InstallSlots(mc, os, s, paths, 0);
    assert paths[0..] == paths;
    hide InstallFrom, IsExpected, ExpectedKeys;
    assert SlotAt(InstallFrom(mc, os, s, paths, 0).0.disk, q) == SlotAt(s.disk, q);
    assert At(InstallFrom(mc, os, s, paths, 0).0.disk.app, q) == At(s.disk.app, q);
  }

  // ----- Replies that agree for a while -----

  ghost predicate Agree(os: Os, other: Os, k: nat) {
    other.served == os.served && other.listing == os.listing && forall j: nat :: j < k ==> other.reply(j) == os.reply(j)
  }

  function KillAt(os: Os, k: nat): Os { Os((j: nat) => if j < k then os.reply(j) else Refuses, os.served, os.listing) }

  lemma DownloadAgrees(mc: Machine, os: Os, other: Os, k: nat, s: Run, todo: seq<Entry>)
    requires Agree(os, other, k) && s.calls <= k && DownloadFrom(mc, os, s, todo, 0).0.calls <= k
    ensures DownloadFrom(mc, other, s, todo, 0) == DownloadFrom(mc, os, s, todo, 0)
  {
    DownloadFromCut(mc, os, KillAt(os, k), k, s, todo, 0);
    DownloadFromCut(mc, other, KillAt(os, k), k, s, todo, 0);
    hide DownloadFrom;
  }

  lemma InstallAgrees(mc: Machine, os: Os, other: Os, k: nat, s: Run, paths: seq<string>)
    requires Agree(os, other, k) && s.calls <= k && InstallFrom(mc, os, s, paths, 0).0.calls <= k
    ensures InstallFrom(mc, other, s, paths, 0) == InstallFrom(mc, os, s, paths, 0)
  {
    InstallFromCut(mc, os, KillAt(os, k), k, s, paths, 0);
    InstallFromCut(mc, other, KillAt(os, k), k, s, paths, 0);
    hide InstallFrom;
  }

  /** The transaction of a run, up to its `i`-th file, with the replies of `os`. */
  function BeforeFile(mc: Machine, os: Os, s: Run, todo: seq<Entry>, i: nat): Run
    requires i <= |todo|
  {
    var s2 := DownloadFrom(mc, os, RemoveFolder(os, s, Backup), todo, 0).0;
    InstallFrom(mc, os, Called(s2), Paths(todo)[..i], 0).0
  }

  /** Replies under which the run comes as far as file `i`. */
  ghost predicate ComesTo(mc: Machine, os: Os, s: Run, todo: seq<Entry>, i: nat)
    requires i <= |todo|
  {
    var (s2, downloaded) := DownloadFrom(mc, os, RemoveFolder(os, s, Backup), todo, 0);
    downloaded && Ask(os, s2).Works? && InstallFrom(mc, os, Called(s2), Paths(todo)[..i], 0).1.None?
  }

  lemma BeforeFileAgrees(mc: Machine, os: Os, other: Os, s: Run, todo: seq<Entry>, i: nat)
    requires i <= |todo| && ComesTo(mc, os, s, todo, i) && Agree(os, other, BeforeFile(mc, os, s, todo, i).calls)
    ensures BeforeFile(mc, other, s, todo, i) == BeforeFile(mc, os, s, todo, i) && ComesTo(mc, other, s, todo, i)
    ensures s.calls < BeforeFile(mc, os, s, todo, i).calls
  {
    var s1 := RemoveFolder(os, s, Backup);
    var s2 := DownloadFrom(mc, os, s1, todo, 0).0;
    var k := BeforeFile(mc, os, s, todo, i).calls;
    RemoveFolderGrows(os, s, Backup);
    RemoveFolderCounts(os, s, Backup);
    DownloadFromGrows(mc, os, s1, todo, 0);
    InstallFromGrows(mc, os, Called(s2), Paths(todo)[..i], 0);
    RemoveFolderAgrees(os, other, s, Backup);
    hide RemoveFolder, DownloadFrom, InstallFrom;
    DownloadAgrees(mc, os, other, k, s1, todo);
    InstallAgrees(mc, os, other, k, Called(s2), Paths(todo)[..i]);
  }

  lemma RemoveFolderCounts(os: Os, s: Run, w: Place)
    ensures RemoveFolder(os, s, w).calls == s.calls + 1
  {
  }

  lemma RemoveFolderAgrees(os: Os, other: Os, s: Run, w: Place)
    requires other.reply(s.calls) == os.reply(s.calls)
    ensures RemoveFolder(other, s, w) == RemoveFolder(os, s, w)
  {
  }

  /** Installing the first files and then the rest. */
  lemma {:induction false} InstallSplit(mc: Machine, os: Os, s: Run, paths: seq<string>, i: nat, j: nat)
    requires j <= i <= |paths| && InstallFrom(mc, os, s, paths[..i], j).1.None?
    ensures InstallFrom(mc, os, s, paths, j) == InstallFrom(mc, os, InstallFrom(mc, os, s, paths[..i], j).0, paths, i)
    decreases i - j
  {
    if j < i {
      assert paths[..i][j] == paths[j];
      hide InstallFile;
      InstallSplit(mc, os, InstallFile(mc, os, s, paths[j]).0, paths, i, j + 1);
    }
  }

  lemma WorkingDownload(mc: Machine, os: Os, s: Run, m: Manifest, healthy: Os)
    requires SeparatePlaces(mc, m.entries) && HealthyRun(mc, healthy, m) && os.served == healthy.served
    requires forall k: nat :: k > s.calls ==> os.reply(k).Works?
    ensures var todo, s1 := Pending(mc, s.disk.app, m.entries), RemoveFolder(os, s, Backup);
      var (t, ok) := DownloadFrom(mc, os, s1, todo, 0);
      && ok && t.calls > s.calls && t.disk.app == s.disk.app && t.disk.backup == s1.disk.backup
      && (os.reply(s.calls).Works? ==> t.disk.backup == map[])
      && (forall j :: 0 <= j < |todo| ==> Downloaded(mc, t.disk, todo[j]))
  {
    hide Pending, SeparatePlaces, DownloadFrom, RemoveFolder, Downloaded, NormalPaths, Paths, Distinct;
    var todo := Pending(mc, s.disk.app, m.entries);
    PendingFits(mc, s.disk.app, m.entries);
    PendingServed(mc, healthy, s.disk.app, m);
    hide FitsManifest, HealthyRun;
    var s1 := RemoveFolder(os, s, Backup);
    RemovedBackup(os, s);
    DownloadAll(mc, os, s1, todo, 0);
  }

  lemma RemovedBackup(os: Os, s: Run)
    ensures var t := RemoveFolder(os, s, Backup);
      t.calls == s.calls + 1 && t.disk.app == s.disk.app && (os.reply(s.calls).Works? ==> t.disk.backup == map[])
  {
  }

  /** With the server's files, all replies but that to the removal of the backup folder work:
      every file can be reached. */
  lemma WorkingComesTo(mc: Machine, os: Os, s: Run, m: Manifest, healthy: Os, i: nat)
    requires SeparatePlaces(mc, m.entries) && HealthyRun(mc, healthy, m) && os.served == healthy.served
    requires forall k: nat :: k > s.calls ==> os.reply(k).Works?
    requires mc.Overwrites() || os.reply(s.calls).Works?
    requires i <= |Pending(mc, s.disk.app, m.entries)|
    ensures var todo := Pending(mc, s.disk.app, m.entries);
      var t := BeforeFile(mc, os, s, todo, i);
      && ComesTo(mc, os, s, todo, i)
      && (forall q :: q !in Paths(todo)[..i] ==>
           && At(t.disk.app, q) == At(s.disk.app, q)
           && At(t.disk.backup, q) == At(RemoveFolder(os, s, Backup).disk.backup, q))
      && (forall j :: i <= j < |todo| ==> Downloaded(mc, t.disk, todo[j]))
  {
    var todo := Pending(mc, s.disk.app, m.entries);
    var paths := Paths(todo);
    WorkingDownload(mc, os, s, m, healthy);
    PendingFits(mc, s.disk.app, m.entries);
    var s2 := DownloadFrom(mc, os, RemoveFolder(os, s, Backup), todo, 0).0;
    FrontDistinct(paths, i);
    hide DownloadFrom, Pending, SeparatePlaces, HealthyRun, RemoveFolder, NormalPaths;
    forall j | 0 <= j < i
      ensures paths[..i][j] in s2.disk.update && (mc.Overwrites() || paths[..i][j] !in s2.disk.backup)
    {
      assert paths[..i][j] == todo[j].path && Downloaded(mc, s2.disk, todo[j]);
    }
    InstallWorks(mc, os, Called(s2), paths[..i], 0);
    InstallSlots(mc, os, Called(s2), paths[..i], 0);
    AfterFiles(mc, s2.disk, BeforeFile(mc, os, s, todo, i).disk, todo, i);
  }

  lemma AfterFiles(mc: Machine, d: Disk, e: Disk, todo: seq<Entry>, i: nat)
    requires i <= |todo| && Distinct(Paths(todo)) && OnlyAt(d, e, PathSet(Paths(todo)[..i][0..]))
    requires forall j :: 0 <= j < |todo| ==> Downloaded(mc, d, todo[j])
    ensures forall q :: q !in Paths(todo)[..i] ==> At(e.app, q) == At(d.app, q) && At(e.backup, q) == At(d.backup, q)
    ensures forall j :: i <= j < |todo| ==> Downloaded(mc, e, todo[j])
  {
    var paths := Paths(todo);
    assert paths[..i][0..] == paths[..i];
    forall q | q !in paths[..i] ensures SlotAt(e, q) == SlotAt(d, q) {}
    forall j | i <= j < |todo| ensures Downloaded(mc, e, todo[j]) {
      DistinctTail(paths, i, j);
      assert SlotAt(e, paths[j]) == SlotAt(d, paths[j]);
      assert At(e.update, paths[j]) == At(d.update, paths[j]);
    }
  }

  lemma FrontDistinct(paths: seq<string>, i: nat)
    requires Distinct(paths) && i <= |paths|
    ensures Distinct(paths[..i])
  {
  }

  lemma DistinctTail(paths: seq<string>, i: nat, j: nat)
    requires Distinct(paths) && i <= j < |paths|
    ensures paths[j] !in paths[..i]
  {
  }

  // ----- A left-over backup that is put back -----

  /** Refuses the removal of old backups, the folder for the file that call `n` comes to, and
      the first rename that rolls it back. */
  function PutBackOs(os: Os, n: nat): Os {
    Os((k: nat) => if k == 1 || k == n || k == n + 1 then Refuses else Works, os.served, os.listing)
  }

  lemma BackupPutBack(mc: Machine, os: Os, s: Run, p: string)
    requires mc.Overwrites() && Ask(os, s).Refuses? && os.reply(s.calls + 1).Works?
    requires p in s.disk.backup
    ensures SlotAt(RollbackFile(mc, os, s, p).disk, p)
         == Slot(At(s.disk.backup, p), At(s.disk.update, p), None)
  {
    RenameSlot(mc, os, s, App, Update, p);
    var s1 := Rename(mc, os, s, App, Update, p).0;
    RenameSlot(mc, os, s1, Backup, App, p);
    hide Rename;
  }

  lemma RollbackPutsBack(mc: Machine, os: Os, s: Run, paths: seq<string>, i: nat)
    requires mc.Overwrites() && Ask(os, s).Refuses? && os.reply(s.calls + 1).Works?
    requires i < |paths| && Distinct(paths) && paths[i] in s.disk.backup
    ensures SlotAt(Rollback(mc, os, s, paths, i + 1).disk, paths[i])
         == Slot(At(s.disk.backup, paths[i]), At(s.disk.update, paths[i]), None)
  {
    var s1 := RollbackFile(mc, os, s, paths[i]);
    BackupPutBack(mc, os, s, paths[i]);
    RollbackSlots(mc, os, s1, paths, i);
    DistinctTail(paths, i, i);
    hide RollbackFile;
    assert paths[i] !in PathSet(paths[..i]);
    assert SlotAt(Rollback(mc, os, s1, paths, i).disk, paths[i]) == SlotAt(s1.disk, paths[i]);
  }

  /** What the run does once its `i`-th file cannot be installed. */
  lemma StoppedAt(mc: Machine, os: Os, s: Run, m: Manifest, anchor: bool, i: nat)
    requires i < |Pending(mc, s.disk.app, m.entries)| && ComesTo(mc, os, s, Pending(mc, s.disk.app, m.entries), i)
    requires var todo := Pending(mc, s.disk.app, m.entries);
      InstallFile(mc, os, BeforeFile(mc, os, s, todo, i), Paths(todo)[i]).1.Some?
    ensures var todo := Pending(mc, s.disk.app, m.entries);
      ApplyManifest(mc, os, s, m, anchor)
      == Rollback(mc, os, InstallFile(mc, os, BeforeFile(mc, os, s, todo, i), Paths(todo)[i]).0, Paths(todo), i + 1)
  {
    hide DownloadFrom, RemoveFolder, Pending, InstallFile, Rollback, CleanupObsolete, FinalCleanup, NormalPaths,
      ParseInt;
    var todo := Pending(mc, s.disk.app, m.entries);
    var t := BeforeFile(mc, os, s, todo, i);
    var s2 := DownloadFrom(mc, os, RemoveFolder(os, s, Backup), todo, 0).0;
    var (u, stage) := InstallFile(mc, os, t, Paths(todo)[i]);
    assert InstallFrom(mc, os, t, Paths(todo), i) == (u, Some((i, stage.value)));
    InstallSplit(mc, os, Called(s2), Paths(todo), i, 0);
    hide InstallFrom;
  }

  /** The folder for the `i`-th backup is refused. */
  lemma StoppedRun(mc: Machine, os: Os, s: Run, m: Manifest, anchor: bool, i: nat)
    requires i < |Pending(mc, s.disk.app, m.entries)| && ComesTo(mc, os, s, Pending(mc, s.disk.app, m.entries), i)
    requires Ask(os, BeforeFile(mc, os, s, Pending(mc, s.disk.app, m.entries), i)).Refuses?
    ensures var todo := Pending(mc, s.disk.app, m.entries);
      ApplyManifest(mc, os, s, m, anchor)
      == Rollback(mc, os, Called(BeforeFile(mc, os, s, todo, i)), Paths(todo), i + 1)
  {
    hide ApplyManifest, BeforeFile, ComesTo, Pending, Rollback;
    StoppedAt(mc, os, s, m, anchor, i);
  }

  /** Replies that stop the run at file `i` as `PutBackOs` does; `t` is the run by then. */
  lemma StoppingReplies(mc: Machine, d: Disk, m: Manifest, healthy: Os, i: nat) returns (os: Os, t: Run)
    requires SeparatePlaces(mc, m.entries) && HealthyRun(mc, healthy, m)
    requires mc.Overwrites() && i < |Pending(mc, d.app, m.entries)|
    ensures os.reply(0).Works?
    ensures var todo, s := Pending(mc, d.app, m.entries), Fetched(d);
      var p := Paths(todo)[i];
      && ComesTo(mc, os, s, todo, i) && BeforeFile(mc, os, s, todo, i) == t
      && os.reply(t.calls).Refuses? && os.reply(t.calls + 1).Refuses? && os.reply(t.calls + 2).Works?
      && At(t.disk.app, p) == At(d.app, p) && At(t.disk.backup, p) == At(d.backup, p)
      && Downloaded(mc, t.disk, todo[i])
  {
    var todo, s := Pending(mc, d.app, m.entries), Fetched(d);
    var calm := Os((k: nat) => if k == 1 then Refuses else Works, healthy.served, healthy.listing);
    assert s.calls == 1 && s.disk == d;
    hide Fetched;
    WorkingComesTo(mc, calm, s, m, healthy, i);
    t := BeforeFile(mc, calm, s, todo, i);
    RefusedRemoval(calm, s);
    PendingFits(mc, d.app, m.entries);
    DistinctTail(Paths(todo), i, i);
    hide Pending, BeforeFile, ComesTo, SeparatePlaces, HealthyRun, NormalPaths, RemoveFolder, Downloaded, Distinct;
    BeforeFileLater(mc, calm, s, todo, i);
    os := PutBackOs(healthy, t.calls);
    BeforeFileAgrees(mc, calm, os, s, todo, i);
  }

  lemma BeforeFileLater(mc: Machine, os: Os, s: Run, todo: seq<Entry>, i: nat)
    requires i <= |todo| && ComesTo(mc, os, s, todo, i)
    ensures BeforeFile(mc, os, s, todo, i).calls > s.calls
  {
    BeforeFileAgrees(mc, os, os, s, todo, i);
  }

  /** After such a stop the old file is gone: its place has the left-over backup. */
  lemma StoppedRunLoses(mc: Machine, os: Os, s: Run, m: Manifest, anchor: bool, i: nat, t: Run)
    requires mc.Overwrites() && SeparatePlaces(mc, m.entries) && i < |Pending(mc, s.disk.app, m.entries)|
    requires ComesTo(mc, os, s, Pending(mc, s.disk.app, m.entries), i)
    requires BeforeFile(mc, os, s, Pending(mc, s.disk.app, m.entries), i) == t
    requires os.reply(t.calls).Refuses? && os.reply(t.calls + 1).Refuses? && os.reply(t.calls + 2).Works?
    requires Downloaded(mc, t.disk, Pending(mc, s.disk.app, m.entries)[i])
    requires var p := Paths(Pending(mc, s.disk.app, m.entries))[i];
      p in s.disk.app && p in t.disk.backup && t.disk.backup[p] != s.disk.app[p]
    ensures var p := Paths(Pending(mc, s.disk.app, m.entries))[i];
      !Conserved(ApplyManifest(mc, os, s, m, anchor).disk, p, s.disk.app[p])
  {
    hide ApplyManifest, BeforeFile, ComesTo, SeparatePlaces, NormalPaths, Rollback, Norm, NameOf, Pending, Downloaded,
      Distinct, Conserved;
    var todo := Pending(mc, s.disk.app, m.entries);
    var p := Paths(todo)[i];
    PendingFits(mc, s.disk.app, m.entries);
    StoppedRun(mc, os, s, m, anchor, i);
    PendingUpdateDiffers(mc, s.disk.app, m.entries, t.disk, i);
    RollbackPutsBack(mc, os, Called(t), Paths(todo), i);
    PutBackLoses(ApplyManifest(mc, os, s, m, anchor).disk, p, s.disk.app[p]);
  }

  lemma PutBackLoses(e: Disk, p: string, c: Content)
    requires At(e.app, p).Some? && At(e.app, p) != Some(c) && At(e.update, p) != Some(c) && At(e.backup, p) == None
    ensures !Conserved(e, p, c)
  {
    hide Norm, NameOf;
  }

  lemma StaleBackupLoses(mc: Machine, d: Disk, text: string, m: Manifest, healthy: Os, i: nat) returns (os: Os)
    requires Parse(text) == Some(m) && SeparatePlaces(mc, m.entries) && HealthyRun(mc, healthy, m) && IsUpdate(mc, d, m)
    requires mc.Overwrites() && i < |Pending(mc, d.app, m.entries)|
    requires var p := Paths(Pending(mc, d.app, m.entries))[i];
      p in d.app && p in d.backup && d.backup[p] != d.app[p]
    ensures var p := Paths(Pending(mc, d.app, m.entries))[i];
      !Conserved(CheckForUpdates(mc, os, Start(d), text).disk, p, d.app[p])
  {
    hide Parse, IsUpdate, ApplyManifest, BeforeFile, ComesTo, SeparatePlaces, HealthyRun, Pending, Downloaded,
      Conserved;
    var t: Run;
    os, t := StoppingReplies(mc, d, m, healthy, i);
    RunIs(mc, os, d, text);
    StoppedRunLoses(mc, os, Fetched(d), m, Anchored(mc, d.app), i, t);
    hide CheckForUpdates, Fetched;
  }

  lemma RefusedRemoval(os: Os, s: Run)
    requires Ask(os, s).Refuses?
    ensures RemoveFolder(os, s, Backup).disk == s.disk
  {
  }

  /** A verified download differs from the file that was not accepted in its place. */
  lemma PendingUpdateDiffers(mc: Machine, app: Files, entries: seq<Entry>, e: Disk, i: nat)
    requires i < |Pending(mc, app, entries)| && Downloaded(mc, e, Pending(mc, app, entries)[i])
    ensures var p := Paths(Pending(mc, app, entries))[i];
      p in e.update && (p in app ==> e.update[p] != app[p])
  {
    var todo := Pending(mc, app, entries);
    hide Pending, Norm, NameOf;
    assert todo[i] in todo;
    var j := PendingFrom(mc, app, entries, todo[i]);
  }

  // ----- Two obsolete files with one backup -----

  /** A run that comes past its last file sweeps and cleans up. */
  lemma FullRun(mc: Machine, os: Os, s: Run, m: Manifest, anchor: bool)
    requires var todo := Pending(mc, s.disk.app, m.entries); ComesTo(mc, os, s, todo, |todo|)
    ensures var todo := Pending(mc, s.disk.app, m.entries);
      ApplyManifest(mc, os, s, m, anchor)
      == FinalCleanup(os,
                      CleanupObsolete(mc, os, BeforeFile(mc, os, s, todo, |todo|), NormalPaths(mc, m.entries), anchor),
                      VersionOf(m))
  {
    var todo := Pending(mc, s.disk.app, m.entries);
    assert Paths(todo)[..|todo|] == Paths(todo);
    hide DownloadFrom, RemoveFolder, Pending, InstallFrom, CleanupObsolete, FinalCleanup, NormalPaths, ParseInt;
  }

  lemma ObsoleteIsNotPending(mc: Machine, app: Files, m: Manifest, d: Disk, q: string)
    requires SeparatePlaces(mc, m.entries) && Obsolete(mc, ExpectedKeys(mc, NormalPaths(mc, m.entries)), d, q)
    ensures q !in Paths(Pending(mc, app, m.entries))
  {
    PendingFits(mc, app, m.entries);
    hide Pending, Norm, NameOf, NormalPaths, IsExpected, ExpectedKeys, SeparatePlaces;
    if q in Paths(Pending(mc, app, m.entries)) { ListedIsExpected(mc, NormalPaths(mc, m.entries), q); }
  }

  lemma SweptRunLoses(mc: Machine, os: Os, s: Run, m: Manifest, t: Run, q: string, r: string, left: Content)
    requires var todo := Pending(mc, s.disk.app, m.entries);
      ComesTo(mc, os, s, todo, |todo|) && BeforeFile(mc, os, s, todo, |todo|) == t
    requires SweepArmed(mc, NormalPaths(mc, m.entries), true) && q != r && Norm(q) == Norm(r)
    requires Obsolete(mc, ExpectedKeys(mc, NormalPaths(mc, m.entries)), t.disk, q)
    requires Obsolete(mc, ExpectedKeys(mc, NormalPaths(mc, m.entries)), t.disk, r)
    requires At(t.disk.backup, q) == None && left == t.disk.app[q] + [0]
    requires os.listing(t.disk.app) == [q, r] && os == LosingOs(t.calls, os.served, os.listing, left)
    ensures !Conserved(ApplyManifest(mc, os, s, m, true).disk, q, t.disk.app[q])
  {
    hide BeforeFile, ComesTo, Pending, ApplyManifest, CleanupObsolete, FinalCleanup, NormalPaths, SweepArmed,
      IsExpected, ExpectedKeys, Norm, NameOf;
    FullRun(mc, os, s, m, true);
    CollidingNamesLose(mc, os.served, os.listing, t, NormalPaths(mc, m.entries), q, r);
    var u := CleanupObsolete(mc, os, t, NormalPaths(mc, m.entries), true);
    FinalCleanupKeeps(os, u, VersionOf(m));
  }

  /** Replies that bring the run to its sweep and then break it off; `t` is the run by then. */
  lemma SweepingReplies(mc: Machine, s: Run, m: Manifest, healthy: Os, q: string, r: string, left: Content)
    returns (os: Os, t: Run)
    requires SeparatePlaces(mc, m.entries) && HealthyRun(mc, healthy, m) && s.calls == 1
    ensures var todo := Pending(mc, s.disk.app, m.entries);
      && ComesTo(mc, os, s, todo, |todo|) && BeforeFile(mc, os, s, todo, |todo|) == t && t.calls > 0
      && os.listing(t.disk.app) == [q, r] && os == LosingOs(t.calls, os.served, os.listing, left)
      && (forall p :: p !in Paths(todo) ==> At(t.disk.app, p) == At(s.disk.app, p) && At(t.disk.backup, p) == None)
  {
    hide BeforeFile, ComesTo, SeparatePlaces, HealthyRun, Pending, Norm, NameOf, RemoveFolder, Downloaded;
    var todo := Pending(mc, s.disk.app, m.entries);
    var calm := Os((k: nat) => Works, healthy.served, _ => [q, r]);
    WorkingComesTo(mc, calm, s, m, healthy, |todo|);
    t := BeforeFile(mc, calm, s, todo, |todo|);
    os := LosingOs(t.calls, healthy.served, calm.listing, left);
    BeforeFileAgrees(mc, calm, os, s, todo, |todo|);
    assert Paths(todo)[..|todo|] == Paths(todo);
    RemovedBackup(calm, s);
  }

  lemma CollidingRunLoses(mc: Machine, d: Disk, text: string, m: Manifest, healthy: Os, q: string, r: string)
    returns (os: Os)
    requires Parse(text) == Some(m) && SeparatePlaces(mc, m.entries) && HealthyRun(mc, healthy, m) && IsUpdate(mc, d, m)
    requires SweepArmed(mc, NormalPaths(mc, m.entries), Anchored(mc, d.app)) && q != r && Norm(q) == Norm(r)
    requires Obsolete(mc, ExpectedKeys(mc, NormalPaths(mc, m.entries)), d, q)
    requires Obsolete(mc, ExpectedKeys(mc, NormalPaths(mc, m.entries)), d, r)
    ensures !Conserved(CheckForUpdates(mc, os, Start(d), text).disk, q, d.app[q])
  {
    var s, left := Fetched(d), d.app[q] + [0];
    assert s.disk == d && s.calls == 1 && Anchored(mc, d.app);
    hide Fetched, Parse, IsUpdate, ApplyManifest, BeforeFile, ComesTo, SeparatePlaces, HealthyRun, Pending, Conserved,
      NormalPaths, SweepArmed, IsExpected, ExpectedKeys, Norm, NameOf;
    var t: Run;
    os, t := SweepingReplies(mc, s, m, healthy, q, r, left);
    ObsoleteIsNotPending(mc, d.app, m, d, q);
    ObsoleteIsNotPending(mc, d.app, m, d, r);
    assert At(t.disk.app, q) == At(d.app, q) && At(t.disk.app, r) == At(d.app, r);
    SweptRunLoses(mc, os, s, m, t, q, r, left);
    RunProceeds(mc, os, d, text, m);
    RunIs(mc, os, d, text);
    hide CheckForUpdates, Proceeds, LosingOs;
  }

  lemma RunProceeds(mc: Machine, os: Os, d: Disk, text: string, m: Manifest)
    requires Parse(text) == Some(m) && IsUpdate(mc, d, m) && os.reply(0).Works?
    ensures Proceeds(mc, os, d, text)
  {
    hide Parse, IsUpdate;
  }

  // ----- The exact condition -----

  /** Of a manifest whose files the server has, a run conserves every file of the application
      folder under all replies, kills and visiting orders, exactly when it has nothing to do
      or `LosesNothing` holds at its start. */
  lemma RunConservesIff(mc: Machine, d: Disk, text: string, m: Manifest, healthy: Os)
    requires Parse(text) == Some(m) && SeparatePlaces(mc, m.entries) && HealthyRun(mc, healthy, m)
    ensures (forall os: Os, q :: q in d.app ==> Conserved(CheckForUpdates(mc, os, Start(d), text).disk, q, d.app[q]))
            <==> (IsUpdate(mc, d, m) ==> LosesNothing(mc, d, m))
  {
    if IsUpdate(mc, d, m) ==> LosesNothing(mc, d, m) {
      forall os: Os, q | q in d.app ensures Conserved(CheckForUpdates(mc, os, Start(d), text).disk, q, d.app[q]) {
        RunConserves(mc, os, d, text, m, q);
      }
    } else {
      RunCanLose(mc, d, text, m, healthy);
    }
  }

  lemma RunConserves(mc: Machine, os: Os, d: Disk, text: string, m: Manifest, q: string)
    requires Parse(text) == Some(m) && SeparatePlaces(mc, m.entries)
    requires IsUpdate(mc, d, m) ==> LosesNothing(mc, d, m)
    requires q in d.app
    ensures Conserved(CheckForUpdates(mc, os, Start(d), text).disk, q, d.app[q])
  {
    hide Parse, IsUpdate, ApplyManifest, SeparatePlaces, LosesNothing, Norm, NameOf;
    RunIs(mc, os, d, text);
    if IsUpdate(mc, d, m) { ApplyConserves(mc, os, Fetched(d), m, q); }
    hide CheckForUpdates, Fetched;
  }

  lemma RunCanLose(mc: Machine, d: Disk, text: string, m: Manifest, healthy: Os)
    requires Parse(text) == Some(m) && SeparatePlaces(mc, m.entries) && HealthyRun(mc, healthy, m)
    requires IsUpdate(mc, d, m) && !LosesNothing(mc, d, m)
    ensures exists os: Os, q :: q in d.app && !Conserved(CheckForUpdates(mc, os, Start(d), text).disk, q, d.app[q])
  {
    hide Parse, IsUpdate, CheckForUpdates, SeparatePlaces, HealthyRun, Conserved, Pending, NormalPaths, Norm, NameOf,
      IsExpected, ExpectedKeys, SweepArmed;
    var manifestPaths, paths := NormalPaths(mc, m.entries), Paths(Pending(mc, d.app, m.entries));
    if mc.Overwrites() && !NoOtherBackup(d, paths) {
      var i :| 0 <= i < |paths| && paths[i] in d.app && paths[i] in d.backup && d.backup[paths[i]] != d.app[paths[i]];
      var os := StaleBackupLoses(mc, d, text, m, healthy, i);
    } else {
      var expected := ExpectedKeys(mc, manifestPaths);
      var q, r :| Obsolete(mc, expected, d, q) && Obsolete(mc, expected, d, r) && Norm(q) == Norm(r) && q != r;
      var os := CollidingRunLoses(mc, d, text, m, healthy, q, r);
    }
  }
}
