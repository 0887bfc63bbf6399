/** What becomes of an old file over any number of runs on one manifest: it is still there, or
    its accepted successor is, in its place or at least downloaded. */
module UpdateSuccession {
  import opened Wrappers
  import opened ManifestPath
  import opened VersionNumber
  import opened Manifest
  import opened UpdateDisk
  import opened UpdateTransaction
  import opened UpdateSweep
  import opened UpdateRuns
  import opened UpdateKills
  import opened UpdateConservation
  import opened UpdateSafety

  // ----- Manifest files -----

  predicate Accepted(mc: Machine, c: Option<Content>, signature: string) {
    c.Some? && mc.accepts(c.value, signature)
  }

  /** The old file of entry `e` is kept or replaced, or its successor is downloaded. */
  predicate HasSuccessor(mc: Machine, e: Entry, was: Option<Content>, now: Slot) {
    now.app == was || Accepted(mc, now.app, e.signature) || Accepted(mc, now.update, e.signature)
  }

  ghost predicate Succeeds(mc: Machine, m: Manifest, d: Disk, now: Disk) {
    forall i :: 0 <= i < |m.entries| && NameOf(mc, m.entries[i].path) in d.app ==>
      HasSuccessor(mc, m.entries[i], At(d.app, NameOf(mc, m.entries[i].path)),
                   SlotAt(now, NameOf(mc, m.entries[i].path)))
  }

  lemma InstalledIsAccepted(mc: Machine, app: Files, e: Entry)
    ensures Installed(mc, app, e) <==> Accepted(mc, At(app, NameOf(mc, e.path)), e.signature)
  {
  }

  // ----- A rename that does not replace its target -----

  predicate Replaced(mc: Machine, x: Slot, signature: string) {
    Accepted(mc, x.app, signature) || Accepted(mc, x.update, signature)
  }

  lemma RollbackFileKeepsReplaced(mc: Machine, os: Os, s: Run, p: string, q: string, signature: string)
    requires !mc.Overwrites() && Replaced(mc, SlotAt(s.disk, q), signature)
    ensures Replaced(mc, SlotAt(RollbackFile(mc, os, s, p).disk, q), signature)
  {
    RenameSlot(mc, os, s, App, Update, p);
    var s1 := Rename(mc, os, s, App, Update, p).0;
    RenameSlot(mc, os, s1, Backup, App, p);
    hide Rename, SlotAt;
  }

  lemma {:induction false} RollbackKeepsReplaced(mc: Machine, os: Os, s: Run, paths: seq<string>, n: nat, q: string,
                                                 signature: string)
    requires n <= |paths| && !mc.Overwrites() && Replaced(mc, SlotAt(s.disk, q), signature)
    ensures Replaced(mc, SlotAt(Rollback(mc, os, s, paths, n).disk, q), signature)
    decreases n
  {
    if n > 0 {
      hide RollbackFile, Replaced;
      RollbackFileKeepsReplaced(mc, os, s, paths[n - 1], q, signature);
      RollbackKeepsReplaced(mc, os, RollbackFile(mc, os, s, paths[n - 1]), paths, n - 1, q, signature);
    }
  }

  lemma InstallKeepsReplaced(mc: Machine, os: Os, s: Run, paths: seq<string>, q: string, signature: string)
    requires Distinct(paths) && q in paths && Accepted(mc, At(s.disk.update, q), signature)
    ensures Replaced(mc, SlotAt(InstallFrom(mc, os, s, paths, 0).0.disk, q), signature)
  {
    InstallSlots(mc, os, s, paths, 0);
    hide InstallFrom;
    var j :| 0 <= j < |paths| && paths[j] == q;
  }

  lemma TransactionKeepsReplaced(mc: Machine, os: Os, s: Run, paths: seq<string>, manifestPaths: seq<string>,
                                 anchor: bool, q: string, signature: string)
    requires !mc.Overwrites() && FitsManifest(mc, paths, manifestPaths)
    requires q in paths && Accepted(mc, At(s.disk.update, q), signature)
    ensures Replaced(mc, SlotAt(PerformUpdate(mc, os, s, paths, manifestPaths, anchor).0.disk, q), signature)
  {
    var (s1, folder) := MkdirP(os, s);
    if folder {
      var (s2, stopped) := InstallFrom(mc, os, s1, paths, 0);
      InstallKeepsReplaced(mc, os, s1, paths, q, signature);
      hide InstallFrom, Rollback, CleanupObsolete, Norm, NameOf;
      if stopped.Some? {
        RollbackKeepsReplaced(mc, os, s2, paths, stopped.value.0 + 1, q, signature);
      } else {
        CleanupKeepsSaved(mc, os, s2, manifestPaths, anchor, q);
      }
    }
  }

  // ----- One run -----

  lemma {:induction false} DownloadKeepsAccepted(mc: Machine, os: Os, s: Run, todo: seq<Entry>, i: nat, j: nat)
    requires i <= |todo| && j < |todo| && Distinct(Paths(todo)) && Downloaded(mc, s.disk, todo[j])
    ensures Downloaded(mc, DownloadFrom(mc, os, s, todo, i).0.disk, todo[j])
    decreases |todo| - i
  {
    if i < |todo| {
      DownloadOne(mc, os, s, todo[i]);
      var (s1, ok) := DownloadFile(mc, os, s, todo[i]);
      assert i != j ==> Paths(todo)[i] != Paths(todo)[j];
      assert i == j ==> s1 == s;
      hide DownloadFile;
      assert At(s1.disk.update, todo[j].path) == At(s.disk.update, todo[j].path);
      if ok { DownloadKeepsAccepted(mc, os, s1, todo, i + 1, j); }
    }
  }

  /** A transaction leaves alone what it does not install, as far as the manifest lists it. */
  lemma TransactionSpares(mc: Machine, os: Os, s: Run, paths: seq<string>, manifestPaths: seq<string>,
                          anchor: bool, q: string)
    requires FitsManifest(mc, paths, manifestPaths) && q in manifestPaths && q !in paths
    ensures At(PerformUpdate(mc, os, s, paths, manifestPaths, anchor).0.disk.app, q) == At(s.disk.app, q)
  {
    var (s1, folder) := MkdirP(os, s);
    if folder {
      var (s2, stopped) := InstallFrom(mc, os, s1, paths, 0);
      InstallSlots(mc, os, s1, paths, 0);
      assert paths[0..] == paths;
      hide InstallFrom, Rollback, CleanupObsolete, Norm, NameOf;
      assert q !in PathSet(paths);
      assert SlotAt(s2.disk, q) == SlotAt(s1.disk, q);
      if stopped.Some? {
        var n := stopped.value.0 + 1;
        RollbackSlots(mc, os, s2, paths, n);
        assert q !in PathSet(paths[..n]);
        assert SlotAt(Rollback(mc, os, s2, paths, n).disk, q) == SlotAt(s2.disk, q);
      } else {
        CleanupKeepsSaved(mc, os, s2, manifestPaths, anchor, q);
        assert SlotAt(CleanupObsolete(mc, os, s2, manifestPaths, anchor).disk, q) == SlotAt(s2.disk, q);
      }
    }
  }

  lemma InstalledNotPending(mc: Machine, app: Files, m: Manifest, i: nat)
    requires SeparatePlaces(mc, m.entries) && i < |m.entries| && Installed(mc, app, m.entries[i])
    ensures NameOf(mc, m.entries[i].path) !in Paths(Pending(mc, app, m.entries))
  {
    var todo := Pending(mc, app, m.entries);
    hide Pending, Norm, NameOf, SeparatePlaces, Installed;
    if NameOf(mc, m.entries[i].path) in Paths(todo) {
      var j := PendingAt(mc, app, m.entries, i);
      assert todo[j] in todo;
      var k := PendingFrom(mc, app, m.entries, todo[j]);
      SamePlaceSameEntry(mc, m.entries, i, k);
    }
  }

  lemma SamePlaceSameEntry(mc: Machine, entries: seq<Entry>, i: nat, k: nat)
    requires SeparatePlaces(mc, entries) && i < |entries| && k < |entries|
    requires NameOf(mc, entries[i].path) == NameOf(mc, entries[k].path)
    ensures i == k
  {
    DistinctPlaces(mc, entries);
    assert NormalPaths(mc, entries)[i] == NormalPaths(mc, entries)[k];
  }

  /** An installed manifest file stays installed, whatever fails. */
  lemma ApplyKeepsInstalled(mc: Machine, os: Os, s: Run, m: Manifest, anchor: bool, i: nat)
    requires SeparatePlaces(mc, m.entries) && i < |m.entries| && Installed(mc, s.disk.app, m.entries[i])
    ensures var q := NameOf(mc, m.entries[i].path);
      At(ApplyManifest(mc, os, s, m, anchor).disk.app, q) == At(s.disk.app, q)
  {
    hide DownloadFrom, Pending, NormalPaths, Paths, PerformUpdate, SeparatePlaces, Downloaded, ParseInt, RemoveFolder,
      FinalCleanup, Norm, NameOf, Installed, Distinct;
    var todo, manifestPaths := Pending(mc, s.disk.app, m.entries), NormalPaths(mc, m.entries);
    var q := NameOf(mc, m.entries[i].path);
    PendingFits(mc, s.disk.app, m.entries);
    InstalledNotPending(mc, s.disk.app, m, i);
    assert q == manifestPaths[i] && q in manifestPaths;
    var s1 := RemoveFolder(os, s, Backup);
    RemovedBackup(os, s);
    DownloadAll(mc, os, s1, todo, 0);
    var (s2, downloaded) := DownloadFrom(mc, os, s1, todo, 0);
    hide FitsManifest;
    if downloaded {
      TransactionSpares(mc, os, s2, Paths(todo), manifestPaths, anchor, q);
      FinalCleanupKeeps(os, PerformUpdate(mc, os, s2, Paths(todo), manifestPaths, anchor).0, ParseInt(m.version));
    }
  }

  /** A pending file under a rename that does not replace its target. */
  lemma ApplyKeepsSuccessor(mc: Machine, os: Os, s: Run, m: Manifest, anchor: bool, i: nat, was: Option<Content>)
    requires SeparatePlaces(mc, m.entries) && i < |m.entries| && !mc.Overwrites()
    requires !Installed(mc, s.disk.app, m.entries[i])
    requires HasSuccessor(mc, m.entries[i], was, SlotAt(s.disk, NameOf(mc, m.entries[i].path)))
    ensures HasSuccessor(mc, m.entries[i], was,
                         SlotAt(ApplyManifest(mc, os, s, m, anchor).disk, NameOf(mc, m.entries[i].path)))
  {
    hide DownloadFrom, Pending, NormalPaths, PerformUpdate, SeparatePlaces, ParseInt, RemoveFolder, FinalCleanup, Norm,
      NameOf, Installed, Distinct;
    var e, todo, manifestPaths := m.entries[i], Pending(mc, s.disk.app, m.entries), NormalPaths(mc, m.entries);
    var q := NameOf(mc, e.path);
    PendingFits(mc, s.disk.app, m.entries);
    PendingHas(mc, s.disk.app, m.entries, i);
    PathIn(todo, Placed(mc, e));
    var j :| 0 <= j < |todo| && todo[j] == Placed(mc, e);
    var s1 := RemoveFolder(os, s, Backup);
    RemovedBackup(os, s);
    RemovalKeepsUpdate(os, s);
    DownloadAll(mc, os, s1, todo, 0);
    var (s2, downloaded) := DownloadFrom(mc, os, s1, todo, 0);
    if Downloaded(mc, s1.disk, todo[j]) { DownloadKeepsAccepted(mc, os, s1, todo, 0, j); }
    if downloaded {
      assert Accepted(mc, At(s2.disk.update, q), e.signature);
      TransactionKeepsReplaced(mc, os, s2, Paths(todo), manifestPaths, anchor, q, e.signature);
      TransactionInstallsAll(mc, os, s2, s.disk.app, m.entries, anchor);
      var (s3, applied) := PerformUpdate(mc, os, s2, Paths(todo), manifestPaths, anchor);
      FinalCleanupKeeps(os, s3, ParseInt(m.version));
      if applied { InstalledIsAccepted(mc, s3.disk.app, e); }
    }
  }

  lemma RemovalKeepsUpdate(os: Os, s: Run)
    ensures RemoveFolder(os, s, Backup).disk.update == s.disk.update
  {
  }

  // ----- Any number of runs -----

  /** What each run keeps: every old file has a successor, which under a replacing rename has
      to be installed. */
  ghost predicate KeptSoFar(mc: Machine, m: Manifest, d: Disk, now: Disk) {
    Succeeds(mc, m, d, now) && (mc.Overwrites() ==> NonePending(mc, m, d, now))
  }

  /** No file that `d` has is among those to install. */
  ghost predicate NonePending(mc: Machine, m: Manifest, d: Disk, now: Disk) {
    forall i :: 0 <= i < |m.entries| && NameOf(mc, m.entries[i].path) in d.app ==> Installed(mc, now.app, m.entries[i])
  }

  lemma RunKeepsInstalled(mc: Machine, os: Os, d: Disk, text: string, m: Manifest, i: nat)
    requires Parse(text) == Some(m) && SeparatePlaces(mc, m.entries) && i < |m.entries|
    requires Installed(mc, d.app, m.entries[i])
    ensures var q := NameOf(mc, m.entries[i].path);
      At(CheckForUpdates(mc, os, Start(d), text).disk.app, q) == At(d.app, q)
  {
    hide Parse, ApplyManifest, SeparatePlaces, Norm, NameOf, Installed, IsUpdate, CheckForUpdates, Fetched;
    RunIs(mc, os, d, text);
    ApplyKeepsInstalled(mc, os, Fetched(d), m, Anchored(mc, d.app), i);
  }

  /** An installed file is never touched again. */
  lemma {:induction false} RunsKeepInstalled(mc: Machine, text: string, m: Manifest, d: Disk, runs: seq<Os>, i: nat)
    requires Parse(text) == Some(m) && SeparatePlaces(mc, m.entries) && i < |m.entries|
    requires Installed(mc, d.app, m.entries[i])
    ensures var q := NameOf(mc, m.entries[i].path); At(Runs(mc, text, d, runs).app, q) == At(d.app, q)
  {
    hide Parse, SeparatePlaces, CheckForUpdates, NameOf;
    if runs != [] {
      var front := runs[..|runs| - 1];
      RunsKeepInstalled(mc, text, m, d, front, i);
      InstalledIsAccepted(mc, d.app, m.entries[i]);
      InstalledIsAccepted(mc, Runs(mc, text, d, front).app, m.entries[i]);
      RunKeepsInstalled(mc, runs[|runs| - 1], Runs(mc, text, d, front), text, m, i);
    }
  }

  lemma RunKeepsEntry(mc: Machine, os: Os, d: Disk, text: string, m: Manifest, i: nat, was: Option<Content>)
    requires Parse(text) == Some(m) && SeparatePlaces(mc, m.entries) && i < |m.entries| && !mc.Overwrites()
    requires HasSuccessor(mc, m.entries[i], was, SlotAt(d, NameOf(mc, m.entries[i].path)))
    ensures HasSuccessor(mc, m.entries[i], was,
                         SlotAt(CheckForUpdates(mc, os, Start(d), text).disk, NameOf(mc, m.entries[i].path)))
  {
    hide Parse, ApplyManifest, SeparatePlaces, Norm, NameOf, Installed, IsUpdate, CheckForUpdates, Fetched;
    RunIs(mc, os, d, text);
    if Installed(mc, d.app, m.entries[i]) {
      InstalledIsAccepted(mc, d.app, m.entries[i]);
      RunKeepsInstalled(mc, os, d, text, m, i);
    } else {
      ApplyKeepsSuccessor(mc, os, Fetched(d), m, Anchored(mc, d.app), i, was);
    }
  }

  /** Under a rename that does not replace its target a file keeps its successor. */
  lemma {:induction false} RunsKeepEntry(mc: Machine, text: string, m: Manifest, d: Disk, runs: seq<Os>, i: nat,
                                         was: Option<Content>)
    requires Parse(text) == Some(m) && SeparatePlaces(mc, m.entries) && i < |m.entries| && !mc.Overwrites()
    requires HasSuccessor(mc, m.entries[i], was, SlotAt(d, NameOf(mc, m.entries[i].path)))
    ensures HasSuccessor(mc, m.entries[i], was, SlotAt(Runs(mc, text, d, runs), NameOf(mc, m.entries[i].path)))
  {
    hide Parse, SeparatePlaces, CheckForUpdates, NameOf, HasSuccessor;
    if runs != [] {
      var front := runs[..|runs| - 1];
      RunsKeepEntry(mc, text, m, d, front, i, was);
      RunKeepsEntry(mc, runs[|runs| - 1], Runs(mc, text, d, front), text, m, i, was);
    }
  }

  lemma RunsKeepFiles(mc: Machine, text: string, m: Manifest, d: Disk, runs: seq<Os>)
    requires Parse(text) == Some(m) && SeparatePlaces(mc, m.entries)
    requires mc.Overwrites() ==> NonePending(mc, m, d, d)
    ensures KeptSoFar(mc, m, d, Runs(mc, text, d, runs))
  {
    hide Parse, SeparatePlaces, Runs, NameOf, Installed;
    var now := Runs(mc, text, d, runs);
    forall i | 0 <= i < |m.entries| && NameOf(mc, m.entries[i].path) in d.app
      ensures HasSuccessor(mc, m.entries[i], At(d.app, NameOf(mc, m.entries[i].path)),
                           SlotAt(now, NameOf(mc, m.entries[i].path)))
      ensures mc.Overwrites() ==> Installed(mc, now.app, m.entries[i])
    {
      if mc.Overwrites() {
        RunsKeepInstalled(mc, text, m, d, runs, i);
        InstalledIsAccepted(mc, d.app, m.entries[i]);
        InstalledIsAccepted(mc, now.app, m.entries[i]);
      } else {
        RunsKeepEntry(mc, text, m, d, runs, i, At(d.app, NameOf(mc, m.entries[i].path)));
      }
    }
    hide HasSuccessor;
  }

  lemma {:induction false} NoUpdateNoRuns(mc: Machine, text: string, m: Manifest, d: Disk, runs: seq<Os>)
    requires Parse(text) == Some(m) && !IsUpdate(mc, d, m)
    ensures Runs(mc, text, d, runs) == d
  {
    if runs != [] {
      NoUpdateNoRuns(mc, text, m, d, runs[..|runs| - 1]);
      RunIs(mc, runs[|runs| - 1], d, text);
      hide Parse, IsUpdate, ApplyManifest, CheckForUpdates, Fetched;
    }
  }

  // ----- The exception under a replacing rename -----

  /** Refuses the backup folder for the file that call `n` comes to, and nothing else. */
  function NoFolderOs(os: Os, n: nat): Os { Os((k: nat) => if k == n then Refuses else Works, os.served, os.listing) }

  function Calm(os: Os): Os { Os((k: nat) => Works, os.served, os.listing) }

  /** Where a run without failures stands before its `j`-th file. */
  lemma CalmRun(mc: Machine, s: Run, m: Manifest, healthy: Os, j: nat) returns (t: Run)
    requires SeparatePlaces(mc, m.entries) && HealthyRun(mc, healthy, m) && s.calls == 1
    requires j < |Pending(mc, s.disk.app, m.entries)|
    ensures var todo := Pending(mc, s.disk.app, m.entries);
      && ComesTo(mc, Calm(healthy), s, todo, j) && BeforeFile(mc, Calm(healthy), s, todo, j) == t && t.calls > s.calls
      && At(t.disk.app, todo[j].path) == At(s.disk.app, todo[j].path)
      && At(t.disk.backup, todo[j].path) == None && Downloaded(mc, t.disk, todo[j])
  {
    hide Pending, BeforeFile, ComesTo, SeparatePlaces, HealthyRun, NormalPaths, RemoveFolder, Distinct, Downloaded,
      FitsManifest;
    var todo, calm := Pending(mc, s.disk.app, m.entries), Calm(healthy);
    WorkingComesTo(mc, calm, s, m, healthy, j);
    t := BeforeFile(mc, calm, s, todo, j);
    RemovedBackup(calm, s);
    PendingFits(mc, s.disk.app, m.entries);
    DistinctOfFits(mc, Paths(todo), NormalPaths(mc, m.entries));
    DistinctTail(Paths(todo), j, j);
    BeforeFileLater(mc, calm, s, todo, j);
  }

  /** Rolling back a file that was never saved moves it over its downloaded successor. */
  lemma OverwritesSuccessor(mc: Machine, os: Os, s: Run, paths: seq<string>, j: nat)
    requires mc.Overwrites() && j < |paths| && Distinct(paths)
    requires Ask(os, s).Works? && os.reply(s.calls + 1).Works?
    requires paths[j] in s.disk.app && paths[j] !in s.disk.backup
    ensures SlotAt(Rollback(mc, os, s, paths, j + 1).disk, paths[j]) == Slot(None, At(s.disk.app, paths[j]), None)
  {
    var p := paths[j];
    var s1 := RollbackFile(mc, os, s, p);
    RenameSlot(mc, os, s, App, Update, p);
    RenameSlot(mc, os, Rename(mc, os, s, App, Update, p).0, Backup, App, p);
    hide Rename;
    RollbackSlots(mc, os, s1, paths, j);
    DistinctTail(paths, j, j);
    hide RollbackFile;
    assert p !in PathSet(paths[..j]);
    assert SlotAt(Rollback(mc, os, s1, paths, j).disk, p) == SlotAt(s1.disk, p);
  }

  lemma LostInApply(mc: Machine, s: Run, m: Manifest, anchor: bool, healthy: Os, j: nat) returns (os: Os)
    requires SeparatePlaces(mc, m.entries) && HealthyRun(mc, healthy, m) && s.calls == 1
    requires mc.Overwrites() && j < |Pending(mc, s.disk.app, m.entries)|
    requires Pending(mc, s.disk.app, m.entries)[j].path in s.disk.app
    ensures os.reply(0).Works?
    ensures var p := Pending(mc, s.disk.app, m.entries)[j].path;
      SlotAt(ApplyManifest(mc, os, s, m, anchor).disk, p) == Slot(None, At(s.disk.app, p), None)
  {
    hide ApplyManifest, BeforeFile, ComesTo, SeparatePlaces, HealthyRun, Pending, Distinct, NormalPaths, Rollback,
      FitsManifest, Downloaded;
    var todo := Pending(mc, s.disk.app, m.entries);
    var t := CalmRun(mc, s, m, healthy, j);
    os := NoFolderOs(healthy, t.calls);
    BeforeFileAgrees(mc, Calm(healthy), os, s, todo, j);
    StoppedRun(mc, os, s, m, anchor, j);
    PendingFits(mc, s.disk.app, m.entries);
    DistinctOfFits(mc, Paths(todo), NormalPaths(mc, m.entries));
    OverwritesSuccessor(mc, os, Called(t), Paths(todo), j);
  }

  lemma SuccessorCanBeLost(mc: Machine, d: Disk, text: string, m: Manifest, healthy: Os, i: nat) returns (os: Os)
    requires Parse(text) == Some(m) && SeparatePlaces(mc, m.entries) && HealthyRun(mc, healthy, m) && IsUpdate(mc, d, m)
    requires mc.Overwrites() && i < |m.entries| && NameOf(mc, m.entries[i].path) in d.app
    requires !Installed(mc, d.app, m.entries[i])
    ensures !Succeeds(mc, m, d, Runs(mc, text, d, [os]))
  {
    hide Parse, IsUpdate, ApplyManifest, SeparatePlaces, HealthyRun, Pending, NameOf, Installed, CheckForUpdates,
      Proceeds, Runs, Fetched, Succeeds;
    var s, todo := Fetched(d), Pending(mc, d.app, m.entries);
    RunIs(mc, healthy, d, text);
    PendingHas(mc, d.app, m.entries, i);
    var j :| 0 <= j < |todo| && todo[j] == Placed(mc, m.entries[i]);
    os := LostInApply(mc, s, m, Anchored(mc, d.app), healthy, j);
    RunProceeds(mc, os, d, text, m);
    RunIs(mc, os, d, text);
    OneRun(mc, text, d, os);
    LostHere(mc, m, d, Runs(mc, text, d, [os]), i);
  }

  lemma OneRun(mc: Machine, text: string, d: Disk, os: Os)
    ensures Runs(mc, text, d, [os]) == CheckForUpdates(mc, os, Start(d), text).disk
  {
    hide CheckForUpdates;
    assert [os][..0] == [];
  }

  lemma LostHere(mc: Machine, m: Manifest, d: Disk, now: Disk, i: nat)
    requires i < |m.entries| && NameOf(mc, m.entries[i].path) in d.app && !Installed(mc, d.app, m.entries[i])
    ensures var p := NameOf(mc, m.entries[i].path);
      SlotAt(now, p) == Slot(None, At(d.app, p), None) ==> !Succeeds(mc, m, d, now)
  {
    InstalledIsAccepted(mc, d.app, m.entries[i]);
    hide Norm, NameOf, Installed;
  }

  /** Over all runs on one manifest, however they fail or are killed, every old file of the
      manifest is kept or replaced, or its accepted successor is downloaded: always, if a
      rename does not replace its target; otherwise exactly when no file is replaced at all. */
  lemma SuccessionIff(mc: Machine, d: Disk, text: string, m: Manifest, healthy: Os)
    requires Parse(text) == Some(m) && SeparatePlaces(mc, m.entries) && HealthyRun(mc, healthy, m)
    ensures (forall runs: seq<Os> :: Succeeds(mc, m, d, Runs(mc, text, d, runs)))
            <==> (IsUpdate(mc, d, m) && mc.Overwrites() ==> NonePending(mc, m, d, d))
  {
    hide Parse, IsUpdate, SeparatePlaces, HealthyRun, Runs, Installed, Norm, NameOf;
    if IsUpdate(mc, d, m) && mc.Overwrites() && !NonePending(mc, m, d, d) {
      var i :| 0 <= i < |m.entries| && NameOf(mc, m.entries[i].path) in d.app && !Installed(mc, d.app, m.entries[i]);
      var os := SuccessorCanBeLost(mc, d, text, m, healthy, i);
    } else {
      forall runs: seq<Os> ensures Succeeds(mc, m, d, Runs(mc, text, d, runs)) {
        if IsUpdate(mc, d, m) {
          RunsKeepFiles(mc, text, m, d, runs);
        } else {
          NoUpdateNoRuns(mc, text, m, d, runs);
        }
      }
    }
  }

  // ----- Files that the manifest does not list -----

  /** Not swept yet, or swept at the end of a completed update. */
  ghost predicate ObsoleteKept(mc: Machine, m: Manifest, d: Disk, now: Disk) {
    var expected := ExpectedKeys(mc, NormalPaths(mc, m.entries));
    || (forall q :: !IsExpected(mc, expected, q) ==> At(now.app, q) == At(d.app, q))
    || (AllInstalled(mc, now.app, m.entries) && forall q :: Obsolete(mc, expected, d, q) ==> Swept(now, q, d.app[q]))
  }

  /** A transaction does not touch an obsolete file, unless it succeeds and sweeps. */
  lemma TransactionObsolete(mc: Machine, os: Os, s: Run, paths: seq<string>, manifestPaths: seq<string>, anchor: bool,
                            q: string)
    requires FitsManifest(mc, paths, manifestPaths) && !IsExpected(mc, ExpectedKeys(mc, manifestPaths), q)
    requires SweepArmed(mc, manifestPaths, anchor) ==> ObsoleteApart(mc, ExpectedKeys(mc, manifestPaths), s.disk)
    ensures var (t, ok) := PerformUpdate(mc, os, s, paths, manifestPaths, anchor);
      if ok then q in s.disk.app ==> Swept(t.disk, q, s.disk.app[q]) else At(t.disk.app, q) == At(s.disk.app, q)
  {
    var (s1, folder) := MkdirP(os, s);
    if q in paths { ListedIsExpected(mc, manifestPaths, q); }
    if folder {
      var (s2, stopped) := InstallFrom(mc, os, s1, paths, 0);
      InstallSlots(mc, os, s1, paths, 0);
      assert paths[0..] == paths;
      if SweepArmed(mc, manifestPaths, anchor) { InstalledNamesApart(mc, os, s1, paths, manifestPaths); }
      hide InstallFrom, Rollback, CleanupObsolete, Norm, NameOf, IsExpected, ExpectedKeys, ObsoleteApart;
      assert q !in PathSet(paths);
      assert SlotAt(s2.disk, q) == SlotAt(s1.disk, q);
      if stopped.Some? {
        var n := stopped.value.0 + 1;
        RollbackSlots(mc, os, s2, paths, n);
        assert q !in PathSet(paths[..n]);
        assert SlotAt(Rollback(mc, os, s2, paths, n).disk, q) == SlotAt(s2.disk, q);
      } else if q in s.disk.app {
        assert At(s2.disk.app, q) == At(s.disk.app, q);
        if SweepArmed(mc, manifestPaths, anchor) {
          CleanupHolds(mc, os, s2, manifestPaths, anchor, q);
        } else {
          UnarmedSweep(mc, os, s2, manifestPaths, anchor);
        }
      }
    }
  }

  lemma UnarmedSweep(mc: Machine, os: Os, s: Run, manifestPaths: seq<string>, anchor: bool)
    requires !SweepArmed(mc, manifestPaths, anchor)
    ensures CleanupObsolete(mc, os, s, manifestPaths, anchor) == s
  {
  }

  lemma ApplyObsolete(mc: Machine, os: Os, s: Run, m: Manifest, anchor: bool)
    requires SeparatePlaces(mc, m.entries)
    requires SweepArmed(mc, NormalPaths(mc, m.entries), true)
             ==> ObsoleteApart(mc, ExpectedKeys(mc, NormalPaths(mc, m.entries)), s.disk)
    ensures ObsoleteKept(mc, m, s.disk, ApplyManifest(mc, os, s, m, anchor).disk)
  {
    hide DownloadFrom, Pending, NormalPaths, Paths, PerformUpdate, SeparatePlaces, Downloaded, ParseInt, RemoveFolder,
      FinalCleanup, Norm, NameOf, Installed, Distinct, IsExpected, ExpectedKeys, ObsoleteApart, AllInstalled, Swept;
    var todo, manifestPaths := Pending(mc, s.disk.app, m.entries), NormalPaths(mc, m.entries);
    PendingFits(mc, s.disk.app, m.entries);
    DistinctOfFits(mc, Paths(todo), manifestPaths);
    var s1 := RemoveFolder(os, s, Backup);
    RemovedBackup(os, s);
    DownloadAll(mc, os, s1, todo, 0);
    var (s2, downloaded) := DownloadFrom(mc, os, s1, todo, 0);
    if SweepArmed(mc, manifestPaths, anchor) { SameObsolete(mc, ExpectedKeys(mc, manifestPaths), s.disk, s2.disk); }
    hide FitsManifest, SweepArmed;
    if downloaded {
      var (s3, applied) := PerformUpdate(mc, os, s2, Paths(todo), manifestPaths, anchor);
      forall q | !IsExpected(mc, ExpectedKeys(mc, manifestPaths), q)
        ensures if applied then q in s.disk.app ==> Swept(s3.disk, q, s.disk.app[q])
                else At(s3.disk.app, q) == At(s.disk.app, q)
      {
        TransactionObsolete(mc, os, s2, Paths(todo), manifestPaths, anchor, q);
      }
      if applied {
        TransactionInstallsAll(mc, os, s2, s.disk.app, m.entries, anchor);
        FinalCleanupKeeps(os, s3, ParseInt(m.version));
        SweptTheSame(mc, ExpectedKeys(mc, manifestPaths), s.disk, s3.disk,
                     FinalCleanup(os, s3, ParseInt(m.version)).disk);
      }
    }
  }

  lemma SweptTheSame(mc: Machine, expected: set<string>, d: Disk, e: Disk, f: Disk)
    requires f.app == e.app && f.backup == e.backup
    requires forall q :: Obsolete(mc, expected, d, q) ==> Swept(e, q, d.app[q])
    ensures forall q :: Obsolete(mc, expected, d, q) ==> Swept(f, q, d.app[q])
  {
    hide IsExpected, Norm, NameOf;
  }

  lemma RunKeepsObsolete(mc: Machine, os: Os, d: Disk, now: Disk, text: string, m: Manifest)
    requires Parse(text) == Some(m) && SeparatePlaces(mc, m.entries) && ObsoleteKept(mc, m, d, now)
    requires SweepArmed(mc, NormalPaths(mc, m.entries), true)
      ==> ObsoleteApart(mc, ExpectedKeys(mc, NormalPaths(mc, m.entries)), d)
    ensures ObsoleteKept(mc, m, d, CheckForUpdates(mc, os, Start(now), text).disk)
  {
    hide Parse, ApplyManifest, SeparatePlaces, Norm, NameOf, AllInstalled, Swept, SweepArmed, IsExpected, ExpectedKeys,
      NormalPaths;
    if AllInstalled(mc, now.app, m.entries) {
      InstalledStopsRuns(mc, os, now, text, m);
    } else {
      var expected := ExpectedKeys(mc, NormalPaths(mc, m.entries));
      if SweepArmed(mc, NormalPaths(mc, m.entries), true) { SameObsoleteFiles(mc, expected, d, now); }
      RunIs(mc, os, now, text);
      if Proceeds(mc, os, now, text) {
        hide Proceeds, CheckForUpdates, ObsoleteApart;
        ApplyObsolete(mc, os, Fetched(now), m, Anchored(mc, now.app));
        KeptOn(mc, m, d, now, ApplyManifest(mc, os, Fetched(now), m, Anchored(mc, now.app)).disk);
      }
    }
    hide CheckForUpdates, Proceeds, Fetched, ObsoleteApart;
  }

  lemma SameObsoleteFiles(mc: Machine, expected: set<string>, d: Disk, now: Disk)
    requires forall q :: !IsExpected(mc, expected, q) ==> At(now.app, q) == At(d.app, q)
    requires ObsoleteApart(mc, expected, d)
    ensures ObsoleteApart(mc, expected, now)
  {
    hide IsExpected, Norm, NameOf;
    forall q | Obsolete(mc, expected, now, q) ensures Obsolete(mc, expected, d, q) {
      assert At(now.app, q) == At(d.app, q);
    }
  }

  lemma KeptOn(mc: Machine, m: Manifest, d: Disk, now: Disk, next: Disk)
    requires ObsoleteKept(mc, m, now, next)
    requires forall q :: !IsExpected(mc, ExpectedKeys(mc, NormalPaths(mc, m.entries)), q) ==>
      At(now.app, q) == At(d.app, q)
    ensures ObsoleteKept(mc, m, d, next)
  {
    hide IsExpected, Norm, NameOf, ExpectedKeys, AllInstalled, Swept, NormalPaths;
    var expected := ExpectedKeys(mc, NormalPaths(mc, m.entries));
    forall q | Obsolete(mc, expected, d, q) ensures Obsolete(mc, expected, now, q) && now.app[q] == d.app[q] {
      assert At(now.app, q) == At(d.app, q);
    }
  }

  /** Over all runs on one manifest, whose obsolete names stay apart, every obsolete file is
      still there or has its content in the backup folder: no later run removes that. */
  lemma {:induction false} ObsoleteFilesKept(mc: Machine, text: string, m: Manifest, d: Disk, runs: seq<Os>)
    requires Parse(text) == Some(m) && SeparatePlaces(mc, m.entries)
    requires SweepArmed(mc, NormalPaths(mc, m.entries), true)
      ==> ObsoleteApart(mc, ExpectedKeys(mc, NormalPaths(mc, m.entries)), d)
    ensures var now := Runs(mc, text, d, runs);
      && ObsoleteKept(mc, m, d, now)
      && forall q :: Obsolete(mc, ExpectedKeys(mc, NormalPaths(mc, m.entries)), d, q) ==> Swept(now, q, d.app[q])
  {
    hide Parse, SeparatePlaces, CheckForUpdates, SweepArmed, ObsoleteApart, IsExpected, ExpectedKeys, NormalPaths,
      AllInstalled, Norm, NameOf;
    if runs != [] {
      var front := runs[..|runs| - 1];
      ObsoleteFilesKept(mc, text, m, d, front);
      RunKeepsObsolete(mc, runs[|runs| - 1], d, Runs(mc, text, d, front), text, m);
    }
    var now, expected := Runs(mc, text, d, runs), ExpectedKeys(mc, NormalPaths(mc, m.entries));
    forall q | Obsolete(mc, expected, d, q) ensures Swept(now, q, d.app[q]) {
      assert !IsExpected(mc, expected, q);
    }
  }

  // ----- Two manifests -----

  /** All calls in front of the `k`-th work, and none from it on. */
  function WorksUntil(k: nat, served: string -> Content, listing: Files -> seq<string>): Os {
    Os((j: nat) => if j < k then Works else Refuses, served, listing)
  }

  /** Killed between the two renames: the old file is saved, its successor not in place. */
  lemma KilledSwap(mc: Machine, os: Os, s: Run, p: string)
    requires os.reply(s.calls).Works? && os.reply(s.calls + 1).Works? && os.reply(s.calls + 2).Refuses?
    requires p in s.disk.app && p !in s.disk.backup
    ensures var (t, stopped) := InstallFile(mc, os, s, p);
      && stopped == Some(TargetFolder) && t.calls == s.calls + 3
      && SlotAt(t.disk, p) == Slot(None, At(s.disk.update, p), At(s.disk.app, p))
  {
    RenameSlot(mc, os, Called(s), App, Backup, p);
    hide Rename;
  }

  lemma KilledApply(mc: Machine, s: Run, m: Manifest, anchor: bool, healthy: Os, j: nat) returns (os: Os)
    requires SeparatePlaces(mc, m.entries) && HealthyRun(mc, healthy, m) && s.calls == 1
    requires j < |Pending(mc, s.disk.app, m.entries)|
    requires Pending(mc, s.disk.app, m.entries)[j].path in s.disk.app
    ensures os.reply(0).Works?
    ensures var g, e := Pending(mc, s.disk.app, m.entries)[j], ApplyManifest(mc, os, s, m, anchor).disk;
      g.path !in e.app && Accepted(mc, At(e.update, g.path), g.signature)
  {
    hide Pending, BeforeFile, ComesTo, InstallFile, Rollback, ApplyManifest, SeparatePlaces, HealthyRun;
    var todo := Pending(mc, s.disk.app, m.entries);
    var t := CalmRun(mc, s, m, healthy, j);
    os := WorksUntil(t.calls + 2, healthy.served, healthy.listing);
    BeforeFileAgrees(mc, Calm(healthy), os, s, todo, j);
    KilledSwap(mc, os, t, Paths(todo)[j]);
    StoppedAt(mc, os, s, m, anchor, j);
    RollbackGrows(mc, os, InstallFile(mc, os, t, Paths(todo)[j]).0, Paths(todo), j + 1);
  }

  lemma KilledBetweenRenames(mc: Machine, d: Disk, text: string, m: Manifest, healthy: Os, i: nat) returns (os: Os)
    requires Parse(text) == Some(m) && SeparatePlaces(mc, m.entries) && HealthyRun(mc, healthy, m) && IsUpdate(mc, d, m)
    requires i < |m.entries| && NameOf(mc, m.entries[i].path) in d.app && !Installed(mc, d.app, m.entries[i])
    ensures var now, e := CheckForUpdates(mc, os, Start(d), text).disk, m.entries[i];
      var p := NameOf(mc, e.path);
      && p !in now.app && Accepted(mc, At(now.update, p), e.signature) && now.version == d.version
  {
    hide Fetched, Parse, IsUpdate, ApplyManifest, SeparatePlaces, HealthyRun, Pending, NameOf, Installed,
      CheckForUpdates, AllInstalled, Proceeds, Accepted;
    var s, todo, anchor := Fetched(d), Pending(mc, d.app, m.entries), Anchored(mc, d.app);
    RunIs(mc, healthy, d, text);
    PendingHas(mc, d.app, m.entries, i);
    var j :| 0 <= j < |todo| && todo[j] == Placed(mc, m.entries[i]);
    os := KilledApply(mc, s, m, anchor, healthy, j);
    RunProceeds(mc, os, d, text, m);
    RunIs(mc, os, d, text);
    ApplySealsOnlyInstalled(mc, os, s, m, anchor);
    MissingNotInstalled(mc, ApplyManifest(mc, os, s, m, anchor).disk.app, m, i);
  }

  lemma MissingNotInstalled(mc: Machine, app: Files, m: Manifest, i: nat)
    requires i < |m.entries| && NameOf(mc, m.entries[i].path) !in app
    ensures !AllInstalled(mc, app, m.entries) && Pending(mc, app, m.entries) != []
  {
    hide NameOf, Pending;
    assert !Installed(mc, app, m.entries[i]);
    PendingHas(mc, app, m.entries, i);
  }

  /** Downloading the first files and then the rest. */
  lemma {:induction false} DownloadSplit(mc: Machine, os: Os, s: Run, todo: seq<Entry>, j: nat, i: nat)
    requires i <= j <= |todo| && DownloadFrom(mc, os, s, todo[..j], i).1
    ensures DownloadFrom(mc, os, s, todo, i) == DownloadFrom(mc, os, DownloadFrom(mc, os, s, todo[..j], i).0, todo, j)
    decreases j - i
  {
    if i < j {
      assert todo[..j][i] == todo[i];
      hide DownloadFile;
      DownloadSplit(mc, os, DownloadFile(mc, os, s, todo[i]).0, todo, j, i + 1);
    }
  }

  /** An outdated download is removed, and then nothing works any more. */
  lemma KilledDownload(mc: Machine, os: Os, s: Run, todo: seq<Entry>, j: nat)
    requires j < |todo| && todo[j].path in s.disk.update && !Downloaded(mc, s.disk, todo[j])
    requires os.reply(s.calls).Works? && os.reply(s.calls + 1).Works? && os.reply(s.calls + 2).Refuses?
    ensures var (t, ok) := DownloadFrom(mc, os, s, todo, j);
      !ok && t.disk == s.disk.(update := s.disk.update - {todo[j].path})
  {
    assert !DownloadFile(mc, os, s, todo[j]).1;
  }

  lemma {:induction false} DownloadKeepsOthers(mc: Machine, os: Os, s: Run, todo: seq<Entry>, i: nat, q: string)
    requires i <= |todo| && q !in Paths(todo)
    ensures At(DownloadFrom(mc, os, s, todo, i).0.disk.update, q) == At(s.disk.update, q)
    decreases |todo| - i
  {
    if i < |todo| {
      DownloadOne(mc, os, s, todo[i]);
      assert Paths(todo)[i] != q;
      hide DownloadFile;
      DownloadKeepsOthers(mc, os, DownloadFile(mc, os, s, todo[i]).0, todo, i + 1, q);
    }
  }

  /** With the server's files the download comes to file `j`, which is still as it was. */
  lemma FirstDownloads(mc: Machine, os: Os, s: Run, todo: seq<Entry>, j: nat)
    requires j < |todo| && Distinct(Paths(todo)) && Healthy(os, s.calls)
    requires forall e :: e in todo ==> mc.accepts(os.served(e.url), e.signature)
    ensures var (t, ok) := DownloadFrom(mc, os, s, todo[..j], 0);
      && ok && t.calls >= s.calls && t.disk == s.disk.(update := t.disk.update)
      && At(t.disk.update, todo[j].path) == At(s.disk.update, todo[j].path)
  {
    assert Paths(todo[..j]) == Paths(todo)[..j];
    FrontDistinct(Paths(todo), j);
    DistinctTail(Paths(todo), j, j);
    DownloadAll(mc, os, s, todo[..j], 0);
    DownloadKeepsOthers(mc, os, s, todo[..j], 0, todo[j].path);
    hide DownloadFrom, Distinct;
  }

  /** A run that removes the backups and an outdated download, and then cannot download. */
  lemma OutdatedLost(mc: Machine, s: Run, m: Manifest, anchor: bool, healthy: Os, j: nat) returns (os: Os)
    requires SeparatePlaces(mc, m.entries) && HealthyRun(mc, healthy, m) && s.calls == 1
    requires j < |Pending(mc, s.disk.app, m.entries)|
    requires var g := Pending(mc, s.disk.app, m.entries)[j]; g.path in s.disk.update && !Downloaded(mc, s.disk, g)
    ensures os.reply(0).Works?
    ensures var p := Pending(mc, s.disk.app, m.entries)[j].path;
      SlotAt(ApplyManifest(mc, os, s, m, anchor).disk, p) == Slot(At(s.disk.app, p), None, None)
  {
    hide Pending, DownloadFrom, PerformUpdate, FinalCleanup, SeparatePlaces, NormalPaths, FitsManifest, ParseInt;
    var todo := Pending(mc, s.disk.app, m.entries);
    PendingFits(mc, s.disk.app, m.entries);
    DistinctOfFits(mc, Paths(todo), NormalPaths(mc, m.entries));
    PendingServed(mc, healthy, s.disk.app, m);
    hide HealthyRun, Distinct;
    var calm := Calm(healthy);
    var s1 := RemoveFolder(calm, s, Backup);
    FirstDownloads(mc, calm, s1, todo, j);
    var t := DownloadFrom(mc, calm, s1, todo[..j], 0).0;
    os := WorksUntil(t.calls + 2, healthy.served, healthy.listing);
    assert RemoveFolder(os, s, Backup) == s1;
    DownloadAgrees(mc, calm, os, t.calls, s1, todo[..j]);
    DownloadSplit(mc, os, s1, todo, j, 0);
    KilledDownload(mc, os, t, todo, j);
    hide RemoveFolder;
  }

  /** The old file of a shared place is gone for good: the first run is killed between its
      renames, and the second, on a newer manifest whose signature does not accept what the
      first one downloaded, removes backup and download before its own download fails. */
  lemma TwoManifestsLose(mc: Machine, d: Disk, text1: string, m1: Manifest, i: nat, healthy1: Os,
                         text2: string, m2: Manifest, k: nat, healthy2: Os) returns (os1: Os, os2: Os)
    requires Offered(mc, text1, m1, healthy1) && Offered(mc, text2, m2, healthy2) && ByDigest(mc)
    requires i < |m1.entries| && k < |m2.entries|
    requires NameOf(mc, m1.entries[i].path) == NameOf(mc, m2.entries[k].path)
    requires NameOf(mc, m1.entries[i].path) in d.app
    requires Endangered(mc, d, m1, i, m2) && !mc.accepts(healthy1.served(m1.entries[i].url), m2.entries[k].signature)
    ensures SlotAt(Runs(mc, text2, Runs(mc, text1, d, [os1]), [os2]), NameOf(mc, m1.entries[i].path))
         == Slot(None, None, None)
  {
    hide Parse, CheckForUpdates, NameOf, ParseInt, SignedStream, SeparatePlaces, Installed, Pending, ApplyManifest;
    os1 := KilledBetweenRenames(mc, d, text1, m1, healthy1, i);
    OneRun(mc, text1, d, os1);
    var now, p := CheckForUpdates(mc, os1, Start(d), text1).disk, NameOf(mc, m1.entries[i].path);
    MissingNotInstalled(mc, now.app, m2, k);
    assert !Installed(mc, now.app, m2.entries[k]) by { InstalledIsAccepted(mc, now.app, m2.entries[k]); }
    PendingHas(mc, now.app, m2.entries, k);
    var todo := Pending(mc, now.app, m2.entries);
    var j :| 0 <= j < |todo| && todo[j] == Placed(mc, m2.entries[k]);
    assert !mc.accepts(now.update[p], m2.entries[k].signature);
    os2 := OutdatedLost(mc, Fetched(now), m2, Anchored(mc, now.app), healthy2, j);
    RunProceeds(mc, os2, now, text2, m2);
    RunIs(mc, os2, now, text2);
    OneRun(mc, text2, now, os2);
    hide Proceeds, HealthyRun, Runs;
  }

  /** A manifest, and replies of a server that has its files. */
  ghost predicate Offered(mc: Machine, text: string, m: Manifest, healthy: Os) {
    Parse(text) == Some(m) && SeparatePlaces(mc, m.entries) && HealthyRun(mc, healthy, m)
  }

  /** Signatures tell no two contents apart that one of them accepts. */
  ghost predicate ByDigest(mc: Machine) {
    forall x: Content, y: Content, s: string, t: string ::
      mc.accepts(x, s) && mc.accepts(y, s) && mc.accepts(x, t) ==> mc.accepts(y, t)
  }

  /** The first manifest replaces the file, and the second is accepted and newer than `d`. */
  predicate Endangered(mc: Machine, d: Disk, m1: Manifest, i: nat, m2: Manifest)
    requires i < |m1.entries|
  {
    && IsUpdate(mc, d, m1) && !Installed(mc, d.app, m1.entries[i])
    && mc.accepts(SignedStream(m2.version, m2.entries), m2.signature) && d.version.value < ParseInt(m2.version)
  }

  /** The old content is in place, or one that a manifest accepts is in place or downloaded. */
  predicate Survives(mc: Machine, e: Entry, f: Entry, was: Option<Content>, now: Slot) {
    HasSuccessor(mc, e, was, now) || HasSuccessor(mc, f, was, now)
  }

  ghost predicate SurvivesRuns(mc: Machine, d: Disk, text1: string, e: Entry, text2: string, f: Entry,
                               runs1: seq<Os>, runs2: seq<Os>)
  {
    var p := NameOf(mc, e.path);
    Survives(mc, e, f, At(d.app, p), SlotAt(Runs(mc, text2, Runs(mc, text1, d, runs1), runs2), p))
  }

  lemma {:induction false} RunsNotOlder(mc: Machine, text: string, m: Manifest, d: Disk, runs: seq<Os>)
    requires Parse(text) == Some(m) && SeparatePlaces(mc, m.entries)
    ensures NotOlder(d.version, Runs(mc, text, d, runs).version)
  {
    hide Parse, SeparatePlaces, CheckForUpdates;
    if runs != [] {
      var front := runs[..|runs| - 1];
      RunsNotOlder(mc, text, m, d, front);
      RunNotOlder(mc, runs[|runs| - 1], Runs(mc, text, d, front), text);
    }
  }

  lemma TwoManifestsKeep(mc: Machine, d: Disk, text1: string, m1: Manifest, i: nat, healthy1: Os,
                         text2: string, m2: Manifest, k: nat, healthy2: Os, runs1: seq<Os>, runs2: seq<Os>)
    requires Offered(mc, text1, m1, healthy1) && Offered(mc, text2, m2, healthy2) && ByDigest(mc)
    requires i < |m1.entries| && k < |m2.entries|
    requires NameOf(mc, m1.entries[i].path) == NameOf(mc, m2.entries[k].path) && !mc.Overwrites()
    requires Endangered(mc, d, m1, i, m2) ==> mc.accepts(healthy1.served(m1.entries[i].url), m2.entries[k].signature)
    ensures SurvivesRuns(mc, d, text1, m1.entries[i], text2, m2.entries[k], runs1, runs2)
  {
    hide Parse, NameOf, ParseInt, SignedStream, SeparatePlaces, Installed, Pending, Runs;
    var e, f, p, mid := m1.entries[i], m2.entries[k], NameOf(mc, m1.entries[i].path), Runs(mc, text1, d, runs1);
    var was, x := At(d.app, p), SlotAt(mid, p);
    if !IsUpdate(mc, d, m1) {
      NoUpdateNoRuns(mc, text1, m1, d, runs1);
    } else if Installed(mc, d.app, e) {
      RunsKeepInstalled(mc, text1, m1, d, runs1, i);
    } else {
      RunsKeepEntry(mc, text1, m1, d, runs1, i, was);
      RunsNotOlder(mc, text1, m1, d, runs1);
    }
    if x.app == was || Accepted(mc, x.app, e.signature) {
      RunsKeepEntry(mc, text2, m2, mid, runs2, k, x.app);
    } else if Endangered(mc, d, m1, i, m2) {
      assert Accepted(mc, x.update, f.signature);
      RunsKeepEntry(mc, text2, m2, mid, runs2, k, x.update);
    } else {
      NoUpdateNoRuns(mc, text2, m2, mid, runs2);
    }
  }

  /** Under a rename that does not replace its target, an old file whose place both manifests
      list survives all runs on the first and then all runs on the second exactly unless the
      first replaces it, the second is accepted and newer, and its signature does not accept
      the first one's file. */
  lemma TwoManifestsIff(mc: Machine, d: Disk, text1: string, m1: Manifest, i: nat, healthy1: Os,
                        text2: string, m2: Manifest, k: nat, healthy2: Os)
    requires Offered(mc, text1, m1, healthy1) && Offered(mc, text2, m2, healthy2) && ByDigest(mc)
    requires i < |m1.entries| && k < |m2.entries|
    requires NameOf(mc, m1.entries[i].path) == NameOf(mc, m2.entries[k].path) && !mc.Overwrites()
    requires NameOf(mc, m1.entries[i].path) in d.app
    ensures var e, f := m1.entries[i], m2.entries[k];
      (forall runs1: seq<Os>, runs2: seq<Os> :: SurvivesRuns(mc, d, text1, e, text2, f, runs1, runs2))
      <==> (Endangered(mc, d, m1, i, m2) ==> mc.accepts(healthy1.served(e.url), f.signature))
  {
    hide Offered, Endangered, SurvivesRuns, ByDigest, NameOf, Runs;
    var e, f := m1.entries[i], m2.entries[k];
    if Endangered(mc, d, m1, i, m2) && !mc.accepts(healthy1.served(e.url), f.signature) {
      var os1, os2 := TwoManifestsLose(mc, d, text1, m1, i, healthy1, text2, m2, k, healthy2);
      NothingSurvives(mc, d, text1, e, text2, f, [os1], [os2]);
    } else {
      forall runs1: seq<Os>, runs2: seq<Os> ensures SurvivesRuns(mc, d, text1, e, text2, f, runs1, runs2) {
        TwoManifestsKeep(mc, d, text1, m1, i, healthy1, text2, m2, k, healthy2, runs1, runs2);
      }
    }
  }

  lemma NothingSurvives(mc: Machine, d: Disk, text1: string, e: Entry, text2: string, f: Entry,
                        runs1: seq<Os>, runs2: seq<Os>)
    requires var p := NameOf(mc, e.path);
      p in d.app && SlotAt(Runs(mc, text2, Runs(mc, text1, d, runs1), runs2), p) == Slot(None, None, None)
    ensures !SurvivesRuns(mc, d, text1, e, text2, f, runs1, runs2)
  {
    hide NameOf, Runs;
  }
}
