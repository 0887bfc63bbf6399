/** Whole runs of the updater: what any sequence of runs keeps, each of them failing or
    being killed anywhere, and what one healthy run then reaches. */
module UpdateRuns {
  import opened Wrappers
  import opened ManifestPath
  import opened VersionNumber
  import opened Manifest
  import opened UpdateDisk
  import opened UpdateTransaction
  import opened UpdateSweep

  // ----- The entries still to install -----

  function Placed(mc: Machine, e: Entry): Entry { e.(path := NameOf(mc, e.path)) }

  /** No path leaves its folder, and no two entries name the same file. Only then are the
      places of the files in the three folders what `Disk` takes them for. */
  ghost predicate SeparatePlaces(mc: Machine, entries: seq<Entry>) {
    && (forall i :: 0 <= i < |entries| ==> StaysInside(entries[i].path))
    && forall i, j :: 0 <= i < j < |entries| ==> mc.PathKey(entries[i].path) != mc.PathKey(entries[j].path)
  }

  lemma DistinctPlaces(mc: Machine, entries: seq<Entry>)
    requires SeparatePlaces(mc, entries)
    ensures Distinct(NormalPaths(mc, entries))
  {
    forall i, j | 0 <= i < j < |entries| ensures NormalPaths(mc, entries)[i] != NormalPaths(mc, entries)[j] {
      assert mc.PathKey(entries[i].path) != mc.PathKey(entries[j].path);
    }
  }

  lemma {:induction false} PendingHas(mc: Machine, app: Files, entries: seq<Entry>, i: nat)
    requires i < |entries| && !Installed(mc, app, entries[i])
    ensures Placed(mc, entries[i]) in Pending(mc, app, entries)
  {
    hide Installed;
    if i < |entries| - 1 { PendingHas(mc, app, entries[..|entries| - 1], i); }
  }

  lemma {:induction false} PendingFrom(mc: Machine, app: Files, entries: seq<Entry>, e: Entry) returns (i: nat)
    requires e in Pending(mc, app, entries)
    ensures i < |entries| && e == Placed(mc, entries[i]) && !Installed(mc, app, entries[i])
  {
    hide Installed;
    var front := entries[..|entries| - 1];
    if e in Pending(mc, app, front) {
      i := PendingFrom(mc, app, front, e);
    } else {
      i := |entries| - 1;
    }
  }

  /** `Pending` has exactly the entries that are not installed. */
  lemma PendingIs(mc: Machine, app: Files, entries: seq<Entry>)
    ensures forall i :: 0 <= i < |entries| && !Installed(mc, app, entries[i]) ==>
      Placed(mc, entries[i]) in Pending(mc, app, entries)
    ensures forall e :: e in Pending(mc, app, entries) ==>
      exists i :: 0 <= i < |entries| && e == Placed(mc, entries[i]) && !Installed(mc, app, entries[i])
    ensures Pending(mc, app, entries) == [] <==> AllInstalled(mc, app, entries)
  {
    hide Installed, Pending;
    forall i | 0 <= i < |entries| && !Installed(mc, app, entries[i])
      ensures Placed(mc, entries[i]) in Pending(mc, app, entries)
    {
      PendingHas(mc, app, entries, i);
    }
    forall e | e in Pending(mc, app, entries)
      ensures exists i :: 0 <= i < |entries| && e == Placed(mc, entries[i]) && !Installed(mc, app, entries[i])
    {
      var i := PendingFrom(mc, app, entries, e);
    }
    if Pending(mc, app, entries) != [] {
      var e := Pending(mc, app, entries)[0];
      assert e in Pending(mc, app, entries);
    }
  }

  lemma DistinctSnoc(ps: seq<string>, p: string)
    requires Distinct(ps) && p !in ps
    ensures Distinct(ps + [p])
  {
  }

  lemma DistinctFront(ps: seq<string>, p: string)
    requires Distinct(ps + [p])
    ensures Distinct(ps) && p !in ps
  {
    var all := ps + [p];
    assert forall i :: 0 <= i < |ps| ==> all[i] == ps[i];
    assert all[|ps|] == p;
  }

  lemma {:induction false} PendingDistinct(mc: Machine, app: Files, entries: seq<Entry>)
    requires Distinct(NormalPaths(mc, entries))
    ensures Distinct(Paths(Pending(mc, app, entries)))
    ensures forall p :: p in Paths(Pending(mc, app, entries)) ==> p in NormalPaths(mc, entries)
  {
    if entries != [] {
      var front, last := entries[..|entries| - 1], entries[|entries| - 1];
      var p, pending := NameOf(mc, last.path), Pending(mc, app, front);
      assert NormalPaths(mc, entries) == NormalPaths(mc, front) + [p];
      hide Installed, Norm, NameOf, Distinct;
      DistinctFront(NormalPaths(mc, front), p);
      PendingDistinct(mc, app, front);
      assert p !in Paths(pending);
      DistinctSnoc(Paths(pending), p);
      assert Paths(pending + [Placed(mc, last)]) == Paths(pending) + [p];
      assert Pending(mc, app, entries) in {pending, pending + [Placed(mc, last)]} by {
        assert pending + [] == pending;
      }
    }
  }

  // ----- Downloading -----

  lemma DownloadOne(mc: Machine, os: Os, s: Run, e: Entry)
    ensures var (t, ok) := DownloadFile(mc, os, s, e);
      && t.disk == s.disk.(update := t.disk.update) && t.calls >= s.calls
      && (forall q :: q != e.path ==> At(t.disk.update, q) == At(s.disk.update, q))
      && (ok ==> Downloaded(mc, t.disk, e))
      && (Healthy(os, s.calls) && mc.accepts(os.served(e.url), e.signature) ==> ok)
  {
  }

  /** Fetching one file, reply by reply: nothing to do for a file that is there and accepted;
      an outdated one is removed, even if another cannot be fetched then; and the file counts
      as fetched only if the download worked and its signature is accepted. */
  lemma DownloadOutcome(mc: Machine, os: Os, s: Run, e: Entry)
    ensures var (t, ok) := DownloadFile(mc, os, s, e);
      var p, there, folder := e.path, e.path in s.disk.update, os.reply(s.calls);
      var remove := os.reply(s.calls + 1);
      var fetch := if there then os.reply(s.calls + 2) else remove;
      && (there && mc.accepts(s.disk.update[p], e.signature) ==> ok && t == s)
      && (!(there && mc.accepts(s.disk.update[p], e.signature)) ==>
           && (!folder.Works? ==> !ok && t.disk == s.disk)
           && (folder.Works? && fetch.Works? ==>
                At(t.disk.update, p) == Some(os.served(e.url)) && ok == mc.accepts(os.served(e.url), e.signature))
           && (folder.Works? && fetch.Breaks? ==> !ok && At(t.disk.update, p) == Some(fetch.left))
           && (folder.Works? && fetch.Refuses? ==>
                !ok && At(t.disk.update, p) == if remove.Works? then None else At(s.disk.update, p)))
  {
  }

  lemma {:induction false} DownloadAll(mc: Machine, os: Os, s: Run, todo: seq<Entry>, i: nat)
    requires i <= |todo| && Distinct(Paths(todo))
    ensures var (t, ok) := DownloadFrom(mc, os, s, todo, i);
      && t.disk == s.disk.(update := t.disk.update) && t.calls >= s.calls
      && (forall j :: 0 <= j < i ==> At(t.disk.update, todo[j].path) == At(s.disk.update, todo[j].path))
      && (ok ==> forall j :: i <= j < |todo| ==> Downloaded(mc, t.disk, todo[j]))
      && (Healthy(os, s.calls) && (forall e :: e in todo ==> mc.accepts(os.served(e.url), e.signature)) ==> ok)
    decreases |todo| - i
  {
    if i < |todo| {
      var (s1, ok) := DownloadFile(mc, os, s, todo[i]);
      DownloadOne(mc, os, s, todo[i]);
      hide DownloadFile;
      if ok {
        DownloadAll(mc, os, s1, todo, i + 1);
        var t := DownloadFrom(mc, os, s1, todo, i + 1).0;
        assert At(t.disk.update, todo[i].path) == At(s1.disk.update, todo[i].path);
        forall j | 0 <= j < i ensures At(s1.disk.update, todo[j].path) == At(s.disk.update, todo[j].path) {
          assert Paths(todo)[j] != Paths(todo)[i];
        }
      }
    }
  }

  // ----- Installing -----

  /** Without failures every file is installed, under a rename that does not replace its
      target if nothing is in the way in the backup folder. */
  lemma {:induction false} InstallWorks(mc: Machine, os: Os, s: Run, paths: seq<string>, i: nat)
    requires i <= |paths| && Distinct(paths) && Healthy(os, s.calls)
    requires forall j :: i <= j < |paths| ==>
      paths[j] in s.disk.update && (mc.Overwrites() || paths[j] !in s.disk.backup)
    ensures InstallFrom(mc, os, s, paths, i).1.None?
    decreases |paths| - i
  {
    if i < |paths| {
      var p := paths[i];
      InstallOneWorks(mc, os, s, p);
      InstallSlot(mc, os, s, p);
      var s1 := InstallFile(mc, os, s, p).0;
      hide InstallFile;
      forall j | i < j < |paths|
        ensures paths[j] in s1.disk.update && (mc.Overwrites() || paths[j] !in s1.disk.backup)
      {
        assert SlotAt(s1.disk, paths[j]) == SlotAt(s.disk, paths[j]);
      }
      InstallWorks(mc, os, s1, paths, i + 1);
    }
  }

  lemma InstallOneWorks(mc: Machine, os: Os, s: Run, p: string)
    requires Healthy(os, s.calls) && p in s.disk.update && (mc.Overwrites() || p !in s.disk.backup)
    ensures InstallFile(mc, os, s, p).1.None?
  {
    var (s1, _) := MkdirP(os, s);
    RenameSlot(mc, os, s1, App, Backup, p);
    var (s2, saved) := Rename(mc, os, s1, App, Backup, p);
    assert saved != Failed && SlotAt(s2.disk, p) == SavedSlot(SlotAt(s.disk, p));
    var (s3, _) := MkdirP(os, s2);
    RenameSlot(mc, os, s3, Update, App, p);
    assert SlotAt(s3.disk, p).app.None? && SlotAt(s3.disk, p).update.Some?;
  }

  /** A successful transaction: the files to install carry their downloaded content, the
      other manifest files are as they were. In any case the version is untouched. */
  lemma PerformUpdateInstalls(mc: Machine, os: Os, s: Run, paths: seq<string>, manifestPaths: seq<string>,
                              anchor: bool)
    requires FitsManifest(mc, paths, manifestPaths)
    ensures var (t, ok) := PerformUpdate(mc, os, s, paths, manifestPaths, anchor);
      && t.disk.version == s.disk.version
      && (ok ==> forall p :: p in manifestPaths ==>
           At(t.disk.app, p) == if p in paths then At(s.disk.update, p) else At(s.disk.app, p))
  {
    var (s1, folder) := MkdirP(os, s);
    if folder {
      var (s2, stopped) := InstallFrom(mc, os, s1, paths, 0);
      InstallSlots(mc, os, s1, paths, 0);
      hide InstallFrom, Rollback, CleanupObsolete, Norm, NameOf;
      assert paths[0..] == paths;
      if stopped.Some? {
        RollbackSlots(mc, os, s2, paths, stopped.value.0 + 1);
      } else {
        var t := CleanupObsolete(mc, os, s2, manifestPaths, anchor);
        CleanupKeepsVersion(mc, os, s2, manifestPaths, anchor);
        forall p | p in manifestPaths
          ensures At(t.disk.app, p) == if p in paths then At(s.disk.update, p) else At(s.disk.app, p)
        {
          CleanupKeepsSaved(mc, os, s2, manifestPaths, anchor, p);
          assert SlotAt(t.disk, p) == SlotAt(s2.disk, p);
          if p in paths {
            var j :| 0 <= j < |paths| && paths[j] == p;
            assert SlotAt(s2.disk, paths[j]) == InstalledSlot(SlotAt(s1.disk, paths[j]));
          } else {
            assert p !in PathSet(paths);
            assert SlotAt(s2.disk, p) == SlotAt(s1.disk, p);
          }
        }
      }
    }
  }

  lemma CleanupKeepsVersion(mc: Machine, os: Os, s: Run, manifestPaths: seq<string>, anchor: bool)
    ensures CleanupObsolete(mc, os, s, manifestPaths, anchor).disk.version == s.disk.version
  {
    if SweepArmed(mc, manifestPaths, anchor) && Ask(os, s).Works? {
      SweepSpares(mc, os, Called(s), ExpectedKeys(mc, manifestPaths), os.listing(s.disk.app), 0);
    }
  }

  // ----- One run -----

  /** Names are normal forms, and two spellings of one have one key. */
  lemma NameNormal(mc: Machine, p: string)
    ensures Norm(NameOf(mc, p)) == NameOf(mc, p)
    ensures mc.PathKey(NameOf(mc, p)) == mc.PathKey(p)
  {
    NormIdempotent(p);
    NormLower(Norm(p));
    KeyStable(p, mc.FoldsCase());
    hide Norm;
  }

  lemma PendingFits(mc: Machine, app: Files, entries: seq<Entry>)
    requires SeparatePlaces(mc, entries)
    ensures FitsManifest(mc, Paths(Pending(mc, app, entries)), NormalPaths(mc, entries))
  {
    DistinctPlaces(mc, entries);
    PendingDistinct(mc, app, entries);
    hide Pending, Norm, NameOf, SeparatePlaces;
    forall p | p in NormalPaths(mc, entries) ensures Norm(p) == p {
      var i :| 0 <= i < |entries| && NormalPaths(mc, entries)[i] == p;
      NameNormal(mc, entries[i].path);
    }
  }

  lemma PathIn(todo: seq<Entry>, e: Entry)
    requires e in todo
    ensures e.path in Paths(todo)
  {
    var j :| 0 <= j < |todo| && todo[j] == e;
    assert Paths(todo)[j] == e.path;
  }

  /** A path among the pending ones is that of the entry naming it. */
  lemma PendingAt(mc: Machine, app: Files, entries: seq<Entry>, i: nat) returns (j: nat)
    requires SeparatePlaces(mc, entries) && i < |entries|
    requires NameOf(mc, entries[i].path) in Paths(Pending(mc, app, entries))
    ensures j < |Pending(mc, app, entries)| && Pending(mc, app, entries)[j] == Placed(mc, entries[i])
  {
    DistinctPlaces(mc, entries);
    var todo := Pending(mc, app, entries);
    hide Pending, Norm, NameOf, Installed;
    j :| 0 <= j < |todo| && Paths(todo)[j] == NameOf(mc, entries[i].path);
    var k := PendingFrom(mc, app, entries, todo[j]);
    assert NormalPaths(mc, entries)[k] == NormalPaths(mc, entries)[i];
    assert k == i;
  }

  /** Once everything pending is downloaded and the transaction succeeds, every manifest
      file is installed with an accepted signature. */
  lemma TransactionInstallsAll(mc: Machine, os: Os, s: Run, app: Files, entries: seq<Entry>, anchor: bool)
    requires SeparatePlaces(mc, entries) && s.disk.app == app
    requires forall e :: e in Pending(mc, app, entries) ==> Downloaded(mc, s.disk, e)
    ensures var (t, ok) := PerformUpdate(mc, os, s, Paths(Pending(mc, app, entries)), NormalPaths(mc, entries), anchor);
      ok ==> AllInstalled(mc, t.disk.app, entries)
  {
    var todo, manifestPaths := Pending(mc, app, entries), NormalPaths(mc, entries);
    PendingFits(mc, app, entries);
    PerformUpdateInstalls(mc, os, s, Paths(todo), manifestPaths, anchor);
    var (t, ok) := PerformUpdate(mc, os, s, Paths(todo), manifestPaths, anchor);
    hide PerformUpdate, Norm, NameOf, Pending, FitsManifest, SeparatePlaces;
    if ok {
      forall i | 0 <= i < |entries| ensures Installed(mc, t.disk.app, entries[i]) {
        var p := NameOf(mc, entries[i].path);
        assert p == manifestPaths[i] && p in manifestPaths;
        if p in Paths(todo) {
          var j := PendingAt(mc, app, entries, i);
          assert todo[j] in todo;
          assert At(t.disk.app, p) == At(s.disk.update, p);
        } else {
          assert At(t.disk.app, p) == At(s.disk.app, p);
          if !Installed(mc, app, entries[i]) {
            PendingHas(mc, app, entries, i);
            PathIn(todo, Placed(mc, entries[i]));
          }
        }
      }
    }
  }

  lemma WriteVersionEffects(os: Os, s: Run, version: int)
    ensures var t := WriteVersion(os, s, version);
      && t.disk.app == s.disk.app && t.disk.update == s.disk.update
      && (Healthy(os, s.calls) ==> t.disk.version == Some(version))
  {
  }

  lemma FinalCleanupEffects(os: Os, s: Run, version: int)
    ensures var t := FinalCleanup(os, s, version);
      && t.disk.app == s.disk.app
      && (Healthy(os, s.calls) ==> t.disk.version == Some(version) && t.disk.update == map[])
  {
    hide WriteVersion;
    WriteVersionEffects(os, RemoveFolder(os, s, Update), version);
  }

  /** Removing a folder, reply by reply; nothing else is touched. */
  lemma RemovalOutcome(os: Os, s: Run, w: Place, v: Place, q: string)
    ensures var reply, t := os.reply(s.calls), RemoveFolder(os, s, w);
      && t.disk.version == s.disk.version
      && At(Get(t.disk, v), q)
         == if v != w || reply.Refuses? || (reply.Breaks? && q in reply.kept) then At(Get(s.disk, v), q) else None
  {
  }

  lemma RemovalSpares(os: Os, s: Run)
    ensures var t := RemoveFolder(os, s, Backup);
      && t.disk.app == s.disk.app && t.disk.version == s.disk.version && t.calls == s.calls + 1
      && (Ask(os, s).Works? ==> t.disk.backup == map[])
  {
  }

  /** A run either leaves the version file alone or leaves every manifest file installed,
      whatever the replies. */
  lemma ApplySealsOnlyInstalled(mc: Machine, os: Os, s: Run, m: Manifest, anchor: bool)
    requires SeparatePlaces(mc, m.entries)
    ensures var t := ApplyManifest(mc, os, s, m, anchor);
      t.disk.version == s.disk.version || AllInstalled(mc, t.disk.app, m.entries)
  {
    hide DownloadFrom, Pending, NormalPaths, Paths, PerformUpdate, AllInstalled, SeparatePlaces, Downloaded, ParseInt,
      FinalCleanup, RemoveFolder, Distinct;
    var todo := Pending(mc, s.disk.app, m.entries);
    PendingFits(mc, s.disk.app, m.entries);
    var s1 := RemoveFolder(os, s, Backup);
    var (s2, downloaded) := DownloadFrom(mc, os, s1, todo, 0);
    RemovalSpares(os, s);
    DownloadAll(mc, os, s1, todo, 0);
    hide FitsManifest;
    if downloaded {
      var (s3, applied) := PerformUpdate(mc, os, s2, Paths(todo), NormalPaths(mc, m.entries), anchor);
      PerformUpdateInstalls(mc, os, s2, Paths(todo), NormalPaths(mc, m.entries), anchor);
      TransactionInstallsAll(mc, os, s2, s.disk.app, m.entries, anchor);
      if applied { FinalCleanupEffects(os, s3, ParseInt(m.version)); }
    }
  }

  /** The run gets as far as removing the backup folder. */
  predicate Proceeds(mc: Machine, os: Os, d: Disk, text: string) {
    Ask(os, Start(d)).Works? && Parse(text).Some? && IsUpdate(mc, d, Parse(text).value)
  }

  function Fetched(d: Disk): Run { Called(Start(d)) }

  lemma RunIs(mc: Machine, os: Os, d: Disk, text: string)
    ensures CheckForUpdates(mc, os, Start(d), text)
         == if Proceeds(mc, os, d, text)
            then ApplyManifest(mc, os, Fetched(d), Parse(text).value, Anchored(mc, d.app)) else Fetched(d)
    ensures Fetched(d).disk == d && Fetched(d).calls == 1
  {
    hide Parse, IsUpdate, ApplyManifest;
  }

  /** Everything is installed, or the version is still the old one. */
  ghost predicate NotSealedEarly(mc: Machine, m: Manifest, oldVersion: int, d: Disk) {
    AllInstalled(mc, d.app, m.entries) || d.version == Some(oldVersion)
  }

  lemma InstalledStopsRuns(mc: Machine, os: Os, d: Disk, text: string, m: Manifest)
    requires Parse(text) == Some(m) && AllInstalled(mc, d.app, m.entries)
    ensures CheckForUpdates(mc, os, Start(d), text).disk == d
  {
    PendingIs(mc, d.app, m.entries);
    hide Parse, ApplyManifest, Pending, AllInstalled, ParseInt, SignedStream;
  }

  lemma RunKeepsNotSealedEarly(mc: Machine, os: Os, d: Disk, text: string, m: Manifest, oldVersion: int)
    requires Parse(text) == Some(m) && SeparatePlaces(mc, m.entries)
    requires NotSealedEarly(mc, m, oldVersion, d)
    ensures NotSealedEarly(mc, m, oldVersion, CheckForUpdates(mc, os, Start(d), text).disk)
  {
    if AllInstalled(mc, d.app, m.entries) {
      InstalledStopsRuns(mc, os, d, text, m);
    } else {
      ApplySealsOnlyInstalled(mc, os, Called(Start(d)), m, Anchored(mc, d.app));
      hide Parse, ApplyManifest, AllInstalled, IsUpdate, SeparatePlaces;
    }
  }

  // ----- Any number of runs -----

  function Runs(mc: Machine, text: string, d: Disk, runs: seq<Os>): Disk {
    if runs == [] then d
    else CheckForUpdates(mc, runs[|runs| - 1], Start(Runs(mc, text, d, runs[..|runs| - 1])), text).disk
  }

  lemma {:induction false} RunsKeepNotSealedEarly(mc: Machine, text: string, m: Manifest, d: Disk, oldVersion: int,
                                                  runs: seq<Os>)
    requires Parse(text) == Some(m) && SeparatePlaces(mc, m.entries)
    requires NotSealedEarly(mc, m, oldVersion, d)
    ensures NotSealedEarly(mc, m, oldVersion, Runs(mc, text, d, runs))
  {
    if runs != [] {
      var front := runs[..|runs| - 1];
      RunsKeepNotSealedEarly(mc, text, m, d, oldVersion, front);
      RunKeepsNotSealedEarly(mc, runs[|runs| - 1], Runs(mc, text, d, front), text, m, oldVersion);
    }
  }

  /** A run in which no call fails and the server has the signed files. */
  ghost predicate HealthyRun(mc: Machine, os: Os, m: Manifest) {
    && Healthy(os, 0)
    && forall i :: 0 <= i < |m.entries| ==> mc.accepts(os.served(m.entries[i].url), m.entries[i].signature)
  }

  lemma HealthyRunInstalls(mc: Machine, os: Os, d: Disk, text: string, m: Manifest)
    requires Parse(text) == Some(m) && SeparatePlaces(mc, m.entries)
    requires IsUpdate(mc, d, m) && HealthyRun(mc, os, m)
    ensures var e := CheckForUpdates(mc, os, Start(d), text).disk;
      AllInstalled(mc, e.app, m.entries) && e.version == Some(ParseInt(m.version)) && e.update == map[]
  {
    hide Parse, ApplyManifest, Pending;
    ApplyInstalls(mc, os, Called(Start(d)), m, Anchored(mc, d.app));
  }

  lemma PendingServed(mc: Machine, os: Os, app: Files, m: Manifest)
    requires HealthyRun(mc, os, m)
    ensures forall e :: e in Pending(mc, app, m.entries) ==> mc.accepts(os.served(e.url), e.signature)
  {
    hide Pending;
    forall e | e in Pending(mc, app, m.entries) ensures mc.accepts(os.served(e.url), e.signature) {
      var i := PendingFrom(mc, app, m.entries, e);
    }
  }

  lemma ApplyInstalls(mc: Machine, os: Os, s: Run, m: Manifest, anchor: bool)
    requires SeparatePlaces(mc, m.entries) && HealthyRun(mc, os, m)
    ensures var e := ApplyManifest(mc, os, s, m, anchor).disk;
      AllInstalled(mc, e.app, m.entries) && e.version == Some(ParseInt(m.version)) && e.update == map[]
  {
    hide DownloadFrom, PerformUpdate, Pending, NormalPaths, Paths, AllInstalled, ParseInt, Downloaded, SeparatePlaces,
      FinalCleanup, RemoveFolder, Distinct;
    var todo := Pending(mc, s.disk.app, m.entries);
    PendingFits(mc, s.disk.app, m.entries);
    PendingServed(mc, os, s.disk.app, m);
    var s1 := RemoveFolder(os, s, Backup);
    RemovalSpares(os, s);
    assert Healthy(os, 0);
    DownloadAll(mc, os, s1, todo, 0);
    var s2 := DownloadFrom(mc, os, s1, todo, 0).0;
    assert s2.disk.backup == map[] && s2.disk.app == s.disk.app;
    assert forall e :: e in todo ==> Downloaded(mc, s2.disk, e);
    TransactionWorks(mc, os, s2, todo, NormalPaths(mc, m.entries), anchor);
    TransactionInstallsAll(mc, os, s2, s.disk.app, m.entries, anchor);
    var s3 := PerformUpdate(mc, os, s2, Paths(todo), NormalPaths(mc, m.entries), anchor).0;
    FinalCleanupEffects(os, s3, ParseInt(m.version));
  }

  lemma TransactionWorks(mc: Machine, os: Os, s: Run, todo: seq<Entry>, manifestPaths: seq<string>, anchor: bool)
    requires Healthy(os, s.calls) && Distinct(Paths(todo)) && s.disk.backup == map[]
    requires forall e :: e in todo ==> Downloaded(mc, s.disk, e)
    ensures var (t, ok) := PerformUpdate(mc, os, s, Paths(todo), manifestPaths, anchor);
      ok && t.calls >= s.calls
  {
    var (s1, _) := MkdirP(os, s);
    forall j | 0 <= j < |todo| ensures Paths(todo)[j] in s1.disk.update {
      assert todo[j] in todo;
    }
    InstallWorks(mc, os, s1, Paths(todo), 0);
    InstallSlots(mc, os, s1, Paths(todo), 0);
    CleanupCalls(mc, os, InstallFrom(mc, os, s1, Paths(todo), 0).0, manifestPaths, anchor);
  }

  lemma {:induction false} SweepCalls(mc: Machine, os: Os, s: Run, expected: set<string>, visits: seq<string>, i: nat)
    requires i <= |visits|
    ensures SweepFrom(mc, os, s, expected, visits, i).calls >= s.calls
    decreases |visits| - i
  {
    if i < |visits| {
      SweepEntrySlots(mc, os, s, expected, visits[i]);
      SweepCalls(mc, os, SweepEntry(mc, os, s, expected, visits[i]), expected, visits, i + 1);
    }
  }

  lemma CleanupCalls(mc: Machine, os: Os, s: Run, manifestPaths: seq<string>, anchor: bool)
    ensures CleanupObsolete(mc, os, s, manifestPaths, anchor).calls >= s.calls
  {
    if SweepArmed(mc, manifestPaths, anchor) && Ask(os, s).Works? {
      SweepCalls(mc, os, Called(s), ExpectedKeys(mc, manifestPaths), os.listing(s.disk.app), 0);
    }
  }

  /** Crash convergence. Take an installation older than a signed manifest, and any number
      of runs on that manifest, each answered by arbitrary replies and so possibly killed
      at any call. Afterwards the version file is still the old one unless every manifest
      file is installed with an accepted signature; and one further healthy run leaves
      them all installed. That run seals the new version, unless everything was installed
      already: then it changes nothing at all. */
  lemma CrashConvergence(mc: Machine, text: string, m: Manifest, d: Disk, oldVersion: int, runs: seq<Os>, last: Os)
    requires Parse(text) == Some(m) && SeparatePlaces(mc, m.entries)
    requires mc.accepts(SignedStream(m.version, m.entries), m.signature)
    requires d.version == Some(oldVersion) && oldVersion != -1 && oldVersion < ParseInt(m.version)
    requires HealthyRun(mc, last, m)
    ensures var before, after := Runs(mc, text, d, runs), Runs(mc, text, d, runs + [last]);
      && (before.version != Some(oldVersion) ==> AllInstalled(mc, before.app, m.entries))
      && AllInstalled(mc, after.app, m.entries)
      && (if AllInstalled(mc, before.app, m.entries) then after == before
          else after.version == Some(ParseInt(m.version)))
  {
    var before := Runs(mc, text, d, runs);
    RunsKeepNotSealedEarly(mc, text, m, d, oldVersion, runs);
    assert (runs + [last])[..|runs|] == runs;
    var after := CheckForUpdates(mc, last, Start(before), text).disk;
    assert Runs(mc, text, d, runs + [last]) == after;
    hide Runs, CheckForUpdates, AllInstalled, Parse, ParseInt;
    if AllInstalled(mc, before.app, m.entries) {
      InstalledStopsRuns(mc, last, before, text, m);
    } else {
      PendingIs(mc, before.app, m.entries);
      HealthyRunInstalls(mc, last, before, text, m);
    }
  }
}
