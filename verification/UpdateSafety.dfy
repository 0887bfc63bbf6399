/** What no failure can make the updater do: install a file that nobody signed, or fall back
    to an older version; and what a healthy run leaves besides the installed files. */
module UpdateSafety {
  import opened Wrappers
  import opened ManifestPath
  import opened VersionNumber
  import opened Manifest
  import opened UpdateDisk
  import opened UpdateTransaction
  import opened UpdateSweep
  import opened UpdateRuns
  import opened UpdateConservation

  // ----- Only signed files -----

  /** All that slot `y` holds was already somewhere in slot `x`. */
  predicate FromSlot(x: Slot, y: Slot) {
    FromField(x, y.app) && FromField(x, y.update) && FromField(x, y.backup)
  }

  predicate FromField(x: Slot, c: Option<Content>) {
    c == None || c == x.app || c == x.update || c == x.backup
  }

  lemma FromSlotTrans(x: Slot, y: Slot, z: Slot)
    requires FromSlot(x, y) && FromSlot(y, z)
    ensures FromSlot(x, z)
  {
  }

  lemma RenameFrom(mc: Machine, os: Os, s: Run, from: Place, to: Place, p: string, q: string)
    requires from != to
    ensures FromSlot(SlotAt(s.disk, q), SlotAt(Rename(mc, os, s, from, to, p).0.disk, q))
  {
    RenameSlot(mc, os, s, from, to, p);
    hide Rename;
  }

  lemma {:induction false} RollbackFrom(mc: Machine, os: Os, s: Run, paths: seq<string>, n: nat, q: string)
    requires n <= |paths|
    ensures FromSlot(SlotAt(s.disk, q), SlotAt(Rollback(mc, os, s, paths, n).disk, q))
    decreases n
  {
    hide Rename, FromSlot;
    if n > 0 {
      var p := paths[n - 1];
      var s1 := Rename(mc, os, s, App, Update, p).0;
      var s2 := Rename(mc, os, s1, Backup, App, p).0;
      RenameFrom(mc, os, s, App, Update, p, q);
      RenameFrom(mc, os, s1, Backup, App, p, q);
      FromSlotTrans(SlotAt(s.disk, q), SlotAt(s1.disk, q), SlotAt(s2.disk, q));
      RollbackFrom(mc, os, s2, paths, n - 1, q);
      FromSlotTrans(SlotAt(s.disk, q), SlotAt(s2.disk, q), SlotAt(Rollback(mc, os, s2, paths, n - 1).disk, q));
    } else {
      FromSlotSelf(SlotAt(s.disk, q));
    }
  }

  lemma FromSlotSelf(x: Slot)
    ensures FromSlot(x, x)
  {
  }

  lemma InstallFromSlots(mc: Machine, os: Os, s: Run, paths: seq<string>, q: string)
    requires Distinct(paths)
    ensures var t := InstallFrom(mc, os, s, paths, 0).0;
      && FromSlot(SlotAt(s.disk, q), SlotAt(t.disk, q))
      && (q !in paths ==> SlotAt(t.disk, q) == SlotAt(s.disk, q))
  {
    hide InstallFrom, SlotAt, Distinct;
    InstallSlots(mc, os, s, paths, 0);
    assert paths[0..] == paths;
    FromSlotSelf(SlotAt(s.disk, q));
    if q in paths {
      var j :| 0 <= j < |paths| && paths[j] == q;
    }
  }

  lemma {:induction false} SweepOnlyRemoves(mc: Machine, os: Os, s: Run, expected: set<string>,
                                            visits: seq<string>, i: nat, q: string)
    requires i <= |visits|
    ensures At(SweepFrom(mc, os, s, expected, visits, i).disk.app, q) in {At(s.disk.app, q), None}
    decreases |visits| - i
  {
    if i < |visits| {
      SweepEntrySlots(mc, os, s, expected, visits[i]);
      hide SweepEntry;
      SweepOnlyRemoves(mc, os, SweepEntry(mc, os, s, expected, visits[i]), expected, visits, i + 1, q);
    }
  }

  lemma CleanupOnlyRemoves(mc: Machine, os: Os, s: Run, manifestPaths: seq<string>, anchor: bool, q: string)
    ensures At(CleanupObsolete(mc, os, s, manifestPaths, anchor).disk.app, q) in {At(s.disk.app, q), None}
  {
    if SweepArmed(mc, manifestPaths, anchor) && Ask(os, s).Works? {
      SweepOnlyRemoves(mc, os, Called(s), ExpectedKeys(mc, manifestPaths), os.listing(s.disk.app), 0, q);
    }
  }

  /** A transaction brings nothing into the application folder but what its three folders
      held under the same path, and only under the paths it installs. */
  lemma PerformUpdateFrom(mc: Machine, os: Os, s: Run, paths: seq<string>, manifestPaths: seq<string>,
                          anchor: bool, q: string)
    requires Distinct(paths)
    ensures var c := At(PerformUpdate(mc, os, s, paths, manifestPaths, anchor).0.disk.app, q);
      if q in paths then FromField(SlotAt(s.disk, q), c) else c == At(s.disk.app, q) || c == None
  {
    var (s1, folder) := MkdirP(os, s);
    if folder {
      var (s2, stopped) := InstallFrom(mc, os, s1, paths, 0);
      InstallFromSlots(mc, os, s1, paths, q);
      hide InstallFrom, Rollback, CleanupObsolete;
      if stopped.Some? {
        var n := stopped.value.0 + 1;
        RollbackFrom(mc, os, s2, paths, n, q);
        FromSlotTrans(SlotAt(s1.disk, q), SlotAt(s2.disk, q), SlotAt(Rollback(mc, os, s2, paths, n).disk, q));
        RollbackSlots(mc, os, s2, paths, n);
        if q !in paths { assert q !in PathSet(paths[..n]); }
      } else {
        CleanupOnlyRemoves(mc, os, s2, manifestPaths, anchor, q);
      }
    }
  }

  /** Content that an entry of the manifest vouches for at path `q`. */
  ghost predicate Vouched(mc: Machine, m: Manifest, q: string, c: Content) {
    exists i :: 0 <= i < |m.entries| && NameOf(mc, m.entries[i].path) == q && mc.accepts(c, m.entries[i].signature)
  }

  lemma DownloadedVouched(mc: Machine, app: Files, m: Manifest, d: Disk, q: string)
    requires forall e :: e in Pending(mc, app, m.entries) ==> Downloaded(mc, d, e)
    requires q in Paths(Pending(mc, app, m.entries))
    ensures q in d.update && Vouched(mc, m, q, d.update[q])
  {
    var todo := Pending(mc, app, m.entries);
    hide Pending, Norm, NameOf;
    var j :| 0 <= j < |todo| && Paths(todo)[j] == q;
    assert todo[j] in todo;
    var i := PendingFrom(mc, app, m.entries, todo[j]);
  }

  lemma ApplyInstallsOnlySigned(mc: Machine, os: Os, s: Run, m: Manifest, anchor: bool, q: string)
    requires SeparatePlaces(mc, m.entries)
    ensures var c := At(ApplyManifest(mc, os, s, m, anchor).disk.app, q);
      || c == None || c == At(s.disk.app, q)
      || Vouched(mc, m, q, c.value)
      || (c == At(s.disk.backup, q) && !Ask(os, s).Works?)
  {
    var todo := Pending(mc, s.disk.app, m.entries);
    PendingFits(mc, s.disk.app, m.entries);
    var s1 := RemoveFolder(os, s, Backup);
    LeftOverBackup(os, s, q);
    DownloadAll(mc, os, s1, todo, 0);
    var (s2, downloaded) := DownloadFrom(mc, os, s1, todo, 0);
    hide DownloadFrom, Pending, NormalPaths, Paths, PerformUpdate, FitsManifest, SeparatePlaces, Downloaded, ParseInt;
    hide RemoveFolder, Vouched;
    if downloaded {
      var paths, manifestPaths := Paths(todo), NormalPaths(mc, m.entries);
      var (s3, applied) := PerformUpdate(mc, os, s2, paths, manifestPaths, anchor);
      PerformUpdateFrom(mc, os, s2, paths, manifestPaths, anchor, q);
      if q in paths { DownloadedVouched(mc, s.disk.app, m, s2.disk, q); }
      if applied { FinalCleanupKeeps(os, s3, ParseInt(m.version)); }
    }
  }

  /** Whatever fails and wherever a run is killed, each file that the run brings into the
      application folder has a signature accepted for its path by a manifest that is itself
      accepted and newer. The one exception is a left-over backup, put back by a rollback
      in a run that could not remove it at its start. */
  lemma OnlySignedFilesInstalled(mc: Machine, os: Os, d: Disk, text: string, m: Manifest, q: string)
    requires Parse(text) == Some(m) && SeparatePlaces(mc, m.entries)
    ensures var c := At(CheckForUpdates(mc, os, Start(d), text).disk.app, q);
      || c == None || c == At(d.app, q)
      || (Vouched(mc, m, q, c.value) && mc.accepts(SignedStream(m.version, m.entries), m.signature)
          && d.version.Some? && d.version.value < ParseInt(m.version))
      || (c == At(d.backup, q) && !os.reply(1).Works?)
  {
    RunIs(mc, os, d, text);
    ApplyInstallsOnlySigned(mc, os, Fetched(d), m, Anchored(mc, d.app), q);
    hide CheckForUpdates, Fetched, Parse, ApplyManifest, SeparatePlaces, Vouched, Pending, SignedStream, ParseInt;
  }

  /** A run changes nothing, recovery copies in the backup folder included, unless the
      manifest is well-formed, accepted and newer and lists a file not yet installed. */
  lemma ChangeNeedsUpdate(mc: Machine, os: Os, d: Disk, text: string)
    ensures CheckForUpdates(mc, os, Start(d), text).disk != d ==>
      var m := Parse(text);
      && m.Some? && mc.accepts(SignedStream(m.value.version, m.value.entries), m.value.signature)
      && d.version.Some? && d.version.value < ParseInt(m.value.version)
      && !AllInstalled(mc, d.app, m.value.entries)
  {
    if Parse(text).Some? { PendingIs(mc, d.app, Parse(text).value.entries); }
    hide Parse, ApplyManifest, Pending, SignedStream, ParseInt, AllInstalled;
  }

  // ----- Versions -----

  lemma FinalCleanupVersion(os: Os, s: Run, version: int)
    ensures FinalCleanup(os, s, version).disk.version in {s.disk.version, None, Some(version)}
  {
  }

  lemma ApplyVersion(mc: Machine, os: Os, s: Run, m: Manifest, anchor: bool)
    requires SeparatePlaces(mc, m.entries)
    ensures ApplyManifest(mc, os, s, m, anchor).disk.version in {s.disk.version, None, Some(ParseInt(m.version))}
  {
    hide DownloadFrom, Pending, NormalPaths, Paths, PerformUpdate, SeparatePlaces, Downloaded, ParseInt, FinalCleanup,
      RemoveFolder, Distinct;
    var todo := Pending(mc, s.disk.app, m.entries);
    PendingFits(mc, s.disk.app, m.entries);
    var s1 := RemoveFolder(os, s, Backup);
    RemovalSpares(os, s);
    DownloadAll(mc, os, s1, todo, 0);
    var (s2, downloaded) := DownloadFrom(mc, os, s1, todo, 0);
    hide FitsManifest;
    if downloaded {
      PerformUpdateInstalls(mc, os, s2, Paths(todo), NormalPaths(mc, m.entries), anchor);
      var s3 := PerformUpdate(mc, os, s2, Paths(todo), NormalPaths(mc, m.entries), anchor).0;
      FinalCleanupVersion(os, s3, ParseInt(m.version));
    }
  }

  /** One run, with the replies it gets and the text the server offers. */
  datatype Visit = Visit(os: Os, text: string)

  function History(mc: Machine, d: Disk, visits: seq<Visit>): Disk {
    if visits == [] then d
    else
      var last := visits[|visits| - 1];
      CheckForUpdates(mc, last.os, Start(History(mc, d, visits[..|visits| - 1])), last.text).disk
  }

  ghost predicate AllDistinct(mc: Machine, visits: seq<Visit>) {
    forall v :: v in visits && Parse(v.text).Some? ==> SeparatePlaces(mc, Parse(v.text).value.entries)
  }

  predicate NotOlder(was: Option<int>, now: Option<int>) {
    now.None? || (was.Some? && was.value <= now.value)
  }

  lemma RunNotOlder(mc: Machine, os: Os, d: Disk, text: string)
    requires Parse(text).Some? ==> SeparatePlaces(mc, Parse(text).value.entries)
    ensures NotOlder(d.version, CheckForUpdates(mc, os, Start(d), text).disk.version)
  {
    if Parse(text).Some? {
      ApplyVersion(mc, os, Called(Start(d)), Parse(text).value, Anchored(mc, d.app));
    }
    hide Parse, ApplyManifest, SeparatePlaces, Pending, SignedStream, ParseInt;
  }

  /** No sequence of runs, whatever they are offered and however they fail, ever falls back
      to an older version number; and a version that cannot be read stays so. */
  lemma {:induction false} VersionNeverFalls(mc: Machine, d: Disk, visits: seq<Visit>)
    requires AllDistinct(mc, visits)
    ensures NotOlder(d.version, History(mc, d, visits).version)
  {
    if visits != [] {
      var front, last := visits[..|visits| - 1], visits[|visits| - 1];
      assert last in visits && forall v :: v in front ==> v in visits;
      hide Parse, CheckForUpdates, SeparatePlaces;
      VersionNeverFalls(mc, d, front);
      RunNotOlder(mc, last.os, History(mc, d, front), last.text);
    }
  }

  // ----- Losing the version -----

  /** What `readVersion` tells from -1. */
  predicate Readable(version: Option<int>) { version.Some? && version.value != -1 }

  /** The run when it comes to writing the version file, if it does. */
  function Sealing(mc: Machine, os: Os, s: Run, m: Manifest, anchor: bool): Option<Run> {
    var todo := Pending(mc, s.disk.app, m.entries);
    var (s2, downloaded) := DownloadFrom(mc, os, RemoveFolder(os, s, Backup), todo, 0);
    if !downloaded then None
    else
      var (s3, applied) := PerformUpdate(mc, os, s2, Paths(todo), NormalPaths(mc, m.entries), anchor);
      if !applied then None else Some(RemoveFolder(os, s3, Update))
  }

  function SealingAt(mc: Machine, os: Os, d: Disk, text: string): Option<Run> {
    if Proceeds(mc, os, d, text) then Sealing(mc, os, Fetched(d), Parse(text).value, Anchored(mc, d.app)) else None
  }

  lemma WriteVersionLosesIff(os: Os, s: Run, version: int)
    requires Readable(s.disk.version)
    ensures var e := WriteVersion(os, s, version).disk;
      !Readable(e.version) <==> Ask(os, s).Works? && (!os.reply(s.calls + 1).Works? || version == -1)
  {
  }

  lemma SealingKeepsVersion(mc: Machine, os: Os, s: Run, m: Manifest, anchor: bool)
    requires SeparatePlaces(mc, m.entries)
    ensures var t, at := ApplyManifest(mc, os, s, m, anchor), Sealing(mc, os, s, m, anchor);
      && (at.Some? ==> at.value.disk.version == s.disk.version && t == WriteVersion(os, at.value, ParseInt(m.version)))
      && (at.None? ==> t.disk.version == s.disk.version)
  {
    hide DownloadFrom, Pending, NormalPaths, Paths, PerformUpdate, SeparatePlaces, Downloaded, ParseInt, WriteVersion,
      RemoveFolder, Distinct;
    var todo := Pending(mc, s.disk.app, m.entries);
    PendingFits(mc, s.disk.app, m.entries);
    var s1 := RemoveFolder(os, s, Backup);
    DownloadAll(mc, os, s1, todo, 0);
    var (s2, downloaded) := DownloadFrom(mc, os, s1, todo, 0);
    RemoveFolderVersion(os, s, Backup);
    hide FitsManifest;
    if downloaded {
      PerformUpdateInstalls(mc, os, s2, Paths(todo), NormalPaths(mc, m.entries), anchor);
      RemoveFolderVersion(os, PerformUpdate(mc, os, s2, Paths(todo), NormalPaths(mc, m.entries), anchor).0, Update);
    }
  }

  lemma RemoveFolderVersion(os: Os, s: Run, w: Place)
    ensures RemoveFolder(os, s, w).disk.version == s.disk.version
  {
  }

  /** A run on a readable version ends with one that cannot be read exactly when it comes to
      the sealing, the version file is truncated, and the number is then not written, or is
      -1. Every manifest file is installed by then. */
  lemma RunLosesVersionIff(mc: Machine, os: Os, d: Disk, text: string)
    requires Readable(d.version) && (Parse(text).Some? ==> SeparatePlaces(mc, Parse(text).value.entries))
    ensures var e, at := CheckForUpdates(mc, os, Start(d), text).disk, SealingAt(mc, os, d, text);
      && (!Readable(e.version) <==>
           at.Some? && Ask(os, at.value).Works?
           && (!os.reply(at.value.calls + 1).Works? || ParseInt(Parse(text).value.version) == -1))
      && (!Readable(e.version) ==> AllInstalled(mc, e.app, Parse(text).value.entries))
  {
    hide CheckForUpdates, Fetched, Parse, ApplyManifest, Sealing, AllInstalled, ParseInt, WriteVersion, SeparatePlaces;
    RunIs(mc, os, d, text);
    if Proceeds(mc, os, d, text) {
      SealingLosesIff(mc, os, Fetched(d), Parse(text).value, Anchored(mc, d.app));
      hide Proceeds, IsUpdate;
    }
  }

  lemma SealingLosesIff(mc: Machine, os: Os, s: Run, m: Manifest, anchor: bool)
    requires Readable(s.disk.version) && SeparatePlaces(mc, m.entries)
    ensures var e, at := ApplyManifest(mc, os, s, m, anchor).disk, Sealing(mc, os, s, m, anchor);
      && (!Readable(e.version) <==>
           at.Some? && Ask(os, at.value).Works?
           && (!os.reply(at.value.calls + 1).Works? || ParseInt(m.version) == -1))
      && (!Readable(e.version) ==> AllInstalled(mc, e.app, m.entries))
  {
    hide ApplyManifest, Sealing, AllInstalled, ParseInt, WriteVersion, SeparatePlaces;
    ApplySealsOnlyInstalled(mc, os, s, m, anchor);
    SealingKeepsVersion(mc, os, s, m, anchor);
    var at := Sealing(mc, os, s, m, anchor);
    if at.Some? { WriteVersionLosesIff(os, at.value, ParseInt(m.version)); }
  }

  /** From a disk for which some update is still to be had, no run can change anything any
      more, whatever it is offered and whatever the replies, exactly when the version
      cannot be read. */
  lemma StuckIff(mc: Machine, d: Disk, text: string, m: Manifest, healthy: Os)
    requires Parse(text) == Some(m) && SeparatePlaces(mc, m.entries) && HealthyRun(mc, healthy, m)
    requires mc.accepts(SignedStream(m.version, m.entries), m.signature)
    requires !AllInstalled(mc, d.app, m.entries)
    requires Readable(d.version) ==> d.version.value < ParseInt(m.version)
    ensures (forall os: Os, t: string :: CheckForUpdates(mc, os, Start(d), t).disk == d) <==> !Readable(d.version)
  {
    if Readable(d.version) {
      PendingIs(mc, d.app, m.entries);
      HealthyRunInstalls(mc, healthy, d, text, m);
      assert CheckForUpdates(mc, healthy, Start(d), text).disk != d;
    } else {
      hide Parse, ApplyManifest;
    }
  }

  // ----- What a healthy run sweeps -----

  lemma TransactionSweeps(mc: Machine, os: Os, s: Run, paths: seq<string>, manifestPaths: seq<string>)
    requires FitsManifest(mc, paths, manifestPaths) && SweepArmed(mc, manifestPaths, true)
    requires ObsoleteApart(mc, ExpectedKeys(mc, manifestPaths), s.disk)
    requires Healthy(os, s.calls) && (forall f: Files, q :: q in f ==> q in os.listing(f))
    ensures var (t, ok) := PerformUpdate(mc, os, s, paths, manifestPaths, true);
      ok ==> SweptClean(mc, ExpectedKeys(mc, manifestPaths), s.disk, t.disk)
  {
    var s1 := Called(s);
    var (s2, stopped) := InstallFrom(mc, os, s1, paths, 0);
    var expected := ExpectedKeys(mc, manifestPaths);
    InstallSlots(mc, os, s1, paths, 0);
    InstalledNamesApart(mc, os, s1, paths, manifestPaths);
    hide InstallFrom, Rollback, CleanupObsolete, SweepArmed, FitsManifest, IsExpected, Norm, NameOf, ExpectedKeys;
    if stopped.None? {
      SweepExact(mc, os, s2, manifestPaths, true);
      assert NamesApart(mc, expected, s2.disk);
      forall q | Obsolete(mc, expected, s.disk, q)
        ensures Obsolete(mc, expected, s2.disk, q) && s2.disk.app[q] == s.disk.app[q]
      {
        ObsoleteUntouched(mc, os, s1, paths, manifestPaths, q);
      }
    }
  }

  /** Only files with a manifest key are left in the application folder; every obsolete
      file is in the backup folder. */
  ghost predicate SweptClean(mc: Machine, expected: set<string>, d: Disk, e: Disk) {
    && (forall q :: q in e.app ==> mc.PathKey(q) in expected)
    && (forall q :: Obsolete(mc, expected, d, q) ==> At(e.backup, Norm(q)) == Some(d.app[q]))
  }

  /** A healthy run on an installation whose binary the manifest lists leaves just the
      manifest files, each with an accepted signature, and keeps every obsolete file in
      the backup folder. */
  lemma HealthyRunSweeps(mc: Machine, os: Os, d: Disk, text: string, m: Manifest)
    requires Parse(text) == Some(m) && SeparatePlaces(mc, m.entries)
    requires IsUpdate(mc, d, m) && HealthyRun(mc, os, m) && Anchored(mc, d.app)
    requires SweepArmed(mc, NormalPaths(mc, m.entries), true)
    requires ObsoleteApart(mc, ExpectedKeys(mc, NormalPaths(mc, m.entries)), d)
    requires forall f: Files, q :: q in f ==> q in os.listing(f)
    ensures var e := CheckForUpdates(mc, os, Start(d), text).disk;
      AllInstalled(mc, e.app, m.entries) && SweptClean(mc, ExpectedKeys(mc, NormalPaths(mc, m.entries)), d, e)
  {
    HealthyRunInstalls(mc, os, d, text, m);
    var expected := ExpectedKeys(mc, NormalPaths(mc, m.entries));
    var s := Called(Start(d));
    ApplySweeps(mc, os, s, m);
    hide Parse, ApplyManifest, IsUpdate, SeparatePlaces, SweptClean, ObsoleteApart, AllInstalled, ExpectedKeys;
    assert CheckForUpdates(mc, os, Start(d), text) == ApplyManifest(mc, os, s, m, true);
  }

  /** The phases of a healthy run up to the transaction. */
  lemma HealthyDownload(mc: Machine, os: Os, s: Run, m: Manifest)
    requires SeparatePlaces(mc, m.entries) && HealthyRun(mc, os, m)
    ensures var todo := Pending(mc, s.disk.app, m.entries);
      var (t, ok) := DownloadFrom(mc, os, RemoveFolder(os, s, Backup), todo, 0);
      && ok && t.disk.app == s.disk.app && t.disk.backup == map[] && t.calls >= s.calls
      && forall e :: e in todo ==> Downloaded(mc, t.disk, e)
  {
    hide DownloadFrom, Pending, NormalPaths, Paths, Downloaded, SeparatePlaces, RemoveFolder, Distinct;
    var todo := Pending(mc, s.disk.app, m.entries);
    PendingFits(mc, s.disk.app, m.entries);
    PendingServed(mc, os, s.disk.app, m);
    RemovalSpares(os, s);
    assert Healthy(os, 0);
    DownloadAll(mc, os, RemoveFolder(os, s, Backup), todo, 0);
  }

  lemma ApplySweeps(mc: Machine, os: Os, s: Run, m: Manifest)
    requires SeparatePlaces(mc, m.entries) && HealthyRun(mc, os, m)
    requires SweepArmed(mc, NormalPaths(mc, m.entries), true)
    requires ObsoleteApart(mc, ExpectedKeys(mc, NormalPaths(mc, m.entries)), s.disk)
    requires forall f: Files, q :: q in f ==> q in os.listing(f)
    ensures SweptClean(mc, ExpectedKeys(mc, NormalPaths(mc, m.entries)), s.disk, ApplyManifest(mc, os, s, m, true).disk)
  {
    var todo, manifestPaths := Pending(mc, s.disk.app, m.entries), NormalPaths(mc, m.entries);
    var expected := ExpectedKeys(mc, manifestPaths);
    PendingFits(mc, s.disk.app, m.entries);
    HealthyDownload(mc, os, s, m);
    assert Healthy(os, 0);
    var s2 := DownloadFrom(mc, os, RemoveFolder(os, s, Backup), todo, 0).0;
    hide RemoveFolder, DownloadFrom, PerformUpdate, Pending, NormalPaths, Paths, ParseInt, Downloaded, SeparatePlaces;
    hide SweepArmed, ExpectedKeys, FinalCleanup, ObsoleteApart, SweptClean, HealthyRun;
    SameObsolete(mc, expected, s.disk, s2.disk);
    TransactionWorks(mc, os, s2, todo, manifestPaths, true);
    TransactionSweeps(mc, os, s2, Paths(todo), manifestPaths);
    var s3 := PerformUpdate(mc, os, s2, Paths(todo), manifestPaths, true).0;
    FinalCleanupKeeps(os, s3, ParseInt(m.version));
    SweptCleanSame(mc, expected, s2.disk, s3.disk, s.disk, FinalCleanup(os, s3, ParseInt(m.version)).disk);
  }

  lemma SweptCleanSame(mc: Machine, expected: set<string>, d: Disk, e: Disk, d1: Disk, e1: Disk)
    requires SweptClean(mc, expected, d, e) && d1.app == d.app && e1.app == e.app && e1.backup == e.backup
    ensures SweptClean(mc, expected, d1, e1)
  {
    hide IsExpected, Norm, NameOf;
    forall q | Obsolete(mc, expected, d1, q) ensures At(e1.backup, Norm(q)) == Some(d1.app[q]) {
      assert Obsolete(mc, expected, d, q);
    }
  }
}
