/** What installing, rolling back and sweeping do to the three folders, whatever the
    operating system replies. Everything is argued one path at a time: a slot holds what
    the three folders have under one path. */
module UpdateTransaction {
  import opened Wrappers
  import opened UpdateDisk

  // ----- Slots -----

  datatype Slot = Slot(app: Option<Content>, update: Option<Content>, backup: Option<Content>)

  function At(f: Files, p: string): Option<Content> { if p in f then Some(f[p]) else None }

  function SlotAt(d: Disk, p: string): Slot { Slot(At(d.app, p), At(d.update, p), At(d.backup, p)) }

  /** Only the slots of `ps` may differ. */
  ghost predicate OnlyAt(d: Disk, e: Disk, ps: set<string>) {
    e.version == d.version && forall q :: q !in ps ==> SlotAt(e, q) == SlotAt(d, q)
  }

  lemma SameFiles(f: Files, g: Files)
    requires forall p :: At(f, p) == At(g, p)
    ensures f == g
  {
    forall p ensures p in f <==> p in g { assert At(f, p) == At(g, p); }
    forall p | p in f ensures f[p] == g[p] { assert At(f, p) == At(g, p); }
  }

  /** What a rename that is not refused does to the slot of its path. */
  function MoveSlot(overwrites: bool, x: Slot, from: Place, to: Place): Slot {
    if SlotField(x, from).None? || (!overwrites && SlotField(x, to).Some?) then x
    else SetField(SetField(x, from, None), to, SlotField(x, from))
  }

  function SlotField(x: Slot, w: Place): Option<Content> {
    match w
    case App => x.app
    case Update => x.update
    case Backup => x.backup
  }

  function SetField(x: Slot, w: Place, c: Option<Content>): Slot {
    match w
    case App => x.(app := c)
    case Update => x.(update := c)
    case Backup => x.(backup := c)
  }

  lemma RenameSlot(mc: Machine, os: Os, s: Run, from: Place, to: Place, p: string)
    requires from != to
    ensures var (t, r) := Rename(mc, os, s, from, to, p);
      && OnlyAt(s.disk, t.disk, {p}) && t.calls == s.calls + 1
      && (!Ask(os, s).Works? ==> r == Failed && t.disk == s.disk)
      && (Ask(os, s).Works? ==>
           && SlotAt(t.disk, p) == MoveSlot(mc.Overwrites(), SlotAt(s.disk, p), from, to)
           && (r == NoEntry <==> SlotField(SlotAt(s.disk, p), from).None?)
           && (r == Failed <==> SlotField(SlotAt(s.disk, p), from).Some?
                                && !mc.Overwrites() && SlotField(SlotAt(s.disk, p), to).Some?))
  {
  }

  lemma OnlyAtTrans(d: Disk, e: Disk, f: Disk, ps: set<string>)
    requires OnlyAt(d, e, ps) && OnlyAt(e, f, ps)
    ensures OnlyAt(d, f, ps)
  {
    forall q | q !in ps ensures SlotAt(f, q) == SlotAt(d, q) { assert SlotAt(e, q) == SlotAt(d, q); }
  }

  // ----- Installing -----

  predicate Distinct(paths: seq<string>) {
    forall i, j :: 0 <= i < j < |paths| ==> paths[i] != paths[j]
  }

  function PathSet(paths: seq<string>): set<string> { set p | p in paths }

  /** A slot after its file has been installed. */
  function InstalledSlot(x: Slot): Slot {
    Slot(x.update, None, if x.app.Some? then x.app else x.backup)
  }

  /** A slot whose old file has been moved to the backup folder. */
  function SavedSlot(x: Slot): Slot {
    if x.app.Some? then Slot(None, x.update, x.app) else x
  }

  predicate Early(stage: Stage) { stage.BackupFolder? || stage.BackupMove? }

  lemma InstallSlot(mc: Machine, os: Os, s: Run, p: string)
    ensures var (t, stopped) := InstallFile(mc, os, s, p);
      var x := SlotAt(s.disk, p);
      && OnlyAt(s.disk, t.disk, {p}) && s.calls < t.calls <= s.calls + 4
      && (stopped.None? ==>
           SlotAt(t.disk, p) == InstalledSlot(x) && x.update.Some?
           && (mc.Overwrites() || x.app.None? || x.backup.None?))
      && (stopped.Some? ==> SlotAt(t.disk, p) == if Early(stopped.value) then x else SavedSlot(x))
  {
    var (s1, folder) := MkdirP(os, s);
    if folder {
      RenameSlot(mc, os, s1, App, Backup, p);
      var (s2, saved) := Rename(mc, os, s1, App, Backup, p);
      if saved != Failed {
        var (s3, target) := MkdirP(os, s2);
        if target {
          RenameSlot(mc, os, s3, Update, App, p);
          OnlyAtTrans(s.disk, s3.disk, Rename(mc, os, s3, Update, App, p).0.disk, {p});
        }
      }
    }
  }

  /** Installing the files from `i` on: those in front of the stop are installed, the one
      at the stop is as before or has its old file saved, the others are untouched. */
  lemma {:induction false} InstallSlots(mc: Machine, os: Os, s: Run, paths: seq<string>, i: nat)
    requires i <= |paths| && Distinct(paths)
    ensures var (t, stopped) := InstallFrom(mc, os, s, paths, i);
      var n := if stopped.Some? then stopped.value.0 else |paths|;
      && OnlyAt(s.disk, t.disk, PathSet(paths[i..])) && s.calls <= t.calls
      && (forall j :: i <= j < n ==>
           SlotAt(t.disk, paths[j]) == InstalledSlot(SlotAt(s.disk, paths[j]))
           && SlotAt(s.disk, paths[j]).update.Some?
           && (mc.Overwrites() || SlotAt(s.disk, paths[j]).app.None? || SlotAt(s.disk, paths[j]).backup.None?))
      && (n < |paths| ==>
           SlotAt(t.disk, paths[n]) == if Early(stopped.value.1) then SlotAt(s.disk, paths[n])
                                       else SavedSlot(SlotAt(s.disk, paths[n])))
      && (forall j :: n < j < |paths| ==> SlotAt(t.disk, paths[j]) == SlotAt(s.disk, paths[j]))
    decreases |paths| - i
  {
    hide InstallFile, InstalledSlot, SavedSlot, Early, SlotAt;
    if i < |paths| {
      var p := paths[i];
      InstallSlot(mc, os, s, p);
      var (s1, stopped) := InstallFile(mc, os, s, p);
      assert PathSet(paths[i..]) == {p} + PathSet(paths[i + 1..]);
      if stopped.None? {
        InstallSlots(mc, os, s1, paths, i + 1);
        var t := InstallFrom(mc, os, s1, paths, i + 1).0;
        assert p !in PathSet(paths[i + 1..]);
        assert SlotAt(t.disk, p) == SlotAt(s1.disk, p);
        forall q | q !in PathSet(paths[i..]) ensures SlotAt(t.disk, q) == SlotAt(s.disk, q) {
          assert SlotAt(s1.disk, q) == SlotAt(s.disk, q);
        }
        forall j | i < j < |paths| ensures SlotAt(s1.disk, paths[j]) == SlotAt(s.disk, paths[j]) {}
      }
    }
  }

  // ----- Rolling back -----

  /** What both renames of the rollback do to a slot when neither is refused. */
  function RolledBackSlot(overwrites: bool, x: Slot): Slot {
    MoveSlot(overwrites, MoveSlot(overwrites, x, App, Update), Backup, App)
  }

  predicate AllWork(os: Os, from: nat, to: nat) {
    forall k :: from <= k < to ==> os.reply(k).Works?
  }

  lemma RollbackSlot(mc: Machine, os: Os, s: Run, p: string)
    ensures var t := RollbackFile(mc, os, s, p);
      && OnlyAt(s.disk, t.disk, {p}) && t.calls == s.calls + 2
      && (AllWork(os, s.calls, s.calls + 2) ==>
           SlotAt(t.disk, p) == RolledBackSlot(mc.Overwrites(), SlotAt(s.disk, p)))
  {
    var s1 := Rename(mc, os, s, App, Update, p).0;
    RenameSlot(mc, os, s, App, Update, p);
    RenameSlot(mc, os, s1, Backup, App, p);
    OnlyAtTrans(s.disk, s1.disk, RollbackFile(mc, os, s, p).disk, {p});
  }

  lemma {:induction false} RollbackSlots(mc: Machine, os: Os, s: Run, paths: seq<string>, n: nat)
    requires n <= |paths| && Distinct(paths)
    ensures var t := Rollback(mc, os, s, paths, n);
      && OnlyAt(s.disk, t.disk, PathSet(paths[..n])) && t.calls == s.calls + 2 * n
      && (AllWork(os, s.calls, s.calls + 2 * n) ==>
           forall j :: 0 <= j < n ==>
             SlotAt(t.disk, paths[j]) == RolledBackSlot(mc.Overwrites(), SlotAt(s.disk, paths[j])))
    decreases n
  {
    if n > 0 {
      var p := paths[n - 1];
      var s1 := RollbackFile(mc, os, s, p);
      RollbackSlot(mc, os, s, p);
      RollbackSlots(mc, os, s1, paths, n - 1);
      hide RollbackFile, RolledBackSlot;
      var t := Rollback(mc, os, s1, paths, n - 1);
      assert PathSet(paths[..n]) == {p} + PathSet(paths[..n - 1]);
      assert p !in PathSet(paths[..n - 1]);
      assert SlotAt(t.disk, p) == SlotAt(s1.disk, p);
      forall q | q !in PathSet(paths[..n]) ensures SlotAt(t.disk, q) == SlotAt(s.disk, q) {
        assert SlotAt(s1.disk, q) == SlotAt(s.disk, q);
      }
      forall j | 0 <= j < n - 1 ensures SlotAt(s1.disk, paths[j]) == SlotAt(s.disk, paths[j]) {}
    }
  }

  /** The application and update folders hold what they held. */
  predicate Restored(d: Disk, e: Disk) { e.app == d.app && e.update == d.update }

  /** No path without an application file has a left-over backup. */
  predicate NoStaleBackup(d: Disk, ps: seq<string>) {
    forall i :: 0 <= i < |ps| ==> ps[i] in d.app || ps[i] !in d.backup
  }

  /** Rolling back a file whose old version was never saved: under a replacing rename the
      old version overwrites the update, and only an equal backup could undo that. */
  predicate UnsavedSurvives(mc: Machine, x: Slot) {
    mc.Overwrites() && x.app.Some? ==> x.app == x.backup == x.update
  }

  predicate SameAppAndUpdate(x: Slot, y: Slot) { y.app == x.app && y.update == x.update }

  lemma InstalledSlotRestored(mc: Machine, x: Slot)
    requires x.update.Some? && (mc.Overwrites() || x.app.None? || x.backup.None?)
    ensures SameAppAndUpdate(x, RolledBackSlot(mc.Overwrites(), InstalledSlot(x)))
            <==> x.app.Some? || x.backup.None?
  {
  }

  lemma StoppedSlotRestored(mc: Machine, x: Slot, stage: Stage)
    requires x.update.Some?
    ensures SameAppAndUpdate(x, RolledBackSlot(mc.Overwrites(), if Early(stage) then x else SavedSlot(x)))
            <==> (x.app.Some? || x.backup.None?) && (Early(stage) ==> UnsavedSurvives(mc, x))
  {
  }

  /** The stop at file `i` and stage `stage`, followed by a rollback that works. */
  ghost predicate StoppedThenRolledBack(mc: Machine, os: Os, s: Run, paths: seq<string>, i: nat, stage: Stage) {
    var (t, stopped) := InstallFrom(mc, os, s, paths, 0);
    && Distinct(paths) && (forall p :: p in paths ==> p in s.disk.update)
    && stopped == Some((i, stage)) && AllWork(os, t.calls, t.calls + 2 * (i + 1))
  }

  function RolledBack(mc: Machine, os: Os, s: Run, paths: seq<string>): Disk {
    var (t, stopped) := InstallFrom(mc, os, s, paths, 0);
    if stopped.None? then t.disk else Rollback(mc, os, t, paths, stopped.value.0 + 1).disk
  }

  lemma FileRestored(mc: Machine, os: Os, s: Run, paths: seq<string>, i: nat, stage: Stage, j: nat)
    requires StoppedThenRolledBack(mc, os, s, paths, i, stage) && j <= i < |paths|
    ensures SameAppAndUpdate(SlotAt(s.disk, paths[j]), SlotAt(RolledBack(mc, os, s, paths), paths[j]))
            <==> (paths[j] in s.disk.app || paths[j] !in s.disk.backup)
                 && (j == i && Early(stage) ==> UnsavedSurvives(mc, SlotAt(s.disk, paths[i])))
  {
    hide InstallFrom, Rollback, InstalledSlot, SavedSlot, RolledBackSlot, UnsavedSurvives, Early, Distinct;
    var t := InstallFrom(mc, os, s, paths, 0).0;
    InstallSlots(mc, os, s, paths, 0);
    RollbackSlots(mc, os, t, paths, i + 1);
    var x := SlotAt(s.disk, paths[j]);
    assert paths[j] in paths;
    if j < i { InstalledSlotRestored(mc, x); } else { StoppedSlotRestored(mc, x, stage); }
  }

  lemma OthersKept(mc: Machine, os: Os, s: Run, paths: seq<string>, i: nat, stage: Stage)
    requires StoppedThenRolledBack(mc, os, s, paths, i, stage)
    ensures i < |paths|
    ensures Restored(s.disk, RolledBack(mc, os, s, paths))
            <==> forall j :: 0 <= j <= i ==>
                   SameAppAndUpdate(SlotAt(s.disk, paths[j]), SlotAt(RolledBack(mc, os, s, paths), paths[j]))
  {
    var t := InstallFrom(mc, os, s, paths, 0).0;
    InstallSlots(mc, os, s, paths, 0);
    RollbackSlots(mc, os, t, paths, i + 1);
    hide InstallFrom, Rollback, InstalledSlot, SavedSlot, RolledBackSlot;
    assert paths[0..] == paths;
    RestoredIffSlots(s.disk, t.disk, RolledBack(mc, os, s, paths), paths, i + 1);
  }

  /** Rollback exactness. After a stop at file `i`, with a rollback none of whose renames
      is refused, both folders are exactly restored iff no backup was stale and, for a
      stop before the old file was saved, `UnsavedSurvives`. */
  lemma RollbackExact(mc: Machine, os: Os, s: Run, paths: seq<string>, i: nat, stage: Stage)
    requires StoppedThenRolledBack(mc, os, s, paths, i, stage)
    ensures i < |paths|
    ensures Restored(s.disk, RolledBack(mc, os, s, paths))
            <==> NoStaleBackup(s.disk, paths[..i + 1])
                 && (Early(stage) ==> UnsavedSurvives(mc, SlotAt(s.disk, paths[i])))
  {
    OthersKept(mc, os, s, paths, i, stage);
    hide Restored, RolledBack, SameAppAndUpdate, UnsavedSurvives, StoppedThenRolledBack;
    forall j | 0 <= j <= i
      ensures SameAppAndUpdate(SlotAt(s.disk, paths[j]), SlotAt(RolledBack(mc, os, s, paths), paths[j]))
              <==> (paths[j] in s.disk.app || paths[j] !in s.disk.backup)
                   && (j == i && Early(stage) ==> UnsavedSurvives(mc, SlotAt(s.disk, paths[i])))
    {
      FileRestored(mc, os, s, paths, i, stage, j);
    }
    assert forall j :: 0 <= j <= i ==> paths[..i + 1][j] == paths[j];
  }

  lemma RestoredIffSlots(d: Disk, m: Disk, e: Disk, paths: seq<string>, n: nat)
    requires n <= |paths| && Distinct(paths)
    requires OnlyAt(d, m, PathSet(paths)) && OnlyAt(m, e, PathSet(paths[..n]))
    requires forall j :: n <= j < |paths| ==> SlotAt(m, paths[j]) == SlotAt(d, paths[j])
    ensures Restored(d, e)
            <==> forall j :: 0 <= j < n ==> SameAppAndUpdate(SlotAt(d, paths[j]), SlotAt(e, paths[j]))
  {
    assert forall k :: 0 <= k < n ==> paths[k] == paths[..n][k] && paths[k] in PathSet(paths[..n]);
    if forall j :: 0 <= j < n ==> SameAppAndUpdate(SlotAt(d, paths[j]), SlotAt(e, paths[j])) {
      forall q ensures SameAppAndUpdate(SlotAt(d, q), SlotAt(e, q)) {
        if q in PathSet(paths[..n]) {
          var j :| 0 <= j < n && paths[j] == q;
        } else {
          assert SlotAt(e, q) == SlotAt(m, q);
          if q in PathSet(paths) {
            var j :| 0 <= j < |paths| && paths[j] == q;
          }
        }
      }
      forall q ensures At(e.app, q) == At(d.app, q) && At(e.update, q) == At(d.update, q) {
        assert SameAppAndUpdate(SlotAt(d, q), SlotAt(e, q));
      }
      SameFiles(e.app, d.app);
      SameFiles(e.update, d.update);
    }
  }

  /** From a clean backup folder the rollback restores both folders exactly, unless the
      rename replaces its target, the stop came before the old file was saved, and there
      was an old file. */
  lemma RollbackFromCleanBackup(mc: Machine, os: Os, s: Run, paths: seq<string>, i: nat, stage: Stage)
    requires StoppedThenRolledBack(mc, os, s, paths, i, stage) && s.disk.backup == map[]
    ensures i < |paths|
    ensures Restored(s.disk, RolledBack(mc, os, s, paths))
            <==> !(mc.Overwrites() && Early(stage) && paths[i] in s.disk.app)
  {
    RollbackExact(mc, os, s, paths, i, stage);
  }

  /** A concrete loss: the second call, the rename into the backup folder, is refused
      once. Rolling back moves the old file over the downloaded one and has nothing to
      put back, so the application folder ends without the file. */
  lemma RollbackLosesUnsavedFile(caseless: bool, accepts: (Content, string) -> bool, served: string -> Content,
                                 listing: Files -> seq<string>)
    ensures var mc := Machine(MacOS, caseless, accepts);
      var os := Os(k => if k == 1 then Refuses else Works, served, listing);
      var d := Disk(map["f" := [1]], map["f" := [2]], map[], Some(1));
      var (t, stopped) := InstallFrom(mc, os, Start(d), ["f"], 0);
      var e := Rollback(mc, os, t, ["f"], 1).disk;
      stopped == Some((0, BackupMove)) && "f" !in e.app && e.update == map["f" := [1]]
  {
    var mc := Machine(MacOS, caseless, accepts);
    var os := Os(k => if k == 1 then Refuses else Works, served, listing);
    var s := Start(Disk(map["f" := [1]], map["f" := [2]], map[], Some(1)));
    InstallSlot(mc, os, s, "f");
    var (t, stopped) := InstallFile(mc, os, s, "f");
    assert stopped == Some(BackupMove) && t.calls == 2;
    assert InstallFrom(mc, os, s, ["f"], 0) == (t, Some((0, BackupMove)));
    var u := RollbackFile(mc, os, t, "f");
    RollbackSlot(mc, os, t, "f");
    assert SlotAt(u.disk, "f") == Slot(None, Some([1]), None);
    assert Rollback(mc, os, t, ["f"], 1) == Rollback(mc, os, u, ["f"], 0) == u;
    forall q ensures At(u.disk.update, q) == At(map["f" := [1]], q) {
      assert q != "f" ==> SlotAt(u.disk, q) == SlotAt(t.disk, q) == SlotAt(s.disk, q);
      assert q == "f" ==> SlotAt(u.disk, q).update == Some([1]);
    }
    SameFiles(u.disk.update, map["f" := [1]]);
    assert SlotAt(u.disk, "f").app == None;
  }
}
