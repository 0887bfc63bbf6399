/** A process that is killed. `Run` records the disk that each call meets; a run whose calls
    from the k-th on are all refused ends with the disk that the k-th call of the
    undisturbed run meets. Every theorem for all replies therefore covers every kill. */
module UpdateKills {
  import opened Wrappers
  import opened Manifest
  import opened ManifestPath
  import opened UpdateDisk
  import opened VersionNumber

  /** From call `from` on the process is dead. */
  ghost predicate Dead(os: Os, from: nat) { forall k: nat :: k >= from ==> os.reply(k).Refuses? }

  /** The run under `dead` is the one under `os`, killed when it makes call `k`. */
  ghost predicate Killed(os: Os, dead: Os, k: nat) {
    && dead.served == os.served && dead.listing == os.listing
    && (forall j: nat :: j < k ==> dead.reply(j) == os.reply(j))
    && Dead(dead, k)
  }

  /** A later state of the same run. */
  ghost predicate Grows(s: Run, t: Run) {
    s.calls <= t.calls && forall j :: 0 <= j < s.calls && j in s.met ==> j in t.met && t.met[j] == s.met[j]
  }

  /** Nothing on the disk has changed. */
  predicate Idle(s: Run, t: Run) { t.disk == s.disk && s.calls <= t.calls }

  /** `u` is `t` if that is reached before call `k`; else it has the disk that call met. */
  ghost predicate Cut(k: nat, t: Run, u: Run) {
    if t.calls <= k then u == t else k < u.calls && k in t.met && u.disk == t.met[k]
  }

  lemma CutOn(k: nat, t: Run, u: Run, tt: Run, uu: Run)
    requires t.calls > k && Cut(k, t, u) && Grows(t, tt) && Idle(u, uu)
    ensures Cut(k, tt, uu)
  {
  }

  lemma CutSame(k: nat, t: Run)
    requires t.calls <= k
    ensures Cut(k, t, t)
  {
  }

  lemma GrowsOn(s: Run, t: Run, u: Run)
    requires Grows(s, t) && Grows(t, u)
    ensures Grows(s, u)
  {
  }

  lemma GrowsSelf(s: Run)
    ensures Grows(s, s) && Idle(s, s)
  {
  }

  lemma IdleOn(s: Run, t: Run, u: Run)
    requires Idle(s, t) && Idle(t, u)
    ensures Idle(s, u)
  {
  }

  lemma DeadLater(os: Os, from: nat, later: nat)
    requires Dead(os, from) && from <= later
    ensures Dead(os, later)
  {
  }

  lemma KilledIsDead(os: Os, dead: Os, k: nat, c: Run)
    requires Killed(os, dead, k) && c.calls >= k
    ensures Dead(dead, c.calls)
  {
  }

  lemma CutIsDead(os: Os, dead: Os, k: nat, t: Run, u: Run)
    requires Killed(os, dead, k) && t.calls > k && Cut(k, t, u)
    ensures Dead(dead, u.calls)
  {
  }

  // ----- Single calls -----

  lemma MkdirCut(os: Os, dead: Os, k: nat, s: Run)
    requires Killed(os, dead, k) && s.calls <= k
    ensures var (t, u) := (MkdirP(os, s), MkdirP(dead, s)); Cut(k, t.0, u.0) && (t.0.calls <= k ==> u == t)
  {
  }

  lemma RenameGrows(mc: Machine, os: Os, s: Run, from: Place, to: Place, p: string)
    requires from != to
    ensures Grows(s, Rename(mc, os, s, from, to, p).0)
  {
    hide Move;
  }

  lemma RenameCut(mc: Machine, os: Os, dead: Os, k: nat, s: Run, from: Place, to: Place, p: string)
    requires Killed(os, dead, k) && s.calls <= k && from != to
    ensures var (t, u) := (Rename(mc, os, s, from, to, p), Rename(mc, dead, s, from, to, p));
      Cut(k, t.0, u.0) && (t.0.calls <= k ==> u == t)
  {
    hide Move;
  }

  lemma RemoveFolderCut(os: Os, dead: Os, k: nat, s: Run, w: Place)
    requires Killed(os, dead, k) && s.calls <= k
    ensures Cut(k, RemoveFolder(os, s, w), RemoveFolder(dead, s, w)) && Grows(s, RemoveFolder(os, s, w))
  {
    hide Put, Get;
  }

  lemma RemoveFolderIdle(dead: Os, s: Run, w: Place)
    requires Dead(dead, s.calls)
    ensures Idle(s, RemoveFolder(dead, s, w))
  {
  }

  lemma WriteVersionGrows(os: Os, s: Run, version: int)
    ensures Grows(s, WriteVersion(os, s, version))
    ensures Dead(os, s.calls) ==> Idle(s, WriteVersion(os, s, version))
  {
  }

  lemma WriteVersionCut(os: Os, dead: Os, k: nat, s: Run, version: int)
    requires Killed(os, dead, k) && s.calls <= k
    ensures Cut(k, WriteVersion(os, s, version), WriteVersion(dead, s, version))
  {
  }

  lemma MoveOutGrows(os: Os, s: Run, p: string, target: string)
    ensures Grows(s, MoveOut(os, s, p, target))
    ensures Dead(os, s.calls) ==> Idle(s, MoveOut(os, s, p, target))
  {
  }

  lemma MoveOutCut(os: Os, dead: Os, k: nat, s: Run, p: string, target: string)
    requires Killed(os, dead, k) && s.calls <= k
    ensures Cut(k, MoveOut(os, s, p, target), MoveOut(dead, s, p, target))
  {
  }

  // ----- Installing -----

  lemma RenameIdle(mc: Machine, dead: Os, s: Run, from: Place, to: Place, p: string)
    requires Dead(dead, s.calls) && from != to
    ensures var (t, r) := Rename(mc, dead, s, from, to, p); Idle(s, t) && r == Failed
  {
  }

  lemma InstallFileGrows(mc: Machine, os: Os, s: Run, p: string)
    ensures Grows(s, InstallFile(mc, os, s, p).0)
    ensures Dead(os, s.calls) ==> Idle(s, InstallFile(mc, os, s, p).0)
  {
    var s1 := Called(s);
    var s2 := Rename(mc, os, s1, App, Backup, p).0;
    var s3 := Called(s2);
    var s4 := Rename(mc, os, s3, Update, App, p).0;
    CalledGrows(s);
    RenameGrows(mc, os, s1, App, Backup, p);
    CalledGrows(s2);
    RenameGrows(mc, os, s3, Update, App, p);
    hide Rename, Grows, Called, Idle;
    GrowsOn(s, s1, s2);
    GrowsOn(s, s2, s3);
    GrowsOn(s, s3, s4);
  }

  lemma CalledGrows(s: Run)
    ensures Grows(s, Called(s)) && Idle(s, Called(s))
  {
  }

  /** Installing from the second folder on, and from the first rename on. */
  function InstallLast(mc: Machine, os: Os, s: Run, p: string): (Run, Option<Stage>) {
    var (s1, target) := MkdirP(os, s);
    if !target then (s1, Some(TargetFolder))
    else
      var (s2, installed) := Rename(mc, os, s1, Update, App, p);
      if installed != Renamed then (s2, Some(Install)) else (s2, None)
  }

  function InstallRest(mc: Machine, os: Os, s: Run, p: string): (Run, Option<Stage>) {
    var (s1, saved) := Rename(mc, os, s, App, Backup, p);
    if saved == Failed then (s1, Some(BackupMove)) else InstallLast(mc, os, s1, p)
  }

  lemma InstallInSteps(mc: Machine, os: Os, s: Run, p: string)
    ensures InstallFile(mc, os, s, p)
         == if Ask(os, s).Works? then InstallRest(mc, os, Called(s), p) else (Called(s), Some(BackupFolder))
  {
    hide Rename;
  }

  lemma InstallLastGrows(mc: Machine, os: Os, s: Run, p: string)
    ensures Grows(Called(s), InstallLast(mc, os, s, p).0) && Grows(s, InstallLast(mc, os, s, p).0)
  {
    hide Rename, Grows;
    RenameGrows(mc, os, Called(s), Update, App, p);
    CalledGrows(s);
    GrowsSelf(Called(s));
    GrowsOn(s, Called(s), InstallLast(mc, os, s, p).0);
  }

  lemma InstallRestGrows(mc: Machine, os: Os, s: Run, p: string)
    ensures Grows(s, InstallRest(mc, os, s, p).0)
  {
    hide Rename, Grows, InstallLast;
    var s1 := Rename(mc, os, s, App, Backup, p).0;
    RenameGrows(mc, os, s, App, Backup, p);
    InstallLastGrows(mc, os, s1, p);
    GrowsOn(s, s1, InstallLast(mc, os, s1, p).0);
  }

  lemma InstallLastCut(mc: Machine, os: Os, dead: Os, k: nat, s: Run, p: string)
    requires Killed(os, dead, k) && s.calls <= k
    ensures var (t, u) := (InstallLast(mc, os, s, p), InstallLast(mc, dead, s, p));
      Cut(k, t.0, u.0) && (t.0.calls <= k ==> u == t)
  {
    hide Rename;
    if s.calls < k {
      RenameCut(mc, os, dead, k, Called(s), Update, App, p);
    } else {
      InstallLastGrows(mc, os, s, p);
    }
  }

  lemma InstallRestCut(mc: Machine, os: Os, dead: Os, k: nat, s: Run, p: string)
    requires Killed(os, dead, k) && s.calls <= k
    ensures var (t, u) := (InstallRest(mc, os, s, p), InstallRest(mc, dead, s, p));
      Cut(k, t.0, u.0) && (t.0.calls <= k ==> u == t)
  {
    hide Rename, InstallLast, Grows, Cut, Killed, Idle;
    var (s1, c1) := (Rename(mc, os, s, App, Backup, p), Rename(mc, dead, s, App, Backup, p));
    RenameCut(mc, os, dead, k, s, App, Backup, p);
    if s1.0.calls <= k {
      InstallLastCut(mc, os, dead, k, s1.0, p);
    } else {
      RenameRefused(mc, os, dead, k, s, App, Backup, p);
      InstallLastGrows(mc, os, s1.0, p);
      GrowsSelf(s1.0);
      GrowsSelf(c1.0);
      CutOn(k, s1.0, c1.0, InstallRest(mc, os, s, p).0, c1.0);
      CutLate(k, s1.0, InstallRest(mc, os, s, p).0);
    }
  }

  lemma RenameRefused(mc: Machine, os: Os, dead: Os, k: nat, s: Run, from: Place, to: Place, p: string)
    requires Killed(os, dead, k) && s.calls <= k && from != to
    ensures Rename(mc, os, s, from, to, p).0.calls > k ==> Rename(mc, dead, s, from, to, p).1 == Failed
  {
    hide Move;
  }

  lemma CutLate(k: nat, s: Run, t: Run)
    requires s.calls > k && Grows(s, t)
    ensures t.calls > k
  {
  }

  lemma InstallFileCut(mc: Machine, os: Os, dead: Os, k: nat, s: Run, p: string)
    requires Killed(os, dead, k) && s.calls <= k
    ensures var (t, u) := (InstallFile(mc, os, s, p), InstallFile(mc, dead, s, p));
      Cut(k, t.0, u.0) && (t.0.calls <= k ==> u == t)
  {
    hide InstallFile, InstallRest;
    InstallInSteps(mc, os, s, p);
    InstallInSteps(mc, dead, s, p);
    if s.calls < k {
      InstallRestCut(mc, os, dead, k, Called(s), p);
    } else {
      InstallRestGrows(mc, os, Called(s), p);
    }
  }

  lemma {:induction false} InstallFromGrows(mc: Machine, os: Os, s: Run, paths: seq<string>, i: nat)
    requires i <= |paths|
    ensures Grows(s, InstallFrom(mc, os, s, paths, i).0)
    ensures Dead(os, s.calls) ==> Idle(s, InstallFrom(mc, os, s, paths, i).0)
    decreases |paths| - i
  {
    if i < |paths| {
      var (s1, stopped) := InstallFile(mc, os, s, paths[i]);
      InstallFileGrows(mc, os, s, paths[i]);
      hide InstallFile;
      if stopped.None? {
        InstallFromGrows(mc, os, s1, paths, i + 1);
        GrowsOn(s, s1, InstallFrom(mc, os, s1, paths, i + 1).0);
      }
    }
  }

  lemma {:induction false} InstallFromCut(mc: Machine, os: Os, dead: Os, k: nat, s: Run, paths: seq<string>, i: nat)
    requires Killed(os, dead, k) && s.calls <= k && i <= |paths|
    ensures var (t, u) := (InstallFrom(mc, os, s, paths, i), InstallFrom(mc, dead, s, paths, i));
      Cut(k, t.0, u.0) && (t.0.calls <= k ==> u == t)
    decreases |paths| - i
  {
    if i < |paths| {
      var (s1, stopped) := InstallFile(mc, os, s, paths[i]);
      var (c1, halted) := InstallFile(mc, dead, s, paths[i]);
      InstallFileCut(mc, os, dead, k, s, paths[i]);
      hide InstallFile;
      if s1.calls <= k {
        if stopped.None? { InstallFromCut(mc, os, dead, k, s1, paths, i + 1); }
      } else {
        InstallFromGrows(mc, os, s1, paths, i + 1);
        InstallFromGrows(mc, dead, c1, paths, i + 1);
      }
      if i + 1 <= |paths| && stopped.None? && s1.calls <= k {
        InstallFromGrows(mc, os, s1, paths, i + 1);
      }
    }
  }

  // ----- Rolling back -----

  lemma RollbackFileGrows(mc: Machine, os: Os, s: Run, p: string)
    ensures Grows(s, RollbackFile(mc, os, s, p))
    ensures Dead(os, s.calls) ==> Idle(s, RollbackFile(mc, os, s, p))
  {
    var s1 := Rename(mc, os, s, App, Update, p).0;
    RenameGrows(mc, os, s, App, Update, p);
    RenameGrows(mc, os, s1, Backup, App, p);
    GrowsOn(s, s1, RollbackFile(mc, os, s, p));
    if Dead(os, s.calls) {
      RenameIdle(mc, os, s, App, Update, p);
      RenameIdle(mc, os, s1, Backup, App, p);
    }
    hide Rename;
  }

  lemma RollbackFileCut(mc: Machine, os: Os, dead: Os, k: nat, s: Run, p: string)
    requires Killed(os, dead, k) && s.calls <= k
    ensures Cut(k, RollbackFile(mc, os, s, p), RollbackFile(mc, dead, s, p))
  {
    var s1, c1 := Rename(mc, os, s, App, Update, p).0, Rename(mc, dead, s, App, Update, p).0;
    RenameCut(mc, os, dead, k, s, App, Update, p);
    if s1.calls <= k {
      RenameCut(mc, os, dead, k, s1, Backup, App, p);
    } else {
      RenameGrows(mc, os, s1, Backup, App, p);
      RenameIdle(mc, dead, c1, Backup, App, p);
      CutOn(k, s1, c1, RollbackFile(mc, os, s, p), RollbackFile(mc, dead, s, p));
    }
    hide Rename;
  }

  lemma {:induction false} RollbackGrows(mc: Machine, os: Os, s: Run, paths: seq<string>, n: nat)
    requires n <= |paths|
    ensures Grows(s, Rollback(mc, os, s, paths, n))
    ensures Dead(os, s.calls) ==> Idle(s, Rollback(mc, os, s, paths, n))
    decreases n
  {
    if n > 0 {
      var s1 := RollbackFile(mc, os, s, paths[n - 1]);
      RollbackFileGrows(mc, os, s, paths[n - 1]);
      RollbackGrows(mc, os, s1, paths, n - 1);
      GrowsOn(s, s1, Rollback(mc, os, s1, paths, n - 1));
      hide RollbackFile;
    }
  }

  lemma {:induction false} RollbackCut(mc: Machine, os: Os, dead: Os, k: nat, s: Run, paths: seq<string>, n: nat)
    requires Killed(os, dead, k) && s.calls <= k && n <= |paths|
    ensures Cut(k, Rollback(mc, os, s, paths, n), Rollback(mc, dead, s, paths, n))
    decreases n, 0
  {
    hide RollbackFile, Killed, Grows, Idle, Dead;
    if n > 0 {
      var s1, c1 := RollbackFile(mc, os, s, paths[n - 1]), RollbackFile(mc, dead, s, paths[n - 1]);
      RollbackFileCut(mc, os, dead, k, s, paths[n - 1]);
      RollbackRestCut(mc, os, dead, k, s1, c1, paths, n - 1);
    }
  }

  lemma {:induction false} RollbackRestCut(mc: Machine, os: Os, dead: Os, k: nat, s1: Run, c1: Run,
                                           paths: seq<string>, n: nat)
    requires Killed(os, dead, k) && Cut(k, s1, c1) && n <= |paths|
    ensures Cut(k, Rollback(mc, os, s1, paths, n), Rollback(mc, dead, c1, paths, n))
    decreases n, 1
  {
    if s1.calls <= k {
      RollbackCut(mc, os, dead, k, s1, paths, n);
    } else {
      CutIsDead(os, dead, k, s1, c1);
      hide Rollback, Killed, Grows, Idle, Dead, Cut;
      RollbackGrows(mc, os, s1, paths, n);
      RollbackGrows(mc, dead, c1, paths, n);
      CutOn(k, s1, c1, Rollback(mc, os, s1, paths, n), Rollback(mc, dead, c1, paths, n));
    }
  }

  // ----- Sweeping -----

  lemma SweepEntryGrows(mc: Machine, os: Os, s: Run, expected: set<string>, p: string)
    ensures Grows(s, SweepEntry(mc, os, s, expected, p)) && Grows(Called(s), SweepEntry(mc, os, s, expected, p))
    ensures Dead(os, s.calls) ==> Idle(s, SweepEntry(mc, os, s, expected, p))
  {
    hide MoveOut, IsExpected, Norm;
    MoveOutGrows(os, Called(Called(s)), p, Norm(p));
  }

  lemma SweepEntryCut(mc: Machine, os: Os, dead: Os, k: nat, s: Run, expected: set<string>, p: string)
    requires Killed(os, dead, k) && s.calls <= k
    ensures Cut(k, SweepEntry(mc, os, s, expected, p), SweepEntry(mc, dead, s, expected, p))
  {
    hide MoveOut, IsExpected, Norm;
    var s2 := Called(Called(s));
    if s2.calls <= k {
      MoveOutCut(os, dead, k, s2, p, Norm(p));
    } else if s.calls == k {
      SweepEntryGrows(mc, os, s, expected, p);
    } else {
      MoveOutGrows(os, s2, p, Norm(p));
    }
  }

  lemma {:induction false} SweepFromGrows(mc: Machine, os: Os, s: Run, expected: set<string>, visits: seq<string>,
                                          i: nat)
    requires i <= |visits|
    ensures Grows(s, SweepFrom(mc, os, s, expected, visits, i))
    ensures Dead(os, s.calls) ==> Idle(s, SweepFrom(mc, os, s, expected, visits, i))
    decreases |visits| - i
  {
    if i < |visits| {
      var s1 := SweepEntry(mc, os, s, expected, visits[i]);
      SweepEntryGrows(mc, os, s, expected, visits[i]);
      SweepFromGrows(mc, os, s1, expected, visits, i + 1);
      GrowsOn(s, s1, SweepFrom(mc, os, s1, expected, visits, i + 1));
      hide SweepEntry;
    }
  }

  lemma {:induction false} SweepFromCut(mc: Machine, os: Os, dead: Os, k: nat, s: Run, expected: set<string>,
                                        visits: seq<string>, i: nat)
    requires Killed(os, dead, k) && s.calls <= k && i <= |visits|
    ensures Cut(k, SweepFrom(mc, os, s, expected, visits, i), SweepFrom(mc, dead, s, expected, visits, i))
    decreases |visits| - i
  {
    if i < |visits| {
      var p := visits[i];
      var s1, c1 := SweepEntry(mc, os, s, expected, p), SweepEntry(mc, dead, s, expected, p);
      SweepEntryCut(mc, os, dead, k, s, expected, p);
      hide SweepEntry;
      if s1.calls <= k {
        SweepFromCut(mc, os, dead, k, s1, expected, visits, i + 1);
      } else {
        SweepFromGrows(mc, os, s1, expected, visits, i + 1);
        SweepFromGrows(mc, dead, c1, expected, visits, i + 1);
        CutOn(k, s1, c1, SweepFrom(mc, os, s1, expected, visits, i + 1),
              SweepFrom(mc, dead, c1, expected, visits, i + 1));
      }
    }
  }

  lemma CleanupGrows(mc: Machine, os: Os, s: Run, manifestPaths: seq<string>, anchor: bool)
    ensures Grows(s, CleanupObsolete(mc, os, s, manifestPaths, anchor))
    ensures Dead(os, s.calls) ==> Idle(s, CleanupObsolete(mc, os, s, manifestPaths, anchor))
  {
    SweepFromGrows(mc, os, Called(s), ExpectedKeys(mc, manifestPaths), os.listing(s.disk.app), 0);
    hide SweepFrom, SweepArmed, ExpectedKeys;
  }

  lemma CleanupCut(mc: Machine, os: Os, dead: Os, k: nat, s: Run, manifestPaths: seq<string>, anchor: bool)
    requires Killed(os, dead, k) && s.calls <= k
    ensures Cut(k, CleanupObsolete(mc, os, s, manifestPaths, anchor),
                CleanupObsolete(mc, dead, s, manifestPaths, anchor))
  {
    var expected, visits, s1 := ExpectedKeys(mc, manifestPaths), os.listing(s.disk.app), Called(s);
    if s.calls < k {
      SweepFromCut(mc, os, dead, k, s1, expected, visits, 0);
    } else {
      SweepFromGrows(mc, os, s1, expected, visits, 0);
    }
    hide SweepFrom, SweepArmed, ExpectedKeys;
  }

  // ----- The transaction -----

  lemma PerformUpdateGrows(mc: Machine, os: Os, s: Run, paths: seq<string>, manifestPaths: seq<string>, anchor: bool)
    ensures Grows(s, PerformUpdate(mc, os, s, paths, manifestPaths, anchor).0)
    ensures Dead(os, s.calls) ==> Idle(s, PerformUpdate(mc, os, s, paths, manifestPaths, anchor).0)
  {
    var s1 := MkdirP(os, s).0;
    InstallFromGrows(mc, os, s1, paths, 0);
    var (s2, stopped) := InstallFrom(mc, os, s1, paths, 0);
    AfterInstallGrows(mc, os, s2, stopped, paths, manifestPaths, anchor);
    hide InstallFrom, Rollback, CleanupObsolete;
    GrowsOn(s, s1, s2);
    GrowsOn(s, s2, AfterInstall(mc, os, s2, stopped, paths, manifestPaths, anchor));
  }

  /** What follows the installs: rollback or sweep. */
  function AfterInstall(mc: Machine, os: Os, s: Run, stopped: Option<(nat, Stage)>, paths: seq<string>,
                        manifestPaths: seq<string>, anchor: bool): Run
    requires stopped.Some? ==> stopped.value.0 < |paths|
  {
    if stopped.Some? then Rollback(mc, os, s, paths, stopped.value.0 + 1)
    else CleanupObsolete(mc, os, s, manifestPaths, anchor)
  }

  lemma AfterInstallGrows(mc: Machine, os: Os, s: Run, stopped: Option<(nat, Stage)>, paths: seq<string>,
                          manifestPaths: seq<string>, anchor: bool)
    requires stopped.Some? ==> stopped.value.0 < |paths|
    ensures Grows(s, AfterInstall(mc, os, s, stopped, paths, manifestPaths, anchor))
    ensures Dead(os, s.calls) ==> Idle(s, AfterInstall(mc, os, s, stopped, paths, manifestPaths, anchor))
  {
    if stopped.Some? {
      RollbackGrows(mc, os, s, paths, stopped.value.0 + 1);
    } else {
      CleanupGrows(mc, os, s, manifestPaths, anchor);
    }
    hide Rollback, CleanupObsolete;
  }

  lemma AfterInstallCut(mc: Machine, os: Os, dead: Os, k: nat, s: Run, stopped: Option<(nat, Stage)>,
                        paths: seq<string>, manifestPaths: seq<string>, anchor: bool)
    requires Killed(os, dead, k) && s.calls <= k && (stopped.Some? ==> stopped.value.0 < |paths|)
    ensures Cut(k, AfterInstall(mc, os, s, stopped, paths, manifestPaths, anchor),
                   AfterInstall(mc, dead, s, stopped, paths, manifestPaths, anchor))
  {
    hide Killed;
    if stopped.Some? {
      RollbackCut(mc, os, dead, k, s, paths, stopped.value.0 + 1);
    } else {
      CleanupCut(mc, os, dead, k, s, manifestPaths, anchor);
    }
  }

  lemma PerformUpdateCut(mc: Machine, os: Os, dead: Os, k: nat, s: Run, paths: seq<string>,
                         manifestPaths: seq<string>, anchor: bool)
    requires Killed(os, dead, k) && s.calls <= k
    ensures var t := PerformUpdate(mc, os, s, paths, manifestPaths, anchor);
      var u := PerformUpdate(mc, dead, s, paths, manifestPaths, anchor);
      Cut(k, t.0, u.0) && (t.0.calls <= k ==> u == t)
  {
    var (s1, folder) := MkdirP(os, s);
    MkdirCut(os, dead, k, s);
    if s1.calls <= k {
      var (s2, stopped) := InstallFrom(mc, os, s1, paths, 0);
      var (c2, halted) := InstallFrom(mc, dead, s1, paths, 0);
      InstallFromCut(mc, os, dead, k, s1, paths, 0);
      hide InstallFrom, Rollback, CleanupObsolete, Killed, Grows, Idle, Dead;
      if s2.calls <= k {
        AfterInstallGrows(mc, os, s2, stopped, paths, manifestPaths, anchor);
        AfterInstallCut(mc, os, dead, k, s2, stopped, paths, manifestPaths, anchor);
      } else {
        KilledIsDead(os, dead, k, c2);
        AfterInstallGrows(mc, os, s2, stopped, paths, manifestPaths, anchor);
        AfterInstallGrows(mc, dead, c2, halted, paths, manifestPaths, anchor);
        CutOn(k, s2, c2, AfterInstall(mc, os, s2, stopped, paths, manifestPaths, anchor),
                         AfterInstall(mc, dead, c2, halted, paths, manifestPaths, anchor));
      }
    } else {
      var c1 := MkdirP(dead, s).0;
      KilledIsDead(os, dead, k, s);
      var t := PerformUpdate(mc, os, s, paths, manifestPaths, anchor).0;
      LatePerformUpdate(mc, os, s, paths, manifestPaths, anchor);
      assert PerformUpdate(mc, dead, s, paths, manifestPaths, anchor).0 == c1;
      hide PerformUpdate, Killed, Grows, Idle, Dead, MkdirP;
      SelfIdle(c1);
      CutOn(k, s1, c1, t, c1);
    }
  }

  lemma SelfIdle(s: Run)
    ensures Idle(s, s)
  {
  }

  lemma LatePerformUpdate(mc: Machine, os: Os, s: Run, paths: seq<string>, manifestPaths: seq<string>, anchor: bool)
    ensures Grows(MkdirP(os, s).0, PerformUpdate(mc, os, s, paths, manifestPaths, anchor).0)
  {
    var s1 := MkdirP(os, s).0;
    var (s2, stopped) := InstallFrom(mc, os, s1, paths, 0);
    InstallFromGrows(mc, os, s1, paths, 0);
    AfterInstallGrows(mc, os, s2, stopped, paths, manifestPaths, anchor);
    hide InstallFrom, Rollback, CleanupObsolete, Grows;
    GrowsOn(s1, s2, AfterInstall(mc, os, s2, stopped, paths, manifestPaths, anchor));
    GrowsSelf(s1);
  }

  // ----- Downloading -----

  lemma RemoveUpdateFileGrows(os: Os, s: Run, p: string)
    ensures Grows(s, RemoveUpdateFile(os, s, p))
    ensures Dead(os, s.calls) ==> Idle(s, RemoveUpdateFile(os, s, p))
  {
  }

  lemma DownloadToGrows(os: Os, s: Run, url: string, p: string)
    ensures Grows(s, DownloadTo(os, s, url, p).0)
    ensures Dead(os, s.calls) ==> Idle(s, DownloadTo(os, s, url, p).0)
  {
  }

  /** Removing what is there and downloading. */
  function Fetch(os: Os, s: Run, e: Entry): (Run, bool) {
    DownloadTo(os, if e.path in s.disk.update then RemoveUpdateFile(os, s, e.path) else s, e.url, e.path)
  }

  lemma FetchGrows(os: Os, s: Run, e: Entry)
    ensures Grows(s, Fetch(os, s, e).0)
    ensures Dead(os, s.calls) ==> Idle(s, Fetch(os, s, e).0)
  {
    var s2 := if e.path in s.disk.update then RemoveUpdateFile(os, s, e.path) else s;
    RemoveUpdateFileGrows(os, s, e.path);
    GrowsSelf(s);
    DownloadToGrows(os, s2, e.url, e.path);
    if Dead(os, s.calls) {
      DeadLater(os, s.calls, s2.calls);
      IdleOn(s, s2, Fetch(os, s, e).0);
    }
    hide RemoveUpdateFile, DownloadTo, Grows, Idle, Dead;
    GrowsOn(s, s2, Fetch(os, s, e).0);
  }

  lemma FetchCut(os: Os, dead: Os, k: nat, s: Run, e: Entry)
    requires Killed(os, dead, k) && s.calls <= k
    ensures var (t, u) := (Fetch(os, s, e), Fetch(dead, s, e)); Cut(k, t.0, u.0) && (t.0.calls <= k ==> u == t)
  {
  }

  lemma DownloadFileGrows(mc: Machine, os: Os, s: Run, e: Entry)
    ensures Grows(s, DownloadFile(mc, os, s, e).0)
    ensures Dead(os, s.calls) ==> Idle(s, DownloadFile(mc, os, s, e).0)
  {
    var s1 := Called(s);
    CalledGrows(s);
    GrowsSelf(s);
    FetchGrows(os, s1, e);
    hide Downloaded, RemoveUpdateFile, DownloadTo, Grows, Idle;
    GrowsOn(s, s1, Fetch(os, s1, e).0);
  }

  lemma DownloadFileCut(mc: Machine, os: Os, dead: Os, k: nat, s: Run, e: Entry)
    requires Killed(os, dead, k) && s.calls <= k
    ensures var (t, u) := (DownloadFile(mc, os, s, e), DownloadFile(mc, dead, s, e));
      Cut(k, t.0, u.0) && (t.0.calls <= k ==> u == t)
  {
    var s1 := Called(s);
    if s.calls < k { FetchCut(os, dead, k, s1, e); } else { FetchGrows(os, s1, e); }
    hide Downloaded, RemoveUpdateFile, DownloadTo;
  }

  lemma {:induction false} DownloadFromGrows(mc: Machine, os: Os, s: Run, todo: seq<Entry>, i: nat)
    requires i <= |todo|
    ensures Grows(s, DownloadFrom(mc, os, s, todo, i).0)
    ensures Dead(os, s.calls) ==> Idle(s, DownloadFrom(mc, os, s, todo, i).0)
    decreases |todo| - i
  {
    if i < |todo| {
      var (s1, ok) := DownloadFile(mc, os, s, todo[i]);
      DownloadFileGrows(mc, os, s, todo[i]);
      hide DownloadFile;
      if ok {
        DownloadFromGrows(mc, os, s1, todo, i + 1);
        GrowsOn(s, s1, DownloadFrom(mc, os, s1, todo, i + 1).0);
      }
    }
  }

  lemma {:induction false} DownloadFromCut(mc: Machine, os: Os, dead: Os, k: nat, s: Run, todo: seq<Entry>, i: nat)
    requires Killed(os, dead, k) && s.calls <= k && i <= |todo|
    ensures var (t, u) := (DownloadFrom(mc, os, s, todo, i), DownloadFrom(mc, dead, s, todo, i));
      Cut(k, t.0, u.0) && (t.0.calls <= k ==> u == t)
    decreases |todo| - i
  {
    if i < |todo| {
      var (s1, ok) := DownloadFile(mc, os, s, todo[i]);
      var c1 := DownloadFile(mc, dead, s, todo[i]).0;
      DownloadFileCut(mc, os, dead, k, s, todo[i]);
      hide DownloadFile;
      if s1.calls <= k {
        if ok { DownloadFromCut(mc, os, dead, k, s1, todo, i + 1); }
      } else {
        DownloadFromGrows(mc, os, s1, todo, i + 1);
        DownloadFromGrows(mc, dead, c1, todo, i + 1);
      }
    }
  }

  // ----- One run -----

  lemma FinalCleanupGrows(os: Os, s: Run, version: int)
    ensures Grows(s, FinalCleanup(os, s, version))
    ensures Dead(os, s.calls) ==> Idle(s, FinalCleanup(os, s, version))
  {
    var s1 := RemoveFolder(os, s, Update);
    GrowsOn(s, s1, WriteVersion(os, s1, version)) by {
      RemoveFolderGrows(os, s, Update);
      WriteVersionGrows(os, s1, version);
    }
    if Dead(os, s.calls) {
      RemoveFolderIdle(os, s, Update);
      WriteVersionGrows(os, s1, version);
    }
    hide RemoveFolder, WriteVersion;
  }

  lemma RemoveFolderGrows(os: Os, s: Run, w: Place)
    ensures Grows(s, RemoveFolder(os, s, w))
  {
    hide Put, Get;
  }

  lemma FinalCleanupCut(os: Os, dead: Os, k: nat, s: Run, version: int)
    requires Killed(os, dead, k) && s.calls <= k
    ensures Cut(k, FinalCleanup(os, s, version), FinalCleanup(dead, s, version))
  {
    var s1, c1 := RemoveFolder(os, s, Update), RemoveFolder(dead, s, Update);
    RemoveFolderCut(os, dead, k, s, Update);
    hide RemoveFolder;
    if s1.calls <= k {
      WriteVersionCut(os, dead, k, s1, version);
    } else {
      WriteVersionGrows(os, s1, version);
      WriteVersionGrows(dead, c1, version);
      CutOn(k, s1, c1, FinalCleanup(os, s, version), FinalCleanup(dead, s, version));
    }
  }

  /** What follows the downloads: the transaction and the final cleanup. */
  function AfterDownload(mc: Machine, os: Os, s: Run, ok: bool, paths: seq<string>, manifestPaths: seq<string>,
                         version: int, anchor: bool): Run
  {
    if !ok then s
    else
      var (t, applied) := PerformUpdate(mc, os, s, paths, manifestPaths, anchor);
      if !applied then t else FinalCleanup(os, t, version)
  }

  lemma AfterDownloadGrows(mc: Machine, os: Os, s: Run, ok: bool, paths: seq<string>, manifestPaths: seq<string>,
                           version: int, anchor: bool)
    ensures Grows(s, AfterDownload(mc, os, s, ok, paths, manifestPaths, version, anchor))
    ensures Dead(os, s.calls) ==> Idle(s, AfterDownload(mc, os, s, ok, paths, manifestPaths, version, anchor))
  {
    var t := PerformUpdate(mc, os, s, paths, manifestPaths, anchor).0;
    var u := FinalCleanup(os, t, version);
    PerformUpdateGrows(mc, os, s, paths, manifestPaths, anchor);
    FinalCleanupGrows(os, t, version);
    GrowsSelf(s);
    if Dead(os, s.calls) {
      DeadLater(os, s.calls, t.calls);
      IdleOn(s, t, u);
    }
    hide PerformUpdate, FinalCleanup, Grows, Idle, Dead;
    GrowsOn(s, t, u);
  }

  lemma AfterDownloadCut(mc: Machine, os: Os, dead: Os, k: nat, s: Run, ok: bool, paths: seq<string>,
                         manifestPaths: seq<string>, version: int, anchor: bool)
    requires Killed(os, dead, k) && s.calls <= k
    ensures Cut(k, AfterDownload(mc, os, s, ok, paths, manifestPaths, version, anchor),
                   AfterDownload(mc, dead, s, ok, paths, manifestPaths, version, anchor))
  {
    if ok {
      var (t, applied) := PerformUpdate(mc, os, s, paths, manifestPaths, anchor);
      var (u, halted) := PerformUpdate(mc, dead, s, paths, manifestPaths, anchor);
      PerformUpdateCut(mc, os, dead, k, s, paths, manifestPaths, anchor);
      hide PerformUpdate, FinalCleanup, Killed, Grows, Idle, Dead;
      if t.calls <= k {
        if applied { FinalCleanupCut(os, dead, k, t, version); }
      } else {
        KilledIsDead(os, dead, k, u);
        FinalCleanupGrows(os, t, version);
        FinalCleanupGrows(dead, u, version);
        GrowsSelf(t);
        GrowsSelf(u);
        CutOn(k, t, u, AfterDownload(mc, os, s, ok, paths, manifestPaths, version, anchor),
                       AfterDownload(mc, dead, s, ok, paths, manifestPaths, version, anchor));
      }
    }
  }

  /** What follows the removal of the backup folder. */
  function AfterRemoval(mc: Machine, os: Os, s: Run, todo: seq<Entry>, manifestPaths: seq<string>, version: int,
                        anchor: bool): Run
  {
    var (t, ok) := DownloadFrom(mc, os, s, todo, 0);
    AfterDownload(mc, os, t, ok, Paths(todo), manifestPaths, version, anchor)
  }

  lemma AfterRemovalGrows(mc: Machine, os: Os, s: Run, todo: seq<Entry>, manifestPaths: seq<string>, version: int,
                          anchor: bool)
    ensures Grows(s, AfterRemoval(mc, os, s, todo, manifestPaths, version, anchor))
    ensures Dead(os, s.calls) ==> Idle(s, AfterRemoval(mc, os, s, todo, manifestPaths, version, anchor))
  {
    var (t, ok) := DownloadFrom(mc, os, s, todo, 0);
    var u := AfterDownload(mc, os, t, ok, Paths(todo), manifestPaths, version, anchor);
    DownloadFromGrows(mc, os, s, todo, 0);
    AfterDownloadGrows(mc, os, t, ok, Paths(todo), manifestPaths, version, anchor);
    hide DownloadFrom, AfterDownload;
    if Dead(os, s.calls) {
      DeadLater(os, s.calls, t.calls);
      IdleOn(s, t, u);
    }
    GrowsOn(s, t, u);
  }

  lemma AfterRemovalCut(mc: Machine, os: Os, dead: Os, k: nat, s: Run, todo: seq<Entry>, manifestPaths: seq<string>,
                        version: int, anchor: bool)
    requires Killed(os, dead, k) && s.calls <= k
    ensures Cut(k, AfterRemoval(mc, os, s, todo, manifestPaths, version, anchor),
                   AfterRemoval(mc, dead, s, todo, manifestPaths, version, anchor))
  {
    var (t, ok) := DownloadFrom(mc, os, s, todo, 0);
    var (u, halted) := DownloadFrom(mc, dead, s, todo, 0);
    DownloadFromCut(mc, os, dead, k, s, todo, 0);
    hide DownloadFrom, AfterDownload, Killed, Grows, Idle, Dead;
    if t.calls <= k {
      AfterDownloadCut(mc, os, dead, k, t, ok, Paths(todo), manifestPaths, version, anchor);
    } else {
      KilledIsDead(os, dead, k, u);
      AfterDownloadGrows(mc, os, t, ok, Paths(todo), manifestPaths, version, anchor);
      AfterDownloadGrows(mc, dead, u, halted, Paths(todo), manifestPaths, version, anchor);
      CutOn(k, t, u, AfterRemoval(mc, os, s, todo, manifestPaths, version, anchor),
                     AfterRemoval(mc, dead, s, todo, manifestPaths, version, anchor));
    }
  }

  lemma ApplyInPhases(mc: Machine, os: Os, s: Run, m: Manifest, anchor: bool)
    ensures ApplyManifest(mc, os, s, m, anchor)
         == AfterRemoval(mc, os, RemoveFolder(os, s, Backup), Pending(mc, s.disk.app, m.entries),
                         NormalPaths(mc, m.entries), VersionOf(m), anchor)
  {
    hide DownloadFrom, PerformUpdate, FinalCleanup, RemoveFolder, Pending, NormalPaths;
  }

  lemma ApplyGrows(mc: Machine, os: Os, s: Run, m: Manifest, anchor: bool)
    ensures Grows(s, ApplyManifest(mc, os, s, m, anchor))
    ensures Dead(os, s.calls) ==> Idle(s, ApplyManifest(mc, os, s, m, anchor))
  {
    var todo, s1 := Pending(mc, s.disk.app, m.entries), RemoveFolder(os, s, Backup);
    var t := AfterRemoval(mc, os, s1, todo, NormalPaths(mc, m.entries), VersionOf(m), anchor);
    ApplyInPhases(mc, os, s, m, anchor);
    RemoveFolderGrows(os, s, Backup);
    AfterRemovalGrows(mc, os, s1, todo, NormalPaths(mc, m.entries), VersionOf(m), anchor);
    if Dead(os, s.calls) {
      RemoveFolderIdle(os, s, Backup);
      DeadLater(os, s.calls, s1.calls);
      IdleOn(s, s1, t);
    }
    hide AfterRemoval, RemoveFolder, Pending, NormalPaths, VersionOf, ApplyManifest, Grows, Idle, Dead;
    GrowsOn(s, s1, t);
  }

  lemma ApplyCut(mc: Machine, os: Os, dead: Os, k: nat, s: Run, m: Manifest, anchor: bool)
    requires Killed(os, dead, k) && s.calls <= k
    ensures Cut(k, ApplyManifest(mc, os, s, m, anchor), ApplyManifest(mc, dead, s, m, anchor))
  {
    var todo, manifestPaths := Pending(mc, s.disk.app, m.entries), NormalPaths(mc, m.entries);
    var s1, c1 := RemoveFolder(os, s, Backup), RemoveFolder(dead, s, Backup);
    ApplyInPhases(mc, os, s, m, anchor);
    ApplyInPhases(mc, dead, s, m, anchor);
    RemoveFolderCut(os, dead, k, s, Backup);
    hide AfterRemoval, RemoveFolder, Pending, NormalPaths, VersionOf, ApplyManifest, Killed, Grows, Idle, Dead;
    if s1.calls <= k {
      AfterRemovalCut(mc, os, dead, k, s1, todo, manifestPaths, VersionOf(m), anchor);
    } else {
      KilledIsDead(os, dead, k, c1);
      AfterRemovalGrows(mc, os, s1, todo, manifestPaths, VersionOf(m), anchor);
      AfterRemovalGrows(mc, dead, c1, todo, manifestPaths, VersionOf(m), anchor);
      CutOn(k, s1, c1, ApplyManifest(mc, os, s, m, anchor), ApplyManifest(mc, dead, s, m, anchor));
    }
  }

  function VersionOf(m: Manifest): int { ParseInt(m.version) }

  lemma RunAfterFetch(mc: Machine, os: Os, d: Disk, text: string)
    ensures var s, t := Called(Start(d)), CheckForUpdates(mc, os, Start(d), text);
      && Grows(s, t) && 0 in t.met && t.met[0] == d
      && (Dead(os, 0) ==> t == s)
  {
    hide Parse, ApplyManifest, IsUpdate, Anchored;
    var m, s, anchor := Parse(text), Called(Start(d)), Anchored(mc, d.app);
    if m.Some? { ApplyGrows(mc, os, s, m.value, anchor); }
  }

  lemma RunCut(mc: Machine, os: Os, dead: Os, k: nat, d: Disk, text: string)
    requires Killed(os, dead, k) && k > 0
    ensures Cut(k, CheckForUpdates(mc, os, Start(d), text), CheckForUpdates(mc, dead, Start(d), text))
  {
    hide Parse, ApplyManifest, IsUpdate, Anchored, Cut;
    var m, s, anchor := Parse(text), Called(Start(d)), Anchored(mc, d.app);
    if m.Some? { ApplyCut(mc, os, dead, k, s, m.value, anchor); }
    assert Ask(dead, Start(d)) == Ask(os, Start(d));
    CutSame(k, s);
  }

  /** A killed run ends with the disk that the call it was killed at meets in the run that
      goes on; a kill after the last call changes nothing. */
  lemma KilledRunIsPrefix(mc: Machine, os: Os, dead: Os, k: nat, d: Disk, text: string)
    requires Killed(os, dead, k)
    ensures var t := CheckForUpdates(mc, os, Start(d), text);
      var u := CheckForUpdates(mc, dead, Start(d), text);
      if k < t.calls then k in t.met && u.disk == t.met[k] else u == t
  {
    RunAfterFetch(mc, os, d, text);
    if k == 0 {
      RunAfterFetch(mc, dead, d, text);
    } else {
      RunCut(mc, os, dead, k, d, text);
    }
    hide CheckForUpdates;
  }

  // ----- What comes first -----

  /** Files are installed and downloaded from the first on, and rolled back from the last on:
      a process that dies after one file has done that one. */
  lemma InstallsFirstFile(mc: Machine, os: Os, s: Run, paths: seq<string>)
    requires paths != [] && Dead(os, InstallFile(mc, os, s, paths[0]).0.calls)
    ensures InstallFrom(mc, os, s, paths, 0).0.disk == InstallFile(mc, os, s, paths[0]).0.disk
  {
    hide InstallFile, Dead;
    InstallFromGrows(mc, os, InstallFile(mc, os, s, paths[0]).0, paths, 1);
  }

  lemma DownloadsFirstFile(mc: Machine, os: Os, s: Run, todo: seq<Entry>)
    requires todo != [] && Dead(os, DownloadFile(mc, os, s, todo[0]).0.calls)
    ensures DownloadFrom(mc, os, s, todo, 0).0.disk == DownloadFile(mc, os, s, todo[0]).0.disk
  {
    hide DownloadFile, Dead;
    DownloadFromGrows(mc, os, DownloadFile(mc, os, s, todo[0]).0, todo, 1);
  }

  lemma RollsBackLastFile(mc: Machine, os: Os, s: Run, paths: seq<string>, n: nat)
    requires 0 < n <= |paths| && Dead(os, RollbackFile(mc, os, s, paths[n - 1]).calls)
    ensures Rollback(mc, os, s, paths, n).disk == RollbackFile(mc, os, s, paths[n - 1]).disk
  {
    hide RollbackFile, Dead;
    RollbackGrows(mc, os, RollbackFile(mc, os, s, paths[n - 1]), paths, n - 1);
  }
}
