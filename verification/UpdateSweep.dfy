/** The sweep of obsolete files, and the conservation of everything the application
    folder held. */
module UpdateSweep {
  import opened Wrappers
  import opened ManifestPath
  import opened UpdateDisk
  import opened UpdateTransaction

  // ----- One entry -----

  /** One visit of the sweep: the disk changes only for a file whose status can be read, whose
      key is not expected, and whose backup folder can be made; it is then moved out. */
  lemma SweepEntryOutcome(mc: Machine, os: Os, s: Run, expected: set<string>, p: string)
    ensures var t, status, folder := SweepEntry(mc, os, s, expected, p), os.reply(s.calls), os.reply(s.calls + 1);
      if status.Works? && mc.PathKey(p) !in expected && folder.Works?
      then t == MoveOut(os, Called(Called(s)), p, Norm(p)) else t.disk == s.disk
  {
    KeyStable(p, mc.FoldsCase());
    hide Norm, MoveOut;
  }

  /** A folder that cannot be opened is not swept. */
  lemma UnopenedNotSwept(mc: Machine, os: Os, s: Run, manifestPaths: seq<string>, anchor: bool)
    requires !os.reply(s.calls).Works?
    ensures CleanupObsolete(mc, os, s, manifestPaths, anchor).disk == s.disk
  {
    hide SweepArmed;
  }

  /** A move across file systems, reply by reply. The file is gone from the application folder
      once it was renamed, or copied and removed; a copy that is not followed by the removal
      leaves it in both folders. */
  lemma MoveOutOutcome(os: Os, s: Run, p: string, target: string)
    requires p in s.disk.app
    ensures var d, e, x := s.disk, MoveOut(os, s, p, target).disk, s.disk.app[p];
      var rename, copy, remove := os.reply(s.calls), os.reply(s.calls + 1), os.reply(s.calls + 2);
      && e.update == d.update && e.version == d.version
      && (rename.Works? || (copy.Works? && remove.Works?) ==> e.app == d.app - {p} && e.backup == d.backup[target := x])
      && (!rename.Works? && copy.Works? && !remove.Works? ==> e.app == d.app && e.backup == d.backup[target := x])
      && (!rename.Works? && copy.Refuses? ==> e == d)
      && (!rename.Works? && copy.Breaks? ==> e.app == d.app && e.backup == d.backup[target := copy.left])
  {
  }

  lemma MoveOutSlots(os: Os, s: Run, p: string, target: string)
    ensures var t := MoveOut(os, s, p, target);
      && t.disk.update == s.disk.update && t.disk.version == s.disk.version && t.calls > s.calls
      && (forall q :: q != p ==> At(t.disk.app, q) == At(s.disk.app, q))
      && (forall q :: q != target ==> At(t.disk.backup, q) == At(s.disk.backup, q))
      && (p !in s.disk.app ==> t.disk == s.disk)
      && (At(t.disk.app, p) == At(s.disk.app, p)
          || (At(t.disk.app, p) == None && At(t.disk.backup, target) == At(s.disk.app, p)))
      && (p in s.disk.app && Ask(os, s).Works? ==>
           At(t.disk.app, p) == None && At(t.disk.backup, target) == At(s.disk.app, p))
  {
  }

  /** What a visit to `p` changes: nothing for an expected or missing file, otherwise at
      most `p` in the application folder and its normal form in the backup folder. */
  lemma SweepEntrySlots(mc: Machine, os: Os, s: Run, expected: set<string>, p: string)
    ensures var t := SweepEntry(mc, os, s, expected, p);
      && t.disk.update == s.disk.update && t.disk.version == s.disk.version && t.calls > s.calls
      && (forall q :: q != p ==> At(t.disk.app, q) == At(s.disk.app, q))
      && (forall q :: q != Norm(p) ==> At(t.disk.backup, q) == At(s.disk.backup, q))
      && (p !in s.disk.app || IsExpected(mc, expected, p) ==> t.disk == s.disk)
      && (At(t.disk.app, p) == At(s.disk.app, p)
          || (At(t.disk.app, p) == None && At(t.disk.backup, Norm(p)) == At(s.disk.app, p)))
      && (p in s.disk.app && !IsExpected(mc, expected, p) && Healthy(os, s.calls) ==>
           At(t.disk.app, p) == None && At(t.disk.backup, Norm(p)) == At(s.disk.app, p))
  {
    var s2 := Called(Called(s));
    MoveOutSlots(os, s2, p, Norm(p));
    hide MoveOut, IsExpected, Norm;
  }

  /** No call from number `from` on fails. */
  ghost predicate Healthy(os: Os, from: nat) { forall k: nat :: k >= from ==> os.reply(k).Works? }

  // ----- Whatever fails -----

  /** The sweep never touches the update folder, the version, or an expected file, be it
      in the application folder or a saved one in the backup folder. */
  lemma {:induction false} SweepSpares(mc: Machine, os: Os, s: Run, expected: set<string>,
                                       visits: seq<string>, i: nat)
    requires i <= |visits|
    ensures var t := SweepFrom(mc, os, s, expected, visits, i);
      && t.disk.update == s.disk.update && t.disk.version == s.disk.version
      && (forall q :: IsExpected(mc, expected, q) ==> At(t.disk.app, q) == At(s.disk.app, q))
      && (forall q :: mc.PathKey(q) in expected ==> At(t.disk.backup, q) == At(s.disk.backup, q))
    decreases |visits| - i
  {
    if i < |visits| {
      var p := visits[i];
      var s1 := SweepEntry(mc, os, s, expected, p);
      SweepEntrySlots(mc, os, s, expected, p);
      SweepSpares(mc, os, s1, expected, visits, i + 1);
      forall q | mc.PathKey(q) in expected ensures At(s1.disk.backup, q) == At(s.disk.backup, q) {
        if q == Norm(p) { assert IsExpected(mc, expected, p); }
      }
      hide SweepEntry, Norm, IsExpected;
    }
  }

  predicate Obsolete(mc: Machine, expected: set<string>, d: Disk, q: string) {
    q in d.app && !IsExpected(mc, expected, q)
  }

  /** No two obsolete files are spelled alike once normalised. */
  ghost predicate ObsoleteApart(mc: Machine, expected: set<string>, d: Disk) {
    forall q, r :: Obsolete(mc, expected, d, q) && Obsolete(mc, expected, d, r) && Norm(q) == Norm(r) ==> q == r
  }

  /** The sweep either leaves a file alone or has its content under the normal form of its
      path in the backup folder. */
  predicate Swept(d: Disk, q: string, c: Content) {
    At(d.app, q) == Some(c) || (At(d.app, q) == None && At(d.backup, Norm(q)) == Some(c))
  }

  lemma SweepEntryHolds(mc: Machine, os: Os, s: Run, expected: set<string>, p: string, q: string, c: Content, d: Disk)
    requires ObsoleteApart(mc, expected, d) && s.disk.app.Keys <= d.app.Keys
    requires Obsolete(mc, expected, d, q) && Swept(s.disk, q, c)
    ensures var t := SweepEntry(mc, os, s, expected, p).disk;
      Swept(t, q, c) && t.app.Keys <= s.disk.app.Keys
  {
    var t := SweepEntry(mc, os, s, expected, p).disk;
    SweepEntrySlots(mc, os, s, expected, p);
    hide SweepEntry, IsExpected, Norm;
    forall r | r in t.app ensures r in s.disk.app {
      assert At(t.app, r).Some?;
    }
  }

  lemma {:induction false} SweepHolds(mc: Machine, os: Os, s: Run, expected: set<string>,
                                      visits: seq<string>, i: nat, q: string, c: Content, d: Disk)
    requires i <= |visits| && ObsoleteApart(mc, expected, d) && s.disk.app.Keys <= d.app.Keys
    requires Obsolete(mc, expected, d, q) && Swept(s.disk, q, c)
    ensures Swept(SweepFrom(mc, os, s, expected, visits, i).disk, q, c)
    decreases |visits| - i
  {
    if i < |visits| {
      SweepEntryHolds(mc, os, s, expected, visits[i], q, c, d);
      hide SweepEntry, IsExpected, Norm, ObsoleteApart, Swept;
      SweepHolds(mc, os, SweepEntry(mc, os, s, expected, visits[i]), expected, visits, i + 1, q, c, d);
    }
  }

  /** Whatever fails, the sweep loses nothing of names that stay apart. */
  lemma CleanupHolds(mc: Machine, os: Os, s: Run, manifestPaths: seq<string>, anchor: bool, q: string)
    requires ObsoleteApart(mc, ExpectedKeys(mc, manifestPaths), s.disk) && q in s.disk.app
    ensures Swept(CleanupObsolete(mc, os, s, manifestPaths, anchor).disk, q, s.disk.app[q])
  {
    if SweepArmed(mc, manifestPaths, anchor) && Ask(os, s).Works? {
      var expected, visits := ExpectedKeys(mc, manifestPaths), os.listing(s.disk.app);
      if IsExpected(mc, expected, q) {
        SweepSpares(mc, os, Called(s), expected, visits, 0);
      } else {
        SweepHolds(mc, os, Called(s), expected, visits, 0, q, s.disk.app[q], s.disk);
      }
    }
  }

  /** From a sweep that starts with call `base`: moves `q` away, then breaks off copying `r`. */
  function LosingOs(base: nat, served: string -> Content, listing: Files -> seq<string>, left: Content): Os {
    Os(k => if k == base + 6 then Refuses else if k == base + 7 then Breaks(left, {}) else Works, served, listing)
  }

  lemma FirstIsMoved(mc: Machine, os: Os, s: Run, expected: set<string>, q: string)
    requires Obsolete(mc, expected, s.disk, q)
    requires os.reply(s.calls).Works? && os.reply(s.calls + 1).Works? && os.reply(s.calls + 2).Works?
    ensures var t := SweepEntry(mc, os, s, expected, q);
      && t.calls == s.calls + 3 && At(t.disk.app, q) == None
      && (forall p :: p != q ==> At(t.disk.app, p) == At(s.disk.app, p))
      && (forall p :: p != Norm(q) ==> At(t.disk.backup, p) == At(s.disk.backup, p))
  {
    hide IsExpected, Norm;
  }

  lemma SecondBreaksOff(mc: Machine, os: Os, s: Run, expected: set<string>, r: string, left: Content)
    requires Obsolete(mc, expected, s.disk, r)
    requires os.reply(s.calls).Works? && os.reply(s.calls + 1).Works?
    requires os.reply(s.calls + 2).Refuses? && os.reply(s.calls + 3) == Breaks(left, {})
    ensures var t := SweepEntry(mc, os, s, expected, r);
      && t.calls == s.calls + 4 && t.disk.app == s.disk.app && At(t.disk.backup, Norm(r)) == Some(left)
      && (forall p :: p != Norm(r) ==> At(t.disk.backup, p) == At(s.disk.backup, p))
  {
    hide IsExpected, Norm;
  }

  /** Two obsolete files with one normal form: the first is moved to the backup folder,
      and the copy of the second breaks off there. */
  lemma CollidingNamesLose(mc: Machine, served: string -> Content, listing: Files -> seq<string>, s: Run,
                           manifestPaths: seq<string>, q: string, r: string)
    requires listing(s.disk.app) == [q, r]
    requires SweepArmed(mc, manifestPaths, true) && q != r && Norm(q) == Norm(r)
    requires Obsolete(mc, ExpectedKeys(mc, manifestPaths), s.disk, q)
    requires Obsolete(mc, ExpectedKeys(mc, manifestPaths), s.disk, r)
    ensures var left := s.disk.app[q] + [0];
      var t := CleanupObsolete(mc, LosingOs(s.calls, served, listing, left), s, manifestPaths, true);
      var e := t.disk;
      && t.calls == s.calls + 8 && At(e.app, q) == None && At(e.backup, Norm(q)) == Some(left)
      && (forall p :: p != Norm(q) ==> At(e.backup, p) == At(s.disk.backup, p))
      && !Swept(e, q, s.disk.app[q])
  {
    hide SweepEntry, IsExpected, Norm, SweepArmed, ExpectedKeys, CleanupObsolete, SweepFrom;
    var left, expected := s.disk.app[q] + [0], ExpectedKeys(mc, manifestPaths);
    var os, s1 := LosingOs(s.calls, served, listing, left), Called(s);
    FirstIsMoved(mc, os, s1, expected, q);
    var s2 := SweepEntry(mc, os, s1, expected, q);
    assert At(s2.disk.app, r) == At(s.disk.app, r);
    SecondBreaksOff(mc, os, s2, expected, r, left);
    SweepOfTwo(mc, os, s, manifestPaths, q, r);
    assert left != s.disk.app[q];
  }

  lemma SweepOfTwo(mc: Machine, os: Os, s: Run, manifestPaths: seq<string>, q: string, r: string)
    requires SweepArmed(mc, manifestPaths, true) && Ask(os, s).Works? && os.listing(s.disk.app) == [q, r]
    ensures var expected := ExpectedKeys(mc, manifestPaths);
      CleanupObsolete(mc, os, s, manifestPaths, true)
      == SweepEntry(mc, os, SweepEntry(mc, os, Called(s), expected, q), expected, r)
  {
    hide SweepEntry, SweepArmed, ExpectedKeys;
    var expected := ExpectedKeys(mc, manifestPaths);
    var t := SweepEntry(mc, os, Called(s), expected, q);
    var u := SweepEntry(mc, os, t, expected, r);
    assert SweepFrom(mc, os, u, expected, [q, r], 2) == u;
    assert SweepFrom(mc, os, t, expected, [q, r], 1) == u;
  }

  /** Exactly when an armed sweep is safe: it preserves every file of the application
      folder under all replies and listings iff no two obsolete files share a normal
      form. */
  lemma SweepConservesIff(mc: Machine, d: Disk, manifestPaths: seq<string>)
    requires SweepArmed(mc, manifestPaths, true)
    ensures (forall os: Os, q :: q in d.app ==>
              Swept(CleanupObsolete(mc, os, Start(d), manifestPaths, true).disk, q, d.app[q]))
            <==> ObsoleteApart(mc, ExpectedKeys(mc, manifestPaths), d)
  {
    hide SweepArmed, CleanupObsolete, ExpectedKeys, Norm, IsExpected, Swept;
    var expected := ExpectedKeys(mc, manifestPaths);
    if ObsoleteApart(mc, expected, d) {
      forall os: Os, q | q in d.app
        ensures Swept(CleanupObsolete(mc, os, Start(d), manifestPaths, true).disk, q, d.app[q])
      {
        CleanupHolds(mc, os, Start(d), manifestPaths, true, q);
      }
    } else {
      var q, r :| Obsolete(mc, expected, d, q) && Obsolete(mc, expected, d, r) && Norm(q) == Norm(r) && q != r;
      CollidingNamesLose(mc, _ => [], _ => [q, r], Start(d), manifestPaths, q, r);
    }
  }

  // ----- Conservation -----

  /** Some folder has content `c` under path `q`. */
  predicate Held(d: Disk, q: string, c: Content) {
    var x := SlotAt(d, q);
    Some(c) == x.app || Some(c) == x.update || Some(c) == x.backup
  }

  /** The slot of an old file that has been saved, or not been touched yet. */
  predicate Safe(x: Slot, c: Content) {
    x.backup == Some(c) || (x.app == Some(c) && x.backup == None)
  }

  lemma RollbackFileHolds(mc: Machine, os: Os, s: Run, p: string, c: Content)
    requires Safe(SlotAt(s.disk, p), c)
    ensures Held(RollbackFile(mc, os, s, p).disk, p, c)
  {
    var s1 := Rename(mc, os, s, App, Update, p).0;
    RenameSlot(mc, os, s, App, Update, p);
    RenameSlot(mc, os, s1, Backup, App, p);
    hide Rename;
  }

  lemma {:induction false} RollbackHolds(mc: Machine, os: Os, s: Run, paths: seq<string>, n: nat,
                                         p: string, c: Content)
    requires n <= |paths| && Distinct(paths)
    requires Safe(SlotAt(s.disk, p), c)
    ensures Held(Rollback(mc, os, s, paths, n).disk, p, c)
    decreases n
  {
    if n > 0 {
      var s1 := RollbackFile(mc, os, s, paths[n - 1]);
      RollbackSlot(mc, os, s, paths[n - 1]);
      if p == paths[n - 1] {
        RollbackFileHolds(mc, os, s, p, c);
        RollbackSlots(mc, os, s1, paths, n - 1);
        assert p !in PathSet(paths[..n - 1]);
        assert SlotAt(Rollback(mc, os, s1, paths, n - 1).disk, p) == SlotAt(s1.disk, p);
      } else {
        assert SlotAt(s1.disk, p) == SlotAt(s.disk, p);
        RollbackHolds(mc, os, s1, paths, n - 1, p, c);
      }
    }
  }

  /** An old file after the installs: untouched, or saved under its own path. */
  lemma InstallHolds(mc: Machine, os: Os, s: Run, paths: seq<string>, p: string, c: Content)
    requires Distinct(paths) && At(s.disk.app, p) == Some(c)
    ensures var (t, stopped) := InstallFrom(mc, os, s, paths, 0);
      && (p in paths && Safe(SlotAt(s.disk, p), c) ==> Safe(SlotAt(t.disk, p), c))
      && (p !in paths ==> SlotAt(t.disk, p) == SlotAt(s.disk, p))
      && (p in paths && stopped.None? ==> SlotAt(t.disk, p).backup == Some(c))
  {
    InstallSlots(mc, os, s, paths, 0);
    hide InstallFrom;
    assert paths[0..] == paths;
    if p in paths {
      var j :| 0 <= j < |paths| && paths[j] == p;
    }
  }

  /** What the updater passes on: distinct normalised paths, all listed in the manifest. */
  ghost predicate FitsManifest(mc: Machine, paths: seq<string>, manifestPaths: seq<string>) {
    && Distinct(paths)
    && (forall p :: p in paths ==> p in manifestPaths)
    && (forall p :: p in manifestPaths ==> Norm(p) == p)
  }

  lemma ListedIsExpected(mc: Machine, manifestPaths: seq<string>, p: string)
    requires p in manifestPaths && Norm(p) == p
    ensures IsExpected(mc, ExpectedKeys(mc, manifestPaths), p)
    ensures mc.PathKey(p) in ExpectedKeys(mc, manifestPaths)
  {
  }

  /** Installing adds no obsolete file. */
  lemma InstalledNamesApart(mc: Machine, os: Os, s: Run, paths: seq<string>, manifestPaths: seq<string>)
    requires FitsManifest(mc, paths, manifestPaths)
    requires ObsoleteApart(mc, ExpectedKeys(mc, manifestPaths), s.disk)
    ensures ObsoleteApart(mc, ExpectedKeys(mc, manifestPaths), InstallFrom(mc, os, s, paths, 0).0.disk)
  {
    var t, expected := InstallFrom(mc, os, s, paths, 0).0, ExpectedKeys(mc, manifestPaths);
    InstallSlots(mc, os, s, paths, 0);
    assert paths[0..] == paths;
    hide InstallFrom;
    forall q | q in t.disk.app && !IsExpected(mc, expected, q) ensures q in s.disk.app {
      if q in paths {
        ListedIsExpected(mc, manifestPaths, q);
      } else {
        assert SlotAt(t.disk, q) == SlotAt(s.disk, q);
      }
    }
    hide IsExpected, Norm;
  }

  lemma CleanupKeepsSaved(mc: Machine, os: Os, s: Run, manifestPaths: seq<string>, anchor: bool, p: string)
    requires p in manifestPaths && Norm(p) == p
    ensures SlotAt(CleanupObsolete(mc, os, s, manifestPaths, anchor).disk, p) == SlotAt(s.disk, p)
  {
    ListedIsExpected(mc, manifestPaths, p);
    if SweepArmed(mc, manifestPaths, anchor) && Ask(os, s).Works? {
      SweepSpares(mc, os, Called(s), ExpectedKeys(mc, manifestPaths), os.listing(s.disk.app), 0);
    }
  }

  /** Neither the update folder nor what it holds matters to `q` any more. */
  predicate SavedOrSwept(d: Disk, q: string, c: Content) { At(d.backup, q) == Some(c) || Swept(d, q, c) }

  lemma RollbackCase(mc: Machine, os: Os, s: Run, paths: seq<string>, n: nat, q: string, c: Content)
    requires n <= |paths| && Distinct(paths)
    requires if q in paths then Safe(SlotAt(s.disk, q), c) else At(s.disk.app, q) == Some(c)
    ensures Held(Rollback(mc, os, s, paths, n).disk, q, c)
  {
    if q in paths {
      RollbackHolds(mc, os, s, paths, n, q, c);
    } else {
      RollbackSlots(mc, os, s, paths, n);
      hide Rollback;
      assert q !in PathSet(paths[..n]);
      assert SlotAt(Rollback(mc, os, s, paths, n).disk, q) == SlotAt(s.disk, q);
    }
  }

  lemma CleanupCase(mc: Machine, os: Os, s: Run, paths: seq<string>, manifestPaths: seq<string>,
                    anchor: bool, q: string, c: Content)
    requires FitsManifest(mc, paths, manifestPaths)
    requires SweepArmed(mc, manifestPaths, anchor) ==> ObsoleteApart(mc, ExpectedKeys(mc, manifestPaths), s.disk)
    requires if q in paths then SlotAt(s.disk, q).backup == Some(c) else At(s.disk.app, q) == Some(c)
    ensures SavedOrSwept(CleanupObsolete(mc, os, s, manifestPaths, anchor).disk, q, c)
  {
    if q in paths {
      CleanupKeepsSaved(mc, os, s, manifestPaths, anchor, q);
    } else if SweepArmed(mc, manifestPaths, anchor) {
      CleanupHolds(mc, os, s, manifestPaths, anchor, q);
    }
  }

  /** A rename that does not replace its target destroys nothing. */
  lemma RenameKeepsHeld(mc: Machine, os: Os, s: Run, from: Place, to: Place, p: string, q: string, c: Content)
    requires !mc.Overwrites() && from != to && Held(s.disk, q, c)
    ensures Held(Rename(mc, os, s, from, to, p).0.disk, q, c)
  {
    RenameSlot(mc, os, s, from, to, p);
    hide Rename;
  }

  lemma {:induction false} InstallKeepsHeld(mc: Machine, os: Os, s: Run, paths: seq<string>, i: nat, q: string,
                                            c: Content)
    requires i <= |paths| && !mc.Overwrites() && Held(s.disk, q, c)
    ensures Held(InstallFrom(mc, os, s, paths, i).0.disk, q, c)
    decreases |paths| - i
  {
    if i < |paths| {
      hide Held, Rename;
      var p := paths[i];
      var s1 := MkdirP(os, s).0;
      RenameKeepsHeld(mc, os, s1, App, Backup, p, q, c);
      var s3 := MkdirP(os, Rename(mc, os, s1, App, Backup, p).0).0;
      RenameKeepsHeld(mc, os, s3, Update, App, p, q, c);
      var (t, stopped) := InstallFile(mc, os, s, p);
      if stopped.None? { InstallKeepsHeld(mc, os, t, paths, i + 1, q, c); }
    }
  }

  lemma {:induction false} RollbackKeepsHeld(mc: Machine, os: Os, s: Run, paths: seq<string>, n: nat, q: string,
                                             c: Content)
    requires n <= |paths| && !mc.Overwrites() && Held(s.disk, q, c)
    ensures Held(Rollback(mc, os, s, paths, n).disk, q, c)
    decreases n
  {
    if n > 0 {
      hide Held, Rename;
      var p := paths[n - 1];
      RenameKeepsHeld(mc, os, s, App, Update, p, q, c);
      var s1 := Rename(mc, os, s, App, Update, p).0;
      RenameKeepsHeld(mc, os, s1, Backup, App, p, q, c);
      RollbackKeepsHeld(mc, os, RollbackFile(mc, os, s, p), paths, n - 1, q, c);
    }
  }

  /** No file under one of the paths has a different file as its backup. */
  predicate NoOtherBackup(d: Disk, paths: seq<string>) {
    forall i :: 0 <= i < |paths| && paths[i] in d.app && paths[i] in d.backup ==> d.backup[paths[i]] == d.app[paths[i]]
  }

  /** Conservation: whatever call fails, wherever the process is killed, and whether or not
      the sweep runs, every file that was in the application folder is afterwards, with the
      same content, under the same path in one of the three folders, or under the normal
      form of its path in the backup folder; the update folder is not needed for that once
      the update has been applied. An armed sweep needs obsolete names that stay apart; a
      replacing rename needs that no other file is the backup of one to be saved. */
  lemma NothingIsLost(mc: Machine, os: Os, s: Run, paths: seq<string>, manifestPaths: seq<string>,
                      anchor: bool, q: string)
    requires FitsManifest(mc, paths, manifestPaths) && q in s.disk.app
    requires mc.Overwrites() ==> NoOtherBackup(s.disk, paths)
    requires SweepArmed(mc, manifestPaths, anchor) ==> ObsoleteApart(mc, ExpectedKeys(mc, manifestPaths), s.disk)
    ensures var (t, ok) := PerformUpdate(mc, os, s, paths, manifestPaths, anchor);
      SavedOrSwept(t.disk, q, s.disk.app[q]) || (!ok && Held(t.disk, q, s.disk.app[q]))
  {
    var c := s.disk.app[q];
    assert Held(s.disk, q, c);
    hide InstallFrom, Rollback, CleanupObsolete, Norm, Held, Safe, ObsoleteApart, SweepArmed, NoOtherBackup;
    var (s1, folder) := MkdirP(os, s);
    if folder {
      var (s2, stopped) := InstallFrom(mc, os, s1, paths, 0);
      InstallHolds(mc, os, s1, paths, q, c);
      if mc.Overwrites() && q in paths { SafeWithoutOther(s.disk, paths, q); }
      if SweepArmed(mc, manifestPaths, anchor) { InstalledNamesApart(mc, os, s1, paths, manifestPaths); }
      if !mc.Overwrites() {
        InstallKeepsHeld(mc, os, s1, paths, 0, q, c);
        if stopped.Some? { RollbackKeepsHeld(mc, os, s2, paths, stopped.value.0 + 1, q, c); }
      }
      hide SavedOrSwept;
      if stopped.None? {
        CleanupCase(mc, os, s2, paths, manifestPaths, anchor, q, c);
      } else if mc.Overwrites() {
        RollbackCase(mc, os, s2, paths, stopped.value.0 + 1, q, c);
      }
    }
  }

  lemma SafeWithoutOther(d: Disk, paths: seq<string>, q: string)
    requires NoOtherBackup(d, paths) && q in paths && q in d.app
    ensures Safe(SlotAt(d, q), d.app[q])
  {
    var i :| 0 <= i < |paths| && paths[i] == q;
  }

  /** Names read from a directory stay apart wherever no file name holds a backslash: then
      every one of them is its own normal form. */
  lemma PlainNamesApart(mc: Machine, expected: set<string>, d: Disk)
    requires forall q :: q in d.app ==> IsFilePath(q) && '\\' !in q
    ensures ObsoleteApart(mc, expected, d)
    ensures forall q :: q in d.app ==> Norm(q) == q
  {
    forall q | q in d.app ensures Norm(q) == q { FilePathNormalIff(q); }
    hide IsExpected, Norm;
  }

  // ----- Exactness of a sweep without failures -----

  /** The last obsolete file visited before position `i` whose normal form is `r`. */
  function LastMoved(mc: Machine, expected: set<string>, d: Disk, visits: seq<string>, i: nat, r: string)
    : (q: Option<string>)
    requires i <= |visits|
    ensures q.Some? ==> Obsolete(mc, expected, d, q.value) && Norm(q.value) == r
    ensures q.None? ==> forall j :: 0 <= j < i ==> !(Obsolete(mc, expected, d, visits[j]) && Norm(visits[j]) == r)
  {
    if i == 0 then None
    else if Obsolete(mc, expected, d, visits[i - 1]) && Norm(visits[i - 1]) == r
            && visits[i - 1] !in visits[..i - 1] then Some(visits[i - 1])
    else
      LastMovedStep(mc, expected, d, visits, i, r);
      LastMoved(mc, expected, d, visits, i - 1, r)
  }

  lemma LastMovedStep(mc: Machine, expected: set<string>, d: Disk, visits: seq<string>, i: nat, r: string)
    requires 0 < i <= |visits|
    ensures visits[i - 1] in visits[..i - 1] ==> exists j :: 0 <= j < i - 1 && visits[j] == visits[i - 1]
  {
  }

  /** The obsolete files among `visited` are gone from the application folder. */
  ghost predicate AppSwept(mc: Machine, expected: set<string>, d: Disk, e: Disk, visited: seq<string>) {
    forall q :: At(e.app, q) == (if Obsolete(mc, expected, d, q) && q in visited then None else At(d.app, q))
  }

  /** Where an obsolete file was moved last, the backup folder has that file. */
  ghost predicate BackupSwept(mc: Machine, expected: set<string>, d: Disk, e: Disk, visits: seq<string>, i: nat)
    requires i <= |visits|
  {
    forall r :: At(e.backup, r) == MovedTo(mc, expected, d, visits, i, r)
  }

  function MovedTo(mc: Machine, expected: set<string>, d: Disk, visits: seq<string>, i: nat, r: string): Option<Content>
    requires i <= |visits|
  {
    var q := LastMoved(mc, expected, d, visits, i, r);
    if q.Some? then At(d.app, q.value) else At(d.backup, r)
  }

  /** The application folder during a healthy sweep has lost exactly the obsolete files
      visited so far, each found in the backup folder unless another file with the same
      normal form came later. */
  lemma {:induction false} SweepProgress(mc: Machine, os: Os, s: Run, expected: set<string>, visits: seq<string>,
                                         d: Disk, i: nat)
    requires i <= |visits| && Healthy(os, s.calls)
    requires AppSwept(mc, expected, d, s.disk, visits[..i]) && BackupSwept(mc, expected, d, s.disk, visits, i)
    ensures var t := SweepFrom(mc, os, s, expected, visits, i);
      AppSwept(mc, expected, d, t.disk, visits) && BackupSwept(mc, expected, d, t.disk, visits, |visits|)
    decreases |visits| - i
  {
    hide SweepEntry, IsExpected, Norm;
    if i == |visits| {
      assert visits[..i] == visits;
    } else {
      var p := visits[i];
      var s1 := SweepEntry(mc, os, s, expected, p);
      SweepEntrySlots(mc, os, s, expected, p);
      assert visits[..i + 1] == visits[..i] + [p];
      assert At(s.disk.app, p).Some? <==> p in s.disk.app;
      SweepProgress(mc, os, s1, expected, visits, d, i + 1);
    }
  }

  /** The names of obsolete files do not run into each other when normalised. */
  ghost predicate NamesApart(mc: Machine, expected: set<string>, d: Disk) {
    forall q, r :: Obsolete(mc, expected, d, q) && Obsolete(mc, expected, d, r) && Norm(q) == Norm(r)
      ==> d.app[q] == d.app[r]
  }

  /** The sweep runs exactly in a folder that held the application binary, for a manifest that
      lists it. */
  lemma SweepArmedIff(mc: Machine, manifestPaths: seq<string>, anchor: bool)
    ensures SweepArmed(mc, manifestPaths, anchor)
            <==> anchor && exists p :: p in manifestPaths && mc.PathKey(p) == mc.PathKey(mc.Binary())
  {
    var key := mc.PathKey(mc.Binary());
    assert key in ExpectedKeys(mc, manifestPaths) <==> exists p :: p in manifestPaths && mc.PathKey(p) == key;
  }

  /** Otherwise it does not make a single call. */
  lemma NoSweep(mc: Machine, os: Os, s: Run, manifestPaths: seq<string>, anchor: bool)
    requires !anchor || forall p :: p in manifestPaths ==> mc.PathKey(p) != mc.PathKey(mc.Binary())
    ensures CleanupObsolete(mc, os, s, manifestPaths, anchor) == s
  {
    SweepArmedIff(mc, manifestPaths, anchor);
    hide SweepArmed;
  }

  /** Sweep exactness. When no call fails and the iterator visits every file, a file stays
      in the application folder iff its key is a manifest key, its content unchanged; all
      obsolete files are in the backup folder under their normal form iff no two of them
      with different contents share one; nothing else changes there. A sweep that is not
      armed changes nothing. */
  lemma SweepExact(mc: Machine, os: Os, s: Run, manifestPaths: seq<string>, anchor: bool)
    requires Healthy(os, s.calls)
    requires forall q :: q in s.disk.app ==> q in os.listing(s.disk.app)
    ensures var t := CleanupObsolete(mc, os, s, manifestPaths, anchor);
      var expected := ExpectedKeys(mc, manifestPaths);
      var armed := anchor && exists p :: p in manifestPaths && mc.PathKey(p) == mc.PathKey(mc.Binary());
      && (!armed ==> t == s)
      && (armed ==>
        && (forall q :: At(t.disk.app, q) == (if mc.PathKey(q) in expected then At(s.disk.app, q) else None))
        && ((forall q :: Obsolete(mc, expected, s.disk, q) ==> At(t.disk.backup, Norm(q)) == At(s.disk.app, q))
            <==> NamesApart(mc, expected, s.disk))
        && (forall r :: (forall q :: Obsolete(mc, expected, s.disk, q) ==> Norm(q) != r)
              ==> At(t.disk.backup, r) == At(s.disk.backup, r)))
  {
    SweepArmedIff(mc, manifestPaths, anchor);
    if SweepArmed(mc, manifestPaths, anchor) {
      var expected, visits := ExpectedKeys(mc, manifestPaths), os.listing(s.disk.app);
      var s1 := Called(s);
      assert Ask(os, s).Works?;
      SweepProgress(mc, os, s1, expected, visits, s.disk, 0);
      var t := SweepFrom(mc, os, s1, expected, visits, 0);
      forall q ensures At(t.disk.app, q) == if mc.PathKey(q) in expected then At(s.disk.app, q) else None {
        KeyStable(q, mc.FoldsCase());
      }
      BackupsOfSweep(mc, expected, s.disk, t.disk, visits);
    }
  }

  lemma BackupsOfSweep(mc: Machine, expected: set<string>, d: Disk, e: Disk, visits: seq<string>)
    requires forall q :: q in d.app ==> q in visits
    requires BackupSwept(mc, expected, d, e, visits, |visits|)
    ensures (forall q :: Obsolete(mc, expected, d, q) ==> At(e.backup, Norm(q)) == At(d.app, q))
            <==> NamesApart(mc, expected, d)
    ensures forall r :: (forall q :: Obsolete(mc, expected, d, q) ==> Norm(q) != r)
              ==> At(e.backup, r) == At(d.backup, r)
  {
    hide IsExpected, Norm;
    if NamesApart(mc, expected, d) {
      forall q | Obsolete(mc, expected, d, q) ensures At(e.backup, Norm(q)) == At(d.app, q) {
        var last := LastMoved(mc, expected, d, visits, |visits|, Norm(q));
        var j :| 0 <= j < |visits| && visits[j] == q;
        assert last.Some?;
        assert d.app[last.value] == d.app[q];
      }
    }
    if forall q :: Obsolete(mc, expected, d, q) ==> At(e.backup, Norm(q)) == At(d.app, q) {
      forall q, r | Obsolete(mc, expected, d, q) && Obsolete(mc, expected, d, r) && Norm(q) == Norm(r)
        ensures d.app[q] == d.app[r]
      {
        assert At(d.app, q) == At(e.backup, Norm(q)) == At(d.app, r);
      }
    }
  }

  /** On a system where '\' is an ordinary character, the obsolete files "a\b" and "a/b"
      share one backup: if they differ, a flawless sweep keeps only one of them. */
  lemma BackslashNamesCollide(mc: Machine, os: Os, s: Run, manifestPaths: seq<string>, anchor: bool)
    requires Healthy(os, s.calls) && SweepArmed(mc, manifestPaths, anchor)
    requires forall q :: q in s.disk.app ==> q in os.listing(s.disk.app)
    requires Obsolete(mc, ExpectedKeys(mc, manifestPaths), s.disk, "a\\b")
    requires Obsolete(mc, ExpectedKeys(mc, manifestPaths), s.disk, "a/b")
    requires s.disk.app["a\\b"] != s.disk.app["a/b"]
    ensures var t := CleanupObsolete(mc, os, s, manifestPaths, anchor);
      At(t.disk.backup, Norm("a\\b")) != At(s.disk.app, "a\\b")
      || At(t.disk.backup, Norm("a/b")) != At(s.disk.app, "a/b")
  {
    BackslashSpelling("a\\b", "a/b");
  }
}
