/** The updater's file transaction as functions on a disk: three folders and the version
    file. Files are named by their normalised path below a folder, as the volume tells
    them apart. Every call to the
    operating system is numbered within a run and answered by a reply chosen in advance;
    a process that is killed before its k-th call is a run whose calls from the k-th on
    are all refused. */
module UpdateDisk {
  import opened Wrappers
  import opened Bytes
  import opened ManifestPath
  import opened VersionNumber
  import opened Manifest

  type Content = seq<byte>
  type Files = map<string, Content>

  /** `version` is the number in the version file, if one can be read from it. */
  datatype Disk = Disk(app: Files, update: Files, backup: Files, version: Option<int>)

  datatype Place = App | Update | Backup

  /** What the volume knows a file by: its path, in lower case where the volume ignores case.
      The maps above are keyed by it. */
  function Identity(mc: Machine, p: string): string { if mc.IgnoresCase() then Lower(p) else p }

  /** The file that a manifest path names. */
  function NameOf(mc: Machine, p: string): string { Identity(mc, Norm(p)) }

  /** The application binary is there. */
  predicate Anchored(mc: Machine, app: Files) { NameOf(mc, mc.Binary()) in app }

  datatype Platform = Windows | MacOS | OtherPosix

  /** `accepts(content, signature)` is the signature check of the updater; `caseless` says
      that the volume finds a file under every spelling of its name in upper and lower case,
      which only volumes of Windows and macOS do. */
  datatype Machine = Machine(platform: Platform, caseless: bool, accepts: (Content, string) -> bool) {
    /** POSIX `rename` replaces an existing target, `_wrename` does not. */
    predicate Overwrites() { platform != Windows }
    predicate FoldsCase() { platform != OtherPosix }
    predicate IgnoresCase() { FoldsCase() && caseless }
    function Binary(): string {
      if platform == Windows then "MEGAsync.exe" else "Contents/MacOS/MEGAsync"
    }
    function PathKey(p: string): string { Key(p, FoldsCase()) }
  }

  /** A call works, or is refused without effect, or breaks off: a download or copy then
      leaves `left` in its target, and the removal of a folder leaves the files `kept`. */
  datatype Reply = Works | Refuses | Breaks(left: Content, kept: set<string>)

  /** The replies of one run, the content the server has under a URL, and the order in
      which the directory iterator visits the files of the application folder. */
  datatype Os = Os(reply: nat -> Reply, served: string -> Content, listing: Files -> seq<string>)

  /** The disk during a run, the number of calls made, and the disk that each of them met. */
  datatype Run = Run(disk: Disk, calls: nat, met: map<nat, Disk>)

  function Start(d: Disk): Run { Run(d, 0, map[]) }

  function Ask(os: Os, s: Run): Reply { os.reply(s.calls) }

  function Called(s: Run): Run { s.(calls := s.calls + 1, met := s.met[s.calls := s.disk]) }

  function Get(d: Disk, w: Place): Files {
    match w
    case App => d.app
    case Update => d.update
    case Backup => d.backup
  }

  function Put(d: Disk, w: Place, f: Files): Disk {
    match w
    case App => d.(app := f)
    case Update => d.(update := f)
    case Backup => d.(backup := f)
  }

  // ----- Calls to the operating system -----

  datatype RenameResult = Renamed | NoEntry | Failed

  function Move(d: Disk, from: Place, to: Place, p: string): Disk
    requires p in Get(d, from) && from != to
  {
    var x := Get(d, from)[p];
    var taken := Put(d, from, Get(d, from) - {p});
    Put(taken, to, Get(taken, to)[p := x])
  }

  function MkdirP(os: Os, s: Run): (Run, bool) { (Called(s), Ask(os, s).Works?) }

  /** Renames file `p` of one folder to file `p` of another. */
  function Rename(mc: Machine, os: Os, s: Run, from: Place, to: Place, p: string): (Run, RenameResult)
    requires from != to
  {
    if !Ask(os, s).Works? then (Called(s), Failed)
    else if p !in Get(s.disk, from) then (Called(s), NoEntry)
    else if !mc.Overwrites() && p in Get(s.disk, to) then (Called(s), Failed)
    else (Called(s).(disk := Move(s.disk, from, to, p)), Renamed)
  }

  function RemoveUpdateFile(os: Os, s: Run, p: string): Run {
    if Ask(os, s).Works? then Called(s).(disk := s.disk.(update := s.disk.update - {p})) else Called(s)
  }

  function DownloadTo(os: Os, s: Run, url: string, p: string): (Run, bool) {
    match Ask(os, s)
    case Works => (Called(s).(disk := s.disk.(update := s.disk.update[p := os.served(url)])), true)
    case Breaks(left, _) => (Called(s).(disk := s.disk.(update := s.disk.update[p := left])), false)
    case Refuses => (Called(s), false)
  }

  function RemoveFolder(os: Os, s: Run, w: Place): Run {
    var f := Get(s.disk, w);
    match Ask(os, s)
    case Works => Called(s).(disk := Put(s.disk, w, map[]))
    case Breaks(_, kept) => Called(s).(disk := Put(s.disk, w, f - (f.Keys - kept)))
    case Refuses => Called(s)
  }

  /** Opening the version file truncates it; the number is written afterwards. */
  function WriteVersion(os: Os, s: Run, version: int): Run {
    if !Ask(os, s).Works? then Called(s)
    else
      var t := Called(s).(disk := s.disk.(version := None));
      if !Ask(os, t).Works? then Called(t)
      else Called(t).(disk := t.disk.(version := Some(version)))
  }

  // ----- Swapping files in -----

  datatype Stage = BackupFolder | BackupMove | TargetFolder | Install

  function InstallFile(mc: Machine, os: Os, s: Run, p: string): (Run, Option<Stage>) {
    var (s1, folder) := MkdirP(os, s);
    if !folder then (s1, Some(BackupFolder))
    else
      var (s2, saved) := Rename(mc, os, s1, App, Backup, p);
      if saved == Failed then (s2, Some(BackupMove))
      else
        var (s3, target) := MkdirP(os, s2);
        if !target then (s3, Some(TargetFolder))
        else
          var (s4, installed) := Rename(mc, os, s3, Update, App, p);
          if installed != Renamed then (s4, Some(Install)) else (s4, None)
  }

  /** Installs the files from index `i` on; the result names the file and stage at which
      it stopped. */
  function InstallFrom(mc: Machine, os: Os, s: Run, paths: seq<string>, i: nat)
    : (r: (Run, Option<(nat, Stage)>))
    requires i <= |paths|
    ensures r.1.Some? ==> i <= r.1.value.0 < |paths|
    decreases |paths| - i
  {
    if i == |paths| then (s, None)
    else
      var (s1, stopped) := InstallFile(mc, os, s, paths[i]);
      if stopped.Some? then (s1, Some((i, stopped.value)))
      else InstallFrom(mc, os, s1, paths, i + 1)
  }

  function RollbackFile(mc: Machine, os: Os, s: Run, p: string): Run {
    Rename(mc, os, Rename(mc, os, s, App, Update, p).0, Backup, App, p).0
  }

  /** Rolls back the first `n` files, last one first; failures are ignored. */
  function Rollback(mc: Machine, os: Os, s: Run, paths: seq<string>, n: nat): Run
    requires n <= |paths|
    decreases n
  {
    if n == 0 then s else Rollback(mc, os, RollbackFile(mc, os, s, paths[n - 1]), paths, n - 1)
  }

  // ----- Sweeping obsolete files -----

  /** Moves across file systems: rename, else copy and remove. The target is replaced. */
  function MoveOut(os: Os, s: Run, p: string, target: string): Run {
    var there := p in s.disk.app;
    var renamed := Called(s);
    if Ask(os, s).Works? && there then
      renamed.(disk := s.disk.(app := s.disk.app - {p}, backup := s.disk.backup[target := s.disk.app[p]]))
    else if !there then Called(renamed)
    else
      match Ask(os, renamed)
      case Refuses => Called(renamed)
      case Breaks(left, _) =>
        Called(renamed).(disk := s.disk.(backup := s.disk.backup[target := left]))
      case Works =>
        var copied := Called(renamed).(disk := s.disk.(backup := s.disk.backup[target := s.disk.app[p]]));
        if Ask(os, copied).Works? then
          Called(copied).(disk := copied.disk.(app := copied.disk.app - {p}))
        else Called(copied)
  }

  predicate IsExpected(mc: Machine, expected: set<string>, p: string) { mc.PathKey(Norm(p)) in expected }

  function SweepEntry(mc: Machine, os: Os, s: Run, expected: set<string>, p: string): Run {
    var s1 := Called(s);
    if !Ask(os, s).Works? || IsExpected(mc, expected, p) then s1
    else
      var (s2, folder) := MkdirP(os, s1);
      if !folder then s2 else MoveOut(os, s2, p, Norm(p))
  }

  function SweepFrom(mc: Machine, os: Os, s: Run, expected: set<string>, visits: seq<string>, i: nat): Run
    requires i <= |visits|
    decreases |visits| - i
  {
    if i == |visits| then s
    else SweepFrom(mc, os, SweepEntry(mc, os, s, expected, visits[i]), expected, visits, i + 1)
  }

  function ExpectedKeys(mc: Machine, manifestPaths: seq<string>): set<string> {
    set p | p in manifestPaths :: mc.PathKey(p)
  }

  /** The sweep runs only on an installation, and for a manifest that lists the binary. */
  predicate SweepArmed(mc: Machine, manifestPaths: seq<string>, anchor: bool) {
    manifestPaths != [] && anchor && mc.PathKey(mc.Binary()) in ExpectedKeys(mc, manifestPaths)
  }

  function CleanupObsolete(mc: Machine, os: Os, s: Run, manifestPaths: seq<string>, anchor: bool): Run {
    if !SweepArmed(mc, manifestPaths, anchor) then s
    else if !Ask(os, s).Works? then Called(s)
    else SweepFrom(mc, os, Called(s), ExpectedKeys(mc, manifestPaths), os.listing(s.disk.app), 0)
  }

  function PerformUpdate(mc: Machine, os: Os, s: Run, paths: seq<string>,
                         manifestPaths: seq<string>, anchor: bool): (Run, bool)
  {
    var (s1, folder) := MkdirP(os, s);
    if !folder then (s1, false)
    else
      var (s2, stopped) := InstallFrom(mc, os, s1, paths, 0);
      if stopped.Some? then
        (Rollback(mc, os, s2, paths, stopped.value.0 + 1), false)
      else (CleanupObsolete(mc, os, s2, manifestPaths, anchor), true)
  }

  // ----- Downloading -----

  predicate Downloaded(mc: Machine, d: Disk, e: Entry) {
    e.path in d.update && mc.accepts(d.update[e.path], e.signature)
  }

  function DownloadFile(mc: Machine, os: Os, s: Run, e: Entry): (Run, bool) {
    if Downloaded(mc, s.disk, e) then (s, true)
    else
      var (s1, folder) := MkdirP(os, s);
      if !folder then (s1, false)
      else
        var s2 := if e.path in s1.disk.update then RemoveUpdateFile(os, s1, e.path) else s1;
        var (s3, arrived) := DownloadTo(os, s2, e.url, e.path);
        (s3, arrived && Downloaded(mc, s3.disk, e))
  }

  function DownloadFrom(mc: Machine, os: Os, s: Run, todo: seq<Entry>, i: nat): (Run, bool)
    requires i <= |todo|
    decreases |todo| - i
  {
    if i == |todo| then (s, true)
    else
      var (s1, ok) := DownloadFile(mc, os, s, todo[i]);
      if !ok then (s1, false) else DownloadFrom(mc, os, s1, todo, i + 1)
  }

  // ----- One run -----

  predicate Installed(mc: Machine, app: Files, e: Entry) {
    NameOf(mc, e.path) in app && mc.accepts(app[NameOf(mc, e.path)], e.signature)
  }

  predicate AllInstalled(mc: Machine, app: Files, entries: seq<Entry>) {
    forall i :: 0 <= i < |entries| ==> Installed(mc, app, entries[i])
  }

  /** The entries still to install, with the place of their file as path. */
  function Pending(mc: Machine, app: Files, entries: seq<Entry>): seq<Entry> {
    if entries == [] then []
    else
      var last := entries[|entries| - 1];
      Pending(mc, app, entries[..|entries| - 1])
      + if Installed(mc, app, last) then [] else [last.(path := NameOf(mc, last.path))]
  }

  function Paths(todo: seq<Entry>): (ps: seq<string>)
    ensures |ps| == |todo| && forall i :: 0 <= i < |todo| ==> ps[i] == todo[i].path
  {
    seq(|todo|, i requires 0 <= i < |todo| => todo[i].path)
  }

  function NormalPaths(mc: Machine, entries: seq<Entry>): (ps: seq<string>)
    ensures |ps| == |entries| && forall i :: 0 <= i < |entries| ==> ps[i] == NameOf(mc, entries[i].path)
  {
    seq(|entries|, i requires 0 <= i < |entries| => NameOf(mc, entries[i].path))
  }

  /** What makes a run go on: a readable older version, a signed manifest, work to do. */
  predicate IsUpdate(mc: Machine, d: Disk, m: Manifest) {
    && d.version.Some? && d.version.value != -1 && d.version.value < ParseInt(m.version)
    && mc.accepts(SignedStream(m.version, m.entries), m.signature)
    && Pending(mc, d.app, m.entries) != []
  }

  function FinalCleanup(os: Os, s: Run, version: int): Run {
    WriteVersion(os, RemoveFolder(os, s, Update), version)
  }

  function ApplyManifest(mc: Machine, os: Os, s: Run, m: Manifest, anchor: bool): Run {
    var todo := Pending(mc, s.disk.app, m.entries);
    var (s2, downloaded) := DownloadFrom(mc, os, RemoveFolder(os, s, Backup), todo, 0);
    if !downloaded then s2
    else
      var (s3, applied) := PerformUpdate(mc, os, s2, Paths(todo), NormalPaths(mc, m.entries), anchor);
      if !applied then s3
      else FinalCleanup(os, s3, ParseInt(m.version))
  }

  /** One run of the updater when the server offers the manifest `text`. */
  function CheckForUpdates(mc: Machine, os: Os, s: Run, text: string): Run {
    var anchor := Anchored(mc, s.disk.app);
    var m := Parse(text);
    if !Ask(os, s).Works? || m.None? || !IsUpdate(mc, s.disk, m.value) then Called(s)
    else ApplyManifest(mc, os, Called(s), m.value, anchor)
  }

  // ----- The platforms -----

  /** What the platforms differ in: the application binary, the kind of rename, and whether
      keys and names fold case. */
  lemma Platforms(mc: Machine, p: string)
    ensures mc.platform == Windows ==> mc.Binary() == "MEGAsync.exe" && !mc.Overwrites()
    ensures mc.platform != Windows ==> mc.Binary() == "Contents/MacOS/MEGAsync" && mc.Overwrites()
    ensures mc.PathKey(p) == Key(p, mc.platform in {Windows, MacOS})
    ensures NameOf(mc, p) == Key(p, mc.caseless && mc.platform in {Windows, MacOS})
  {
  }
}
