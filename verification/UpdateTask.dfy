/** The updater itself: an object whose methods read the manifest, download, swap files in
    and roll back, each proved against the functions of `UpdateDisk`. */
module UpdateTask {
  import opened Wrappers
  import opened Bytes
  import opened ManifestPath
  import opened VersionNumber
  import opened Manifest
  import opened UpdateDisk

  lemma PendingSnoc(mc: Machine, app: Files, entries: seq<Entry>, e: Entry)
    ensures Pending(mc, app, entries + [e])
         == Pending(mc, app, entries) + if Installed(mc, app, e) then [] else [e.(path := NameOf(mc, e.path))]
  {
    assert (entries + [e])[..|entries|] == entries;
  }

  /** The entries read so far and what the rest gives, if it gives anything. */
  function Continued(done: seq<Entry>, more: Option<seq<Entry>>): Option<seq<Entry>> {
    if more.None? then None else Some(done + more.value)
  }

  lemma ParseStep(rest: string)
    requires NextLine(rest) != ""
    ensures var afterUrl := AfterLine(rest);
      var afterPath := AfterLine(afterUrl);
      var path, signature, more := NextLine(afterUrl), NextLine(afterPath), ParseEntries(AfterLine(afterPath));
      ParseEntries(rest) == if path == "" || signature == "" then None
                            else Continued([Entry(NextLine(rest), path, signature)], more)
  {
  }

  lemma NothingMore(rest: string)
    requires NextLine(rest) == ""
    ensures ParseEntries(rest) == Some([])
  {
  }

  lemma NameIs(mc: Machine, p: string)
    ensures NameOf(mc, p) == Identity(mc, Norm(p))
  {
  }

  lemma NormalPathsSnoc(mc: Machine, entries: seq<Entry>, e: Entry)
    ensures NormalPaths(mc, entries + [e]) == NormalPaths(mc, entries) + [NameOf(mc, e.path)]
  {
    hide NameOf;
  }

  lemma ContinuedOn(done: seq<Entry>, e: Entry, more: Option<seq<Entry>>)
    ensures Continued(done, Continued([e], more)) == Continued(done + [e], more)
  {
    if more.Some? { assert done + ([e] + more.value) == done + [e] + more.value; }
  }

  lemma ContinuedEnds(done: seq<Entry>, more: Option<seq<Entry>>)
    ensures Continued([], more) == more && Continued(done, Some([])) == Some(done)
    ensures Continued(done, None) == None
  {
    assert done + [] == done;
    if more.Some? { assert [] + more.value == more.value; }
  }

  /** The files that three parallel vectors describe. */
  function Zip(urls: seq<string>, paths: seq<string>, signatures: seq<string>): (es: seq<Entry>)
    requires |urls| == |paths| == |signatures|
    ensures |es| == |paths| && Paths(es) == paths
    ensures forall i :: 0 <= i < |es| ==> es[i] == Entry(urls[i], paths[i], signatures[i])
  {
    seq(|paths|, i requires 0 <= i < |paths| => Entry(urls[i], paths[i], signatures[i]))
  }

  lemma ExpectedKeysSnoc(mc: Machine, paths: seq<string>, p: string)
    ensures ExpectedKeys(mc, paths + [p]) == ExpectedKeys(mc, paths) + {mc.PathKey(p)}
  {
    assert forall q :: q in paths + [p] <==> q in paths || q == p;
  }

  class UpdateTask {
    const mc: Machine
    const os: Os
    var disk: Disk
    /** Calls to the operating system made so far in this run. */
    var calls: nat
    ghost var met: map<nat, Disk>
    var downloadURLs: seq<string>
    var localPaths: seq<string>
    var fileSignatures: seq<string>
    var manifestLocalPaths: seq<string>
    var updateVersion: int
    var appFolderWasInstallation: bool

    constructor (mc: Machine, os: Os, disk: Disk)
      ensures this.mc == mc && this.os == os && Now() == Start(disk)
      ensures Aligned()
    {
      this.mc, this.os, this.disk, calls, met := mc, os, disk, 0, map[];
      downloadURLs, localPaths, fileSignatures, manifestLocalPaths := [], [], [], [];
      updateVersion, appFolderWasInstallation := 0, false;
    }

    ghost function Now(): Run
      reads this`disk, this`calls, this`met
    {
      Run(disk, calls, met)
    }

    /** The three vectors describe the same files. */
    ghost predicate Aligned()
      reads this`downloadURLs, this`localPaths, this`fileSignatures
    {
      |downloadURLs| == |localPaths| == |fileSignatures|
    }

    /** The files to install, from the three vectors. */
    ghost function Todo(): (es: seq<Entry>)
      requires Aligned()
      reads this`downloadURLs, this`localPaths, this`fileSignatures
      ensures |es| == |localPaths| && Paths(es) == localPaths
    {
      Zip(downloadURLs, localPaths, fileSignatures)
    }

    // ----- Calls to the operating system -----

    method Call() returns (reply: Reply)
      modifies this`calls, this`met
      ensures reply == Ask(os, old(Now())) && Now() == Called(old(Now()))
    {
      reply := os.reply(calls);
      met := met[calls := disk];
      calls := calls + 1;
    }

    method Succeed() returns (works: bool)
      modifies this`calls, this`met
      ensures works == Ask(os, old(Now())).Works? && Now() == Called(old(Now()))
    {
      var reply := Call();
      works := reply.Works?;
    }

    method MakeFolder() returns (ok: bool)
      modifies this`calls, this`met
      ensures (Now(), ok) == MkdirP(os, old(Now()))
    {
      ok := Succeed();
    }

    method RenameFile(from: Place, to: Place, p: string) returns (r: RenameResult)
      requires from != to
      modifies this`calls, this`met, this`disk
      ensures (Now(), r) == Rename(mc, os, old(Now()), from, to, p)
    {
      var works := Succeed();
      if !works { return Failed; }
      if p !in Get(disk, from) { return NoEntry; }
      if !mc.Overwrites() && p in Get(disk, to) { return Failed; }
      disk := Move(disk, from, to, p);
      return Renamed;
    }

    method RemoveRecursively(w: Place)
      modifies this`calls, this`met, this`disk
      ensures Now() == RemoveFolder(os, old(Now()), w)
    {
      var reply := Call();
      var f := Get(disk, w);
      match reply
      case Works => disk := Put(disk, w, map[]);
      case Breaks(_, kept) => disk := Put(disk, w, f - (f.Keys - kept));
      case Refuses =>
    }

    method WriteVersionFile()
      modifies this`calls, this`met, this`disk
      ensures Now() == WriteVersion(os, old(Now()), updateVersion)
    {
      var fileOpened := Succeed();
      if !fileOpened { return; }
      disk := disk.(version := None);
      var written := Succeed();
      if written { disk := disk.(version := Some(updateVersion)); }
    }

    // ----- Reading the manifest -----

    /** Reads the manifest, keeps what is not installed, and says whether to go on. */
    method ProcessUpdateFile(fd: TextFile) returns (ok: bool)
      modifies this`downloadURLs, this`localPaths, this`fileSignatures, this`manifestLocalPaths,
               this`updateVersion, fd
      ensures Aligned()
      ensures var m := Parse(old(fd.rest));
        && (ok <==> m.Some? && IsUpdate(mc, disk, m.value))
        && (ok ==> Todo() == Pending(mc, disk.app, m.value.entries)
                   && manifestLocalPaths == NormalPaths(mc, m.value.entries)
                   && updateVersion == ParseInt(m.value.version))
    {
      hide NextLine, AfterLine, ParseInt, SignedStream, Norm;
      downloadURLs, localPaths, fileSignatures, manifestLocalPaths := [], [], [], [];
      var version := fd.ReadNextLine();
      if version == "" { return false; }
      var currentVersion := if disk.version.Some? then disk.version.value else -1;
      if currentVersion == -1 { return false; }
      updateVersion := ParseInt(version);
      if updateVersion <= currentVersion { return false; }
      var updateSignature := fd.ReadNextLine();
      if updateSignature == "" { return false; }
      ghost var start := fd.rest;
      var complete, hashed, entries := ReadEntries(fd, version);
      if !complete { return false; }
      assert Parse(old(fd.rest)) == Some(Manifest(version, updateSignature, entries));
      if !mc.accepts(hashed, updateSignature) { return false; }
      if |downloadURLs| == 0 {
        assert Todo() == [];
        return false;
      }
      assert Todo() != [];
      return true;
    }

    /** The loop of `ProcessUpdateFile` over the entries. */
    method ReadEntries(fd: TextFile, version: string)
      returns (complete: bool, hashed: seq<byte>, ghost done: seq<Entry>)
      requires Aligned() && localPaths == [] && manifestLocalPaths == []
      modifies this`downloadURLs, this`localPaths, this`fileSignatures, this`manifestLocalPaths, fd
      ensures Aligned()
      ensures complete <==> ParseEntries(old(fd.rest)).Some?
      ensures complete ==> ParseEntries(old(fd.rest)) == Some(done)
      ensures complete ==> Todo() == Pending(mc, disk.app, done)
      ensures complete ==> manifestLocalPaths == NormalPaths(mc, done)
      ensures complete ==> hashed == SignedStream(version, done)
    {
      hide NextLine, AfterLine, ParseEntries, SignedStream, NameOf, Identity, Norm, Installed, Pending, CharBytes,
        Continued;
      ghost var start := fd.rest;
      hashed, done := CharBytes(version), [];
      SignedNothing(version);
      PendingNothing();
      ContinuedEnds(done, ParseEntries(start));
      while true
        invariant Aligned()
        invariant ParseEntries(start) == Continued(done, ParseEntries(fd.rest))
        invariant Todo() == Pending(mc, disk.app, done)
        invariant manifestLocalPaths == NormalPaths(mc, done)
        invariant hashed == SignedStream(version, done)
        decreases |fd.rest|
      {
        ghost var rest := fd.rest;
        ContinuedEnds(done, None);
        var url := fd.ReadNextLine();
        if url == "" {
          NothingMore(rest);
          complete := true;
          return;
        }
        ParseStep(rest);
        var localPath := fd.ReadNextLine();
        if localPath == "" { complete := false; return; }
        var fileSignature := fd.ReadNextLine();
        if fileSignature == "" { complete := false; return; }
        ghost var e := Entry(url, localPath, fileSignature);
        hashed := hashed + CharBytes(url) + CharBytes(localPath) + CharBytes(fileSignature);
        SignedStreamSnoc(version, done, e);
        PendingSnoc(mc, disk.app, done, e);
        ContinuedOn(done, e, ParseEntries(fd.rest));
        NormalPathsSnoc(mc, done, e);
        var normal := NormalizedManifestPath(localPath);
        var place := Identity(mc, normal);
        assert place == NameOf(mc, e.path) by { NameIs(mc, localPath); }
        manifestLocalPaths := manifestLocalPaths + [place];
        done := done + [e];
        KeepUnlessInstalled(url, place, fileSignature, e);
      }
    }

    method KeepUnlessInstalled(url: string, place: string, fileSignature: string, ghost e: Entry)
      requires Aligned() && e.url == url && NameOf(mc, e.path) == place && e.signature == fileSignature
      modifies this`downloadURLs, this`localPaths, this`fileSignatures
      ensures Aligned()
      ensures Todo() == old(Todo()) + (if Installed(mc, disk.app, e) then [] else [e.(path := NameOf(mc, e.path))])
    {
      if place in disk.app && mc.accepts(disk.app[place], fileSignature) { return; }
      downloadURLs := downloadURLs + [url];
      localPaths := localPaths + [place];
      fileSignatures := fileSignatures + [fileSignature];
    }

    lemma SignedNothing(version: string)
      ensures SignedStream(version, []) == CharBytes(version)
    {
      assert version + "" == version;
    }

    lemma PendingNothing()
      ensures Pending(mc, disk.app, []) == []
    {
    }

    // ----- Downloading -----

    method AlreadyDownloaded(i: nat) returns (ok: bool)
      requires Aligned() && i < |localPaths|
      ensures ok == Downloaded(mc, disk, Todo()[i])
    {
      ok := localPaths[i] in disk.update && mc.accepts(disk.update[localPaths[i]], fileSignatures[i]);
    }

    method DownloadFileTo(url: string, p: string) returns (ok: bool)
      modifies this`calls, this`met, this`disk
      ensures (Now(), ok) == DownloadTo(os, old(Now()), url, p)
    {
      var reply := Call();
      match reply
      case Works => disk := disk.(update := disk.update[p := os.served(url)]); ok := true;
      case Breaks(left, _) => disk := disk.(update := disk.update[p := left]); ok := false;
      case Refuses => ok := false;
    }

    /** One round of the download loop. */
    method FetchFile(currentFile: nat) returns (ok: bool)
      requires Aligned() && currentFile < |localPaths|
      modifies this`calls, this`met, this`disk
      ensures (Now(), ok) == DownloadFile(mc, os, old(Now()), Todo()[currentFile])
    {
      var there := AlreadyDownloaded(currentFile);
      if there { return true; }
      var p := localPaths[currentFile];
      var folder := MakeFolder();
      if !folder { return false; }
      if p in disk.update {
        var removed := Succeed();
        if removed { disk := disk.(update := disk.update - {p}); }
      }
      var arrived := DownloadFileTo(downloadURLs[currentFile], p);
      if !arrived { return false; }
      ok := AlreadyDownloaded(currentFile);
    }

    /** The download loop of `CheckForUpdates`. */
    method DownloadFiles() returns (ok: bool)
      requires Aligned()
      modifies this`calls, this`met, this`disk
      ensures (Now(), ok) == DownloadFrom(mc, os, old(Now()), Todo(), 0)
    {
      hide DownloadFile;
      ghost var todo := Todo();
      var currentFile := 0;
      while currentFile < |downloadURLs|
        invariant currentFile <= |downloadURLs| && Aligned()
        invariant DownloadFrom(mc, os, old(Now()), todo, 0) == DownloadFrom(mc, os, Now(), todo, currentFile)
      {
        ok := FetchFile(currentFile);
        if !ok { return; }
        currentFile := currentFile + 1;
      }
      ok := true;
    }

    // ----- The transaction -----

    /** One round of the swap: save the old file, put the new one in its place. */
    method SwapIn(p: string) returns (stopped: Option<Stage>)
      modifies this`calls, this`met, this`disk
      ensures (Now(), stopped) == InstallFile(mc, os, old(Now()), p)
    {
      var folder := MakeFolder();
      if !folder { return Some(BackupFolder); }
      var saved := RenameFile(App, Backup, p);
      if saved == Failed { return Some(BackupMove); }
      var target := MakeFolder();
      if !target { return Some(TargetFolder); }
      var installed := RenameFile(Update, App, p);
      if installed != Renamed { return Some(Install); }
      return None;
    }

    method PerformUpdate() returns (ok: bool)
      requires Aligned()
      modifies this`calls, this`met, this`disk
      ensures (Now(), ok)
           == UpdateDisk.PerformUpdate(mc, os, old(Now()), localPaths, manifestLocalPaths, appFolderWasInstallation)
    {
      hide InstallFile, Rollback, CleanupObsolete;
      var folder := MakeFolder();
      if !folder { return false; }
      ghost var start := Now();
      for i := 0 to |localPaths|
        invariant InstallFrom(mc, os, start, localPaths, 0) == InstallFrom(mc, os, Now(), localPaths, i)
      {
        var stopped := SwapIn(localPaths[i]);
        if stopped.Some? {
          RollbackUpdate(i);
          return false;
        }
      }
      CleanupObsoleteFiles();
      return true;
    }

    method RollbackUpdate(fileNum: int)
      requires Aligned() && -1 <= fileNum < |localPaths|
      modifies this`calls, this`met, this`disk
      ensures Now() == Rollback(mc, os, old(Now()), localPaths, fileNum + 1)
    {
      var i := fileNum;
      while i >= 0
        invariant -1 <= i <= fileNum
        invariant Rollback(mc, os, old(Now()), localPaths, fileNum + 1) == Rollback(mc, os, Now(), localPaths, i + 1)
      {
        var _ := RenameFile(App, Update, localPaths[i]);
        var _ := RenameFile(Backup, App, localPaths[i]);
        i := i - 1;
      }
    }

    method MoveFileAcrossFilesystems(p: string, target: string)
      modifies this`calls, this`met, this`disk
      ensures Now() == MoveOut(os, old(Now()), p, target)
    {
      var there := p in disk.app;
      var renamed := Succeed();
      if renamed && there {
        disk := disk.(app := disk.app - {p}, backup := disk.backup[target := disk.app[p]]);
        return;
      }
      var reply := Call();
      if !there { return; }
      match reply {
        case Refuses =>
        case Breaks(left, _) => disk := disk.(backup := disk.backup[target := left]);
        case Works =>
          disk := disk.(backup := disk.backup[target := disk.app[p]]);
          var removed := Succeed();
          if removed { disk := disk.(app := disk.app - {p}); }
      }
    }

    /** One step of the directory iterator. */
    method Visit(p: string, expectedPaths: set<string>)
      modifies this`calls, this`met, this`disk
      ensures Now() == SweepEntry(mc, os, old(Now()), expectedPaths, p)
    {
      hide MoveOut, Norm, Key;
      var status := Succeed();
      if status {
        var relativePath := NormalizedManifestPath(p);
        var key := ManifestPathKey(relativePath, mc.FoldsCase());
        if key !in expectedPaths {
          var folder := MakeFolder();
          if folder { MoveFileAcrossFilesystems(p, relativePath); }
        }
      }
    }

    method CollectExpectedPaths() returns (expectedPaths: set<string>)
      ensures expectedPaths == ExpectedKeys(mc, manifestLocalPaths)
    {
      hide Key;
      expectedPaths := {};
      for i := 0 to |manifestLocalPaths|
        invariant expectedPaths == ExpectedKeys(mc, manifestLocalPaths[..i])
      {
        var key := ManifestPathKey(manifestLocalPaths[i], mc.FoldsCase());
        assert manifestLocalPaths[..i + 1] == manifestLocalPaths[..i] + [manifestLocalPaths[i]];
        ExpectedKeysSnoc(mc, manifestLocalPaths[..i], manifestLocalPaths[i]);
        expectedPaths := expectedPaths + {key};
      }
      assert manifestLocalPaths[..|manifestLocalPaths|] == manifestLocalPaths;
    }

    method CleanupObsoleteFiles()
      modifies this`calls, this`met, this`disk
      ensures Now() == CleanupObsolete(mc, os, old(Now()), manifestLocalPaths, appFolderWasInstallation)
    {
      hide SweepEntry, Key, ExpectedKeys;
      if manifestLocalPaths == [] { return; }
      var expectedPaths := CollectExpectedPaths();
      var binaryKey := ManifestPathKey(mc.Binary(), mc.FoldsCase());
      if !appFolderWasInstallation || binaryKey !in expectedPaths { return; }
      var iteratorOpened := Succeed();
      if !iteratorOpened { return; }
      ghost var start := Now();
      var visits := os.listing(disk.app);
      for i := 0 to |visits|
        invariant SweepFrom(mc, os, start, expectedPaths, visits, 0)
               == SweepFrom(mc, os, Now(), expectedPaths, visits, i)
      {
        Visit(visits[i], expectedPaths);
      }
    }

    // ----- One run -----

    /** One run of the updater; `fetched` is the manifest that the server offers. */
    method CheckForUpdates(fetched: TextFile)
      requires Aligned() && Now() == Start(disk)
      modifies this, fetched
      ensures Now() == UpdateDisk.CheckForUpdates(mc, os, old(Now()), old(fetched.rest))
    {
      hide Parse, IsUpdate, Pending, DownloadFrom, UpdateDisk.PerformUpdate, RemoveFolder, WriteVersion, ParseInt;
      appFolderWasInstallation := Anchored(mc, disk.app);
      var arrived := Succeed();
      if !arrived { return; }
      var proceed := ProcessUpdateFile(fetched);
      if !proceed { return; }
      RemoveRecursively(Backup);
      var downloaded := DownloadFiles();
      if !downloaded { return; }
      var applied := PerformUpdate();
      if !applied { return; }
      RemoveRecursively(Update);
      WriteVersionFile();
    }
  }
}
