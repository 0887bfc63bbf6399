# Verified models of the MEGA Desktop App updater and of five smaller protocols

This project models the parts of the MEGA Desktop App whose correctness is hard to see from
the code, and proves what they promise. `dafny verify dfyconfig.toml` checks all of it.

## The updater

One run of `UpdateTask::checkForUpdates` reads a signed manifest, downloads what is missing into
the update folder, moves every old file of the application folder to the backup folder and the
new one into its place, rolls back if that fails, moves files that the manifest does not list
into the backup folder, prunes empty folders, and writes the new version number.

* `UpdateDisk` defines a run as functions on a disk: three maps from normalised path to content,
  where the volume ignores case from that path in lower case, and the number in the version
  file, if one can be read. Every call to the operating system has
  a number and is answered by a reply chosen in advance: it works, it is refused, or it breaks
  off half-way. A process killed at call k is one whose calls from k on are all refused: it ends
  with the disk that call k meets (`UpdateKills.KilledRunIsPrefix`), so a theorem for all replies
  covers every failure and every kill.
* `UpdatePlaces` says when the maps stand for the places that folder and path really lead to.
* `UpdateTask` holds the updater itself, an object whose methods loop over the parallel vectors
  as the source does; each is proved equal to its function in `UpdateDisk`.
* `UpdateTransaction` and `UpdateSweep` prove what rollback restores and what is conserved;
  `UpdateRuns` lifts that to whole runs and to any sequence of broken or killed runs.
  `UpdateConservation` and `UpdateSuccession` give the exact conditions under which no replies
  can make a run, or any number of runs, lose a file; `UpdateSafety` shows what no failure can
  bring about, and when an installation gets stuck. `UpdateAnchor` says in which folders the
  sweep runs at all.
* `ManifestPath`, `Base64`, `Signature`, `VersionNumber` and `Manifest` are the parsers and codecs
  underneath, `UpdateGenerator` the tool that prints and signs the manifest. `GeneratedUpdate`
  joins both sides: what the generator signs is what ends up installed. `SignedFields` asks the
  converse: what an accepted manifest owes to the generator.
* `InstallFolders` and `EmptyDirectory` are the pruning of empty folders and the recursive
  emptying of a directory, on trees of paths (`PathTree`).

POSIX `rename` replaces an existing target and Windows `_wrename` does not; `Machine.platform`
chooses, and theorems that differ say so.

## The other protocols

`RegistryKeys` deletes registry subtrees through one shared path buffer, or one per level;
`TransferQuota` is the quota state machine whose update and alert methods call each other;
`RestartProtocol` plays the postponed restart after an update against the user's wish to quit;
`NetworkChanges` detects changes of the network interfaces; `UrlCache` drops a URL that was
handled seconds ago; `ScaleFactors` rounds screen scales to quarters.

## Where the code keeps less than it seems to promise

* Rollback is exact only under a condition, and `RollbackExact` gives it in both directions: no
  file was absent from the application folder while the backup folder had one, and, where
  `rename` replaces its target, a stop before the old file was saved must find equal contents.
  Otherwise rolling back moves the old file over the downloaded one and has nothing to put back
  (`RollbackLosesUnsavedFile`).
* A path that climbs out of its folder, such as "../a", is one place for the update and the backup
  folder, which lie side by side. The swap then moves the old file over the download and back,
  and reports success, or never succeeds on Windows (`SwapInstallsIff`, `ClimbingPathsMeet`).
  Nothing in the updater refuses such a path.
* A run conserves every old file exactly under the condition of `RunConservesIff`: no two names
  that are swept have one normal form, and, where `rename` replaces its target, no pending file
  has a different one as left-over backup. Where '\' is an ordinary character, "a\b" and "a/b"
  share one backup (`BackslashNamesCollide`). Names without a backslash always stay apart
  (`PlainNamesApart`).
* A folder that never was an installation keeps what the manifest does not list
  (`StrangersStay`), but only in its first update: that one installs the binary, and the next
  one sweeps the folder (`SecondUpdateSweeps`).
* Over several runs on one manifest an old file or its accepted successor is always kept if a
  rename does not replace its target, and otherwise only if no old file is pending
  (`SuccessionIff`). Over two manifests a file can vanish from all folders (`TwoManifestsLose`).
  Where a rename does not replace its target, that happens exactly if the first one replaces the
  file, and the second is newer and its signature does not accept the first one's file
  (`TwoManifestsIff`).
* Where a volume ignores case, the old file "A" is the file of the manifest path "a": rolled back
  before it was saved, it is moved over its download and not restored (`CaseVariants`,
  `CaseVariantRolledBack`).
* Normalisation keeps the place a manifest path leads to, except for a path that both starts with
  a separator and climbs out of its folder (`KeepsLocationIff`, `RootedEscapeMoves`).
* The version file is truncated before the number is written. A run loses the version exactly by
  a failure or kill in between (`RunLosesVersionIff`), and from then on no run changes anything
  (`StuckIff`). After a kill between the last install and the sealing, the next run finds
  everything up to date and does not seal (`InstalledStopsRuns`); `CrashConvergence` therefore
  promises installed files always and the sealed version only when something was left to install.
* The signature covers the fields without their boundaries, and the check of a signature line
  ignores what follows the signature on that line. Accepted files are files that were signed
  (`OnlyGeneratedFilesInstalled`), but the same stream can be cut into other fields and fewer
  entries, which are accepted alike (`ReadingsAcceptedAlike`). The generator's own is the only
  reading with an entry exactly if there is at most one entry, and version, URL and path all have
  one character or all the length of a line (`FieldsBoundIff`). So a server without the key can
  have a file installed under another path with another version (`InstalledElsewhere`); it can
  also drop the first entries and have the generator's version sealed without their files, which
  no later run on the generator's manifest repairs (`EntriesDropped`).
* An exit dialog disarms a restart that was postponed before, but an update first postponed while
  the dialog is open restarts the application under it (`PostponedUnderDialog`), and so does a
  restart asked for before, as soon as the transfers end (`QuitForcedIff`).
* The generator signs the version text but prints the number read from it. The updater accepts
  the manifest iff both give the same digest (`ManifestAcceptedIff`), which a canonical decimal
  guarantees and "07" does not (`PaddedVersionSignsAnotherStream`).
* `signFile` pads a failed raw signing, which reports length 0, to 512 zeros and reports success;
  such a signature is never accepted (`SignatureAcceptedIff`).
* `DeleteRegKey` copies every path into 260 characters. It deletes a subtree iff, besides the
  rights, all paths of the subtree fit (`DeleteRegKey`, `Reached`).
* A contents line without a target adds no hash, so the vectors line up iff every entry line names
  its target (`HashesAligned`).

## Assumptions

* Manifest paths stay inside their folder, have distinct keys, name files rather than directories,
  and none is a directory on the way to another (`UpdateRuns.SeparatePlaces` has the first two).
  None of the three folders lies in another. A rename or folder creation that fails because a
  directory is missing or in the way counts as refused.
* A volume either tells all spellings of a name apart or, on Windows and macOS, none that differ
  in case only (`Machine.caseless`); in the second case the directory iterator is taken to report
  lower-case names.
* Opening and probing a file for reading always works. The version file holds a number or nothing.
* SHA-512 is an arbitrary function to 64 bytes. The RSA operations are functions with
  encrypt(decrypt(m)) = m below the modulus; "accepted for another file" is therefore stated as
  equality of digests.
* Where a server is not trusted (`SignedFields`), it cannot make a text that is accepted for
  anything without carrying a signature of the key, and the contents compared do not collide.
* The raw key operations of the SDK are not part of this repository: they are taken to write the
  shortest big-endian form of their result and to return its length, or 0 if it does not fit.
* A quota evaluation sees one set of bandwidth figures; what it clears when the wait is over
  (`Preferences::clearTemporalBandwidth`) is not among the figures it reads. The clock does not go
  back.
* Interfaces have distinct names, and their addresses are distinct and IPv4 or IPv6.
* Scales are real numbers.

## Model

| member | source | states |
|---|---|---|
| UpdateRuns.CrashConvergence | src/MEGAUpdater/UpdateTask.cpp:392-544 | After any number of runs that fail or are killed anywhere, the version is still the old one unless every manifest file is installed with an accepted signature; one further healthy run leaves them all installed, and seals the version unless nothing was left to install |
| UpdateConservation.RunConservesIff | src/MEGAUpdater/UpdateTask.cpp:473-535 | A run on a manifest whose files the server has conserves every file of the application folder under all replies, kills and visiting orders iff it has nothing to do, or names to be swept stay apart and, where a rename replaces its target, no pending file has a different one as left-over backup |
| UpdateConservation.StaleBackupLoses | src/MEGAUpdater/UpdateTask.cpp:873-966 | For every pending file with such a backup, replies under which a rollback puts the backup in its place and the file is lost |
| UpdateConservation.CollidingRunLoses | src/MEGAUpdater/UpdateTask.cpp:1018-1064 | For any two colliding names, replies under which a whole run loses a file |
| UpdateSuccession.SuccessionIff | src/MEGAUpdater/UpdateTask.cpp:873-966 | Over all runs on one manifest every old file is kept or replaced, or its accepted successor is downloaded: always under a rename that does not replace its target, otherwise iff no old file is pending |
| UpdateSuccession.RunsKeepFiles | src/MEGAUpdater/UpdateTask.cpp:392-544 | The invariant of that, kept by every run |
| UpdateSuccession.SuccessorCanBeLost | src/MEGAUpdater/UpdateTask.cpp:955-966 | Under a replacing rename, for every pending old file, replies under which a rollback moves it over its successor |
| UpdateSuccession.ObsoleteFilesKept | src/MEGAUpdater/UpdateTask.cpp:1018-1064 | Over all runs on one manifest every obsolete file is still there or in the backup folder, and no later run removes it |
| UpdateSuccession.TwoManifestsIff | src/MEGAUpdater/UpdateTask.cpp:473-523 | Under a rename that does not replace its target, an old file that both manifests list survives all runs on the first and then all runs on the second, under all replies, unless the first replaces it, the second is accepted and newer, and its signature does not accept the first one's file; then it can be lost |
| UpdateSuccession.TwoManifestsLose | src/MEGAUpdater/UpdateTask.cpp:473-523 | In that case, under both kinds of rename, replies for two runs after which the file is in no folder: the first is killed between its two renames, the second removes backup and outdated download and fails |
| GeneratedUpdate.CheckerByDigest | src/MEGAUpdater/UpdateTask.cpp:1595-1639 | The updater's check treats two files alike that one signature accepts, as that theorem asks |
| UpdateSafety.OnlySignedFilesInstalled | src/MEGAUpdater/UpdateTask.cpp:392-544 | Whatever fails and wherever it is killed, a run brings only files into the application folder that an accepted, newer manifest lists under their path with a signature accepted for them; the one exception is an old backup that could not be removed and is rolled back |
| SignedFields.OnlyGeneratedFilesInstalled | src/MEGAUpdater/UpdateTask.cpp:735-834 | Whatever the server offers and whatever fails: each file brought in has the digest of a file the generator signed, and the manifest listing it is a splitting of the generator's stream, or of a signed file, into fields |
| SignedFields.AcceptedSplitsSigned | src/MEGAUpdater/UpdateTask.cpp:776-822 | An accepted manifest that nobody forged has the bytes of a signed content, however they are cut into fields |
| SignedFields.OwnFieldsIff | src/MEGAUpdater/UpdateTask.cpp:801-803 | Of two manifests with one signed stream the fields are the same iff they have the same widths |
| SignedFields.HashedLines | src/MEGAUpdater/UpdateTask.cpp:776-803 | All lines of a manifest but its signature are hashed, one after the other, one byte for each character |
| SignedFields.FieldsBoundIff | src/MEGAUpdater/UpdateTask.cpp:776-822 | Of all ways to cut the generator's stream into lines whose signature lines start with the generator's signatures at their places, its own is the only one with an entry iff it has at most one entry, and version, URL and path all have one character or all the length of a line |
| SignedFields.ReadingsAcceptedAlike | src/MEGAUpdater/UpdateTask.cpp:1595-1639 | All those readings hash to the same stream, and each of their signature lines is accepted for the same digests as one of the generator's |
| SignedFields.EntriesDropped | src/MEGAUpdater/UpdateTask.cpp:754-834 | A server without the key makes the first entries part of the version line: a healthy run seals the generator's version and installs the rest, the dropped files stay missing, and no later run on the generator's manifest changes anything |
| SignedFields.VersionSwallows | src/MEGAUpdater/UpdateTask.cpp:776-803 | For every number of first entries that fit on a line, moving them to the version line is such a reading |
| SignedFields.InstalledElsewhere | src/MEGAUpdater/UpdateTask.cpp:776-822 | A server without the key has a signed file installed under a path, and sealed with a version, that the generator never put together |
| UpdateSafety.RunLosesVersionIff | src/MEGAUpdater/UpdateTask.cpp:1137-1142 | From a readable version, a run ends with an unreadable one iff it comes to the sealing, the truncation works and the number is not written (or is -1); every manifest file is installed by then |
| UpdateSafety.StuckIff | src/MEGAUpdater/UpdateTask.cpp:754-766 | While some update is still to be had, no run with any manifest and replies can change anything iff the version cannot be read |
| UpdateSafety.SealingKeepsVersion | src/MEGAUpdater/UpdateTask.cpp:473-535 | Up to the sealing no failure touches the version file |
| UpdateSafety.VersionNeverFalls | src/MEGAUpdater/UpdateTask.cpp:754-766 | Over every sequence of runs with any manifests and failures the version number never falls, and an unreadable one stays so |
| UpdateSafety.HealthyRunSweeps | src/MEGAUpdater/UpdateTask.cpp:392-544 | Without failures, on an installation whose binary the manifest lists and whose obsolete names stay apart, only manifest files are left, all installed and accepted, and every obsolete file is in the backup folder |
| UpdateSafety.ChangeNeedsUpdate | src/MEGAUpdater/UpdateTask.cpp:459-473 | A run that changes anything, recovery copies included, has an accepted newer manifest with a file to install |
| UpdateSafety.PerformUpdateFrom | src/MEGAUpdater/UpdateTask.cpp:862-966 | A transaction, failed or not, puts nothing under a path but what one of the folders held under it, and nothing new under other paths |
| UpdateSafety.RollbackFrom | src/MEGAUpdater/UpdateTask.cpp:955-966 | A rollback with any failures makes up no content and mixes no paths |
| UpdateRuns.RunsKeepNotSealedEarly | src/MEGAUpdater/UpdateTask.cpp:529-535 | Invariant of every sequence of runs: everything is installed or the version is the old one |
| UpdateRuns.ApplySealsOnlyInstalled | src/MEGAUpdater/UpdateTask.cpp:473-535 | A run that changes the version file leaves every manifest file installed |
| UpdateRuns.HealthyRunInstalls | src/MEGAUpdater/UpdateTask.cpp:392-544 | Without failures an update leaves every file installed, the new number sealed and the update folder empty, from any state of the folders and under both kinds of rename |
| UpdateRuns.InstalledStopsRuns | src/MEGAUpdater/UpdateTask.cpp:824-831 | Once all files are installed, a run changes nothing at all, not even the version |
| UpdateRuns.TransactionInstallsAll | src/MEGAUpdater/UpdateTask.cpp:862-953 | If what is pending was downloaded and verified, a successful transaction leaves every manifest file installed, swept or not |
| UpdateRuns.PerformUpdateInstalls | src/MEGAUpdater/UpdateTask.cpp:862-953 | Success puts the downloaded content under every pending path and leaves the other manifest files; the version is untouched in any case |
| UpdateRuns.InstallWorks | src/MEGAUpdater/UpdateTask.cpp:873-919 | Without failures all installs succeed, under a rename that does not replace its target if nothing is in the way in the backup folder |
| UpdateRuns.DownloadAll | src/MEGAUpdater/UpdateTask.cpp:488-523 | The download loop changes the update folder only, ends successfully only with every file verified there, and never disturbs a file fetched before |
| UpdateRuns.DownloadOutcome | src/MEGAUpdater/UpdateTask.cpp:488-523 | Fetching one file, reply by reply: an outdated file is removed even if no other can be fetched, and a file counts as fetched only if the download worked and its signature is accepted |
| UpdateRuns.RemovalOutcome | src/MEGAUpdater/UpdateTask.cpp:473-488 | Removing a folder, reply by reply; an incomplete removal leaves what it could not remove, and nothing else is touched |
| UpdateRuns.PendingIs | src/MEGAUpdater/UpdateTask.cpp:805-831 | The files kept for installation are exactly those not installed with an accepted signature |
| UpdateRuns.PendingDistinct | src/MEGAUpdater/UpdateTask.cpp:805-815 | They have distinct places, all listed in the manifest |
| UpdateKills.KilledRunIsPrefix | src/MEGAUpdater/UpdateTask.cpp:392-544 | A run killed at its k-th call, anywhere inside a file's steps, ends with the disk that this call meets in the undisturbed run; killed later, it is that run |
| UpdateKills.InstallFileCut | src/MEGAUpdater/UpdateTask.cpp:875-906 | The same inside one round of the swap |
| UpdateKills.MoveOutCut | src/MEGAUpdater/UpdateTask.cpp:93-112 | The same inside a move across file systems |
| UpdateKills.RollbackCut | src/MEGAUpdater/UpdateTask.cpp:955-966 | The same inside a rollback |
| UpdateKills.InstallsFirstFile | src/MEGAUpdater/UpdateTask.cpp:873-919 | A process that dies after one file has installed the first one |
| UpdateKills.RollsBackLastFile | src/MEGAUpdater/UpdateTask.cpp:955-966 | One that dies after rolling back one file has rolled back the last one |
| UpdateDisk.Platforms | src/MEGAUpdater/Preferences.h:36-45 | The application binary, the kind of rename, and the folding of keys and names on each platform |
| UpdatePlaces.SwapInstallsIff | src/MEGAUpdater/UpdateTask.cpp:883-905 | At the real places, with update and backup folder side by side, an unrefused swap installs the new content iff the path stays inside its folder; otherwise the old file is moved over the download and back, and the round succeeds where a rename replaces its target |
| UpdatePlaces.SiblingPlacesApartIff | src/MEGAUpdater/UpdateTask.cpp:366-367 | Two folders side by side have different places for a path iff the path stays inside |
| UpdatePlaces.RenameShows | src/MEGAUpdater/UpdateTask.cpp:883-905 | For paths that stay inside, a rename between places does to the file system what it does to the maps of the model |
| UpdatePlaces.InsidePlace | src/MEGAUpdater/UpdateTask.cpp:875-899 | Such a path leads to its normal components below the folder |
| UpdatePlaces.ClimbingPathsMeet | src/MEGAUpdater/UpdateTask.cpp:366-367 | For "../a" the update and backup folders have one place |
| UpdatePlaces.LowerCasePlace | src/MEGAUpdater/UpdateTask.cpp:69-83 | In lower case, folder and path lead to the place in lower case, and a file's name there is the normal form of its path |
| UpdatePlaces.CaseVariants | src/MEGAUpdater/UpdateTask.cpp:69-83 | "A" and "a" are one file iff the volume ignores case |
| UpdatePlaces.CaseVariantRolledBack | src/MEGAUpdater/UpdateTask.cpp:955-966 | Refused the first folder for the path "a", a rollback restores the old file "A" iff the volume does not ignore case |
| UpdateTransaction.RollbackExact | src/MEGAUpdater/UpdateTask.cpp:873-966 | After a stop at any file and stage and an unrefused rollback, both folders are exactly restored iff no backup was stale and, for a stop before the old file was saved, a replacing rename found equal contents |
| UpdateTransaction.RollbackFromCleanBackup | src/MEGAUpdater/UpdateTask.cpp:873-966 | From an empty backup folder: restored iff not (replacing rename, early stop, old file present) |
| UpdateTransaction.RollbackLosesUnsavedFile | src/MEGAUpdater/UpdateTask.cpp:883-888 | One refused rename into the backup folder, on macOS, ends with the file gone from the application folder |
| UpdateTransaction.FileRestored | src/MEGAUpdater/UpdateTask.cpp:955-966 | The same for each file up to the stop: the exact condition under which its two copies are restored |
| UpdateTransaction.OthersKept | src/MEGAUpdater/UpdateTask.cpp:955-966 | Restoring the files up to the stop restores the folders: nothing else has changed |
| UpdateTransaction.InstallSlots | src/MEGAUpdater/UpdateTask.cpp:873-919 | Where the loop stops: files in front are installed and saved, the one at the stop is untouched or saved, those behind are untouched |
| UpdateTransaction.InstallSlot | src/MEGAUpdater/UpdateTask.cpp:875-906 | One round swaps one path only and tells its stages apart |
| UpdateTransaction.RollbackSlots | src/MEGAUpdater/UpdateTask.cpp:955-966 | A rollback touches only the files up to the stop, and without refusals moves each of them back |
| UpdateTransaction.RenameSlot | src/MEGAUpdater/UpdateTask.cpp:204-216 | A rename moves one path, fails without effect when refused, reports a missing source apart, and replaces a target only on POSIX |
| UpdateSweep.NothingIsLost | src/MEGAUpdater/UpdateTask.cpp:862-1064 | Conservation in one transaction with all its failures, rollback and sweep, under the condition of `RunConservesIff`; once applied, without the update folder |
| UpdateSweep.SweepConservesIff | src/MEGAUpdater/UpdateTask.cpp:1018-1074 | An armed sweep keeps every file under all replies and visiting orders iff no two obsolete files have one normal form |
| UpdateSweep.CollidingNamesLose | src/MEGAUpdater/UpdateTask.cpp:1033-1047 | For any two such files, replies under which one of them is lost |
| UpdateSweep.SweepExact | src/MEGAUpdater/UpdateTask.cpp:972-1081 | Without failures a file stays iff its key is a manifest key; all obsolete files are in the backup folder under their normal form iff files sharing one have equal contents; an unarmed sweep changes nothing |
| UpdateSweep.SweepArmedIff | src/MEGAUpdater/UpdateTask.cpp:994-1003 | The sweep is armed iff the folder held the application binary before the run and the manifest lists a file with its key |
| UpdateSweep.NoSweep | src/MEGAUpdater/UpdateTask.cpp:979-1003 | Otherwise the sweep leaves the state of the run as it is, its number of calls included |
| UpdateSweep.SweepEntryOutcome | src/MEGAUpdater/UpdateTask.cpp:1018-1064 | One visit changes the disk only for a file whose status can be read, whose key is not expected and whose backup folder can be made |
| UpdateSweep.MoveOutOutcome | src/MEGAUpdater/UpdateTask.cpp:93-113 | Reply by reply: a file is gone from the application folder once it was renamed, or copied and removed, and is in the backup folder then; copied but not removed it is in both |
| UpdateAnchor.StrangersStay | src/MEGAUpdater/UpdateTask.cpp:392-402 | If the application binary was not there before a run, or the manifest does not list it, every file whose key the manifest does not list keeps its content under all replies |
| UpdateAnchor.StrangersSwept | src/MEGAUpdater/UpdateTask.cpp:985-1064 | If it was there and is listed, a healthy run moves every such file into the backup folder |
| UpdateAnchor.SecondUpdateSweeps | src/MEGAUpdater/UpdateTask.cpp:985-1003 | A folder that was no installation keeps its files in the first update, which installs the binary, and loses them to the backup folder in the second |
| UpdateSweep.SweepSpares | src/MEGAUpdater/UpdateTask.cpp:1036-1064 | Whatever fails, no expected file, no saved file, nothing in the update folder and no version is touched: a swept file never overwrites a saved one |
| UpdateSweep.SweepProgress | src/MEGAUpdater/UpdateTask.cpp:1020-1074 | After any part of a healthy sweep exactly the obsolete files visited are gone, each in the backup folder unless a later one took its place |
| UpdateSweep.CleanupHolds | src/MEGAUpdater/UpdateTask.cpp:972-1081 | A sweep of names that stay apart keeps every file, whatever fails |
| UpdateSweep.BackslashNamesCollide | src/MEGAUpdater/UpdateTask.cpp:1033-1047 | A flawless sweep of different files "a\b" and "a/b" keeps only one |
| UpdateSweep.PlainNamesApart | src/MEGAUpdater/UpdateTask.cpp:1033-1034 | File names without a backslash are normal and stay apart |
| UpdateSweep.RollbackHolds | src/MEGAUpdater/UpdateTask.cpp:955-966 | A saved or untouched old file is still in one of the folders after a rollback with any failures |
| UpdateSweep.InstallHolds | src/MEGAUpdater/UpdateTask.cpp:873-919 | After the installs every old file is untouched or saved under its own path |
| UpdateTask.UpdateTask.CheckForUpdates | src/MEGAUpdater/UpdateTask.cpp:392-544 | The whole run, over fields and an open file, is the run function on the disk |
| UpdateTask.UpdateTask.ProcessUpdateFile | src/MEGAUpdater/UpdateTask.cpp:735-834 | It goes on exactly for a well-formed manifest with an accepted signature, a newer number and pending files; the vectors then hold exactly the pending files and the manifest paths |
| UpdateTask.UpdateTask.ReadEntries | src/MEGAUpdater/UpdateTask.cpp:776-816 | The entry loop reads what the format says, hashes the stream that was signed, and keeps what is pending |
| UpdateTask.UpdateTask.DownloadFiles | src/MEGAUpdater/UpdateTask.cpp:488-523 | The download loop is the recursive specification from the first file on |
| UpdateTask.UpdateTask.PerformUpdate | src/MEGAUpdater/UpdateTask.cpp:862-953 | The swap loop with its rollback and sweep is the transaction specification |
| UpdateTask.UpdateTask.RollbackUpdate | src/MEGAUpdater/UpdateTask.cpp:955-966 | The backward loop is the rollback specification |
| UpdateTask.UpdateTask.CleanupObsoleteFiles | src/MEGAUpdater/UpdateTask.cpp:972-1081 | The guarded sweep loop is the sweep specification |
| UpdateTask.UpdateTask.CollectExpectedPaths | src/MEGAUpdater/UpdateTask.cpp:981-985 | The expected set is the set of the keys of all manifest paths |
| GeneratedUpdate.GeneratedUpdateInstalls | src/MEGAUpdateGenerator/MEGAUpdateGenerator.cpp:345-502 | End to end: what the generator prints takes any older installation, after any broken or killed runs and one healthy run, to files with the digests of the generator's files at their target paths |
| GeneratedUpdate.PublishedManifest | src/MEGAUpdateGenerator/MEGAUpdateGenerator.cpp:492-500 | A printed manifest with a canonical version is read back whole, accepted, and served by a server that has the signed files |
| GeneratedUpdate.InstalledFile | src/MEGAUpdater/UpdateTask.cpp:1272-1322 | An installed manifest file has the digest of the file that was signed |
| UpdateGenerator.ManifestReadBack | src/MEGAUpdateGenerator/MEGAUpdateGenerator.cpp:492-500 | The updater reads back the version number, URLs, targets and signatures that were printed |
| UpdateGenerator.ManifestAcceptedIff | src/MEGAUpdateGenerator/MEGAUpdateGenerator.cpp:415-493 | The updater accepts the printed manifest iff the stream with the printed number has the digest of the stream with the version text |
| UpdateGenerator.CanonicalManifestAccepted | src/MEGAUpdateGenerator/MEGAUpdateGenerator.cpp:415-500 | For a canonical version text printing, reading and checking succeed |
| UpdateGenerator.FileAcceptedIff | src/MEGAUpdateGenerator/MEGAUpdateGenerator.cpp:443-461 | A printed file signature is accepted for a file iff that file has the digest of the signed one |
| UpdateGenerator.PaddedVersionSignsAnotherStream | src/MEGAUpdateGenerator/MEGAUpdateGenerator.cpp:415-422 | The text "07" is signed as two bytes and printed as one |
| UpdateGenerator.Generate | src/MEGAUpdateGenerator/MEGAUpdateGenerator.cpp:414-502 | It prints iff the version is a number other than 0, all files are readable with the announced hashes and the raw signature fits; what it prints is the signed manifest; otherwise the code tells which of these failed first |
| UpdateGenerator.SignFiles | src/MEGAUpdateGenerator/MEGAUpdateGenerator.cpp:424-462 | The loop signs every file and hashes the same stream that the updater hashes |
| UpdateGenerator.SignAndPrint | src/MEGAUpdateGenerator/MEGAUpdateGenerator.cpp:464-500 | The printed text is that of the manifest signed over the hashed stream; nothing is printed if the raw signature is empty |
| UpdateGenerator.ReadContents | src/MEGAUpdateGenerator/MEGAUpdateGenerator.cpp:345-392 | The line loop fills the vectors as the line specification says |
| UpdateGenerator.HashesAligned | src/MEGAUpdateGenerator/MEGAUpdateGenerator.cpp:351-376 | There are as many hashes as files iff every entry line names its target |
| UpdateGenerator.ContentsLineRead | src/MEGAUpdateGenerator/MEGAUpdateGenerator.cpp:347-375 | A line "file;target;hash" is read into these three fields, with or without a carriage return |
| UpdateGenerator.ListReadBack | src/MEGAUpdateGenerator/MEGAUpdateGenerator.cpp:340-396 | A list of version, base-URL, file and comment lines in any order, with or without carriage returns, is read back to exactly its last version and base URL and its files, targets and hashes, with "UNKNOWN" where a target stands alone and no hash where a file does |
| Manifest.ParsePrint | src/MEGAUpdater/UpdateTask.cpp:735-816 | Reading a printed manifest gives it back, for non-empty fields of at most 4094 characters without newline and NUL |
| Manifest.ParseLines | src/MEGAUpdater/UpdateTask.cpp:747-815 | A text of whole lines, up to an empty line, is a manifest iff there are two lines and then threes; it has version, signature, and URL, path and signature of each entry in this order |
| Manifest.PrintedLines | src/MEGAUpdateGenerator/MEGAUpdateGenerator.cpp:492-500 | A manifest is printed as these lines |
| Manifest.FieldSurvivesIff | src/MEGAUpdater/UpdateTask.cpp:1324-1340 | A text survives as a line iff it has at most 4094 characters and no newline or NUL |
| Manifest.NulHidesRest | src/MEGAUpdater/UpdateTask.cpp:1324-1340 | What follows a NUL on a line is lost, but not the lines after it |
| Manifest.NextLineOfField | src/MEGAUpdater/UpdateTask.cpp:1324-1334 | Such a field survives the fixed line buffer, and the rest of the text follows it |
| Manifest.SignedStreamSnoc | src/MEGAUpdater/UpdateTask.cpp:801-803 | Feeding url, path and signature of an entry extends the signed stream by that entry |
| Manifest.TextFile.ReadNextLine | src/MEGAUpdater/UpdateTask.cpp:1324-1334 | The line cut from the buffer, and what is left unread |
| VersionNumber.ParsePrinted | src/MEGAUpdater/UpdateTask.cpp:761 | Reading a printed number gives it back |
| VersionNumber.NumberRead | src/MEGAUpdater/UpdateTask.cpp:761 | White space, a sign and digits are read as the number with these decimal digits, whatever follows; without a digit the number is 0 |
| VersionNumber.NoLeadingZero | src/MEGAUpdateGenerator/MEGAUpdateGenerator.cpp:493 | Numbers are printed without leading zeros, negative ones with a sign |
| ManifestPath.NormalizedManifestPath | src/MEGAUpdater/UpdateTask.cpp:55-67 | Replacing, lexical normalisation by ISO C++17 [fs.path.generic] paragraph 6, the stripping loop and the dot case give the normal form |
| ManifestPath.ManifestPathKey | src/MEGAUpdater/UpdateTask.cpp:69-82 | The key is the normal form, lower-cased where the platform folds case |
| ManifestPath.KeepsLocationIff | src/MEGAUpdater/UpdateTask.cpp:55-67 | Normalising keeps where a path leads from every directory iff the path does not both start with a separator and climb out |
| ManifestPath.SameLocationIffSameNames | src/MEGAUpdater/UpdateTask.cpp:55-67 | Relative paths have the same normal components iff they lead to the same place from every directory |
| ManifestPath.RootedEscapeMoves | src/MEGAUpdater/UpdateTask.cpp:59-64 | "/../a" leads out of the application folder, its normal form into it |
| ManifestPath.NormIdempotent | src/MEGAUpdater/UpdateTask.cpp:55-67 | Normalising twice is normalising once |
| ManifestPath.BackslashSpelling | src/MEGAUpdater/UpdateTask.cpp:57 | Both spellings of separators have one normal form |
| ManifestPath.NormLower | src/MEGAUpdater/UpdateTask.cpp:69-82 | Folding case and normalising commute |
| ManifestPath.KeyStable | src/MEGAUpdater/UpdateTask.cpp:69-82 | The key of a key, and of a normalised path, is the key |
| ManifestPath.FoldedKey | src/MEGAUpdater/UpdateTask.cpp:69-83 | A folded key is the normal form with each capital letter of the alphabet replaced by the small letter at its place, and nothing else changed |
| ManifestPath.SameKeyIff | src/MEGAUpdater/UpdateTask.cpp:69-83 | Two folded keys are equal iff the normal forms differ in nothing but the case of letters |
| ManifestPath.FilePathNormalIff | src/MEGAUpdater/UpdateTask.cpp:1033-1034 | The path of a file below the application folder is its own normal form iff it holds no backslash |
| ManifestPath.DirectoryPathNormal | src/MEGAUpdater/UpdateTask.cpp:55-67 | A separator, a dot or a name that is left again at the end of a path keeps one separator there; one in front is dropped |
| Base64.Atob | src/MEGAUpdater/UpdateTask.cpp:1707-1748 | Writes the decoded bytes up to the limit and nothing else, and reads no further than the first character outside the alphabet |
| Base64.Btoa | src/MEGAUpdater/UpdateTask.cpp:1758-1793 | Writes the encoding and a NUL and nothing else |
| Base64.DecodeEncode | src/MEGAUpdater/UpdateTask.cpp:1707-1793 | Decoding an encoding gives the bytes back, whatever follows its terminator |
| Base64.EncodedFirst | src/MEGAUpdater/UpdateTask.cpp:1707-1748 | Decoding an encoding with anything behind it gives the bytes back first |
| Base64.EncodeDecodeIff | src/MEGAUpdater/UpdateTask.cpp:1707-1793 | Encoding a decoding gives the text back iff the text is canonical: URL-safe alphabet, no left-over sextet, unused bits zero |
| Base64.BuffersSuffice | src/MEGAUpdater/UpdateTask.cpp:1699-1756 | The sizes that callers allocate hold every result |
| Base64.DecodeAt | src/MEGAUpdater/UpdateTask.cpp:1715-1745 | What each group of four characters contributes, short groups included |
| Base64.SextetsAt | src/MEGAUpdater/UpdateTask.cpp:1762-1788 | What each group of three bytes contributes, short groups included |
| Base64.LetterOfSextet | src/MEGAUpdater/UpdateTask.cpp:1641-1697 | Sextets are the letters of the spelled-out alphabet, in order; the decoder also takes '+' and '/' and nothing else |
| Base64.GroupNumber | src/MEGAUpdater/UpdateTask.cpp:1762-1788 | Three bytes and their four sextets are digits of one number |
| Base64.BytesNumber | src/MEGAUpdater/UpdateTask.cpp:1715-1745 | The same for the decoder |
| Signature.SignatureChecker.CheckSignature | src/MEGAUpdater/UpdateTask.cpp:1595-1639 | Accepts iff the first 512 decoded bytes, to the power of the key, give a non-zero number equal to the digest; a text that is too short leaves the hash running |
| Signature.PowerIsDigest | src/MEGAUpdater/UpdateTask.cpp:1612-1638 | Bytewise comparison after left-padding is equality of numbers, zero excluded |
| Signature.WriteOctets | src/MEGAUpdater/UpdateTask.cpp:1608-1623 | The byte loop writes the number big-endian |
| Signature.SignedTextAccepted | src/MEGAUpdater/UpdateTask.cpp:1595-1639 | A padded and printed signature, whatever follows it on its line, is accepted for a digest iff it is the one signed, and not zero |
| Signature.PadInPlace | src/MEGAUpdateGenerator/MEGAUpdateGenerator.cpp:138-154 | The shift from the highest index down gives zeros followed by the original bytes, with the same big-endian value |
| Signature.SignFile | src/MEGAUpdateGenerator/MEGAUpdateGenerator.cpp:116-156 | Hashing in chunks and padding gives the full-width signature of the whole content |
| Signature.HashSignature.Get | src/MEGAUpdateGenerator/MEGAUpdateGenerator.cpp:71-78 | Signs all that was fed and starts afresh |
| Signature.HashSignature.CheckSignature | src/MEGAUpdateGenerator/MEGAUpdateGenerator.cpp:80-102 | Accepts iff the power of the signature is not zero and equals the digest of what was fed |
| Signature.SignatureValue | src/MEGAUpdateGenerator/MEGAUpdateGenerator.cpp:138-154 | The padded signature is 512 bytes wide and denotes the signed number |
| Signature.SignatureAcceptedIff | src/MEGAUpdateGenerator/MEGAUpdateGenerator.cpp:138-155 | What `signFile` writes is accepted for a digest iff the raw operation wrote something and that digest, not zero, is the number it signed; a masked failure never is. Only the inverse law at this digest is needed, and that zero stays zero |
| InstallFolders.InstallFolder.RemoveEmptyInstallFolders | src/MEGAUpdater/UpdateTask.cpp:1083-1130 | Exactly the folders with a file below them, or an unremovable folder at or below them, are left, for every tree, visiting order and tie-break of the sort |
| InstallFolders.InstallFolder.CollectFolders | src/MEGAUpdater/UpdateTask.cpp:1099-1116 | The collected folders are the directories visited |
| InstallFolders.LongerBelow | src/MEGAUpdater/UpdateTask.cpp:1118-1123 | A path below another is longer, so the sort visits it first |
| InstallFolders.LeavingIsChildless | src/MEGAUpdater/UpdateTask.cpp:1125-1129 | A folder that need not stay is empty by the time it is visited |
| InstallFolders.StayingHasChild | src/MEGAUpdater/UpdateTask.cpp:1125-1129 | A folder that has to stay is never empty |
| EmptyDirectory.FileSystem.EmptyDirLocal | src/MEGAUpdater/UpdateTask.cpp:1466-1536 | Ends on every tree, restores the shared name, and leaves exactly the entries at or above something that cannot go: refused, on another device, or below an unreadable directory; links are not followed |
| EmptyDirectory.FileSystem.HealthyEmptying | src/MEGAUpdater/UpdateTask.cpp:1466-1536 | Without failures exactly the directories of other devices, what is below them and what is above them are left |
| EmptyDirectory.FileSystem.Pass | src/MEGAUpdater/UpdateTask.cpp:1497-1524 | A pass in any order settles every child, and one that removed something has shrunk the tree |
| EmptyDirectory.FileSystem.RemoveChild | src/MEGAUpdater/UpdateTask.cpp:1505-1522 | One entry of a pass: the name is extended, used and restored, and the entry is settled |
| RegistryKeys.Registry.RegDelNodeRecurse | src/MEGAShellExt/RegUtils.cpp:230-309 | Ends on every tree; succeeds iff every key of the subtree may be deleted and every inner one opened; then exactly the subtree is gone; otherwise nothing outside it is and the key remains; the buffer names the same key, without its trailing backslash if it was opened |
| RegistryKeys.Registry.DeleteChildren | src/MEGAShellExt/RegUtils.cpp:272-294 | The loop that always takes the first subkey empties the key or stops at a subkey that cannot be deleted, and leaves the path in front of it intact |
| RegistryKeys.Registry.DeleteChild | src/MEGAShellExt/RegUtils.cpp:282-286 | A subkey's name appended in place names that subkey, and the descent keeps the caller's part of the buffer |
| RegistryKeys.Registry.NodeDeleted | src/MEGAShellExt/RegUtils.cpp:296-308 | The second attempt decides the outcome for the whole subtree |
| RegistryKeys.Registry.ChildDeleted | src/MEGAShellExt/RegUtils.cpp:280-293 | Each deleted subkey leaves the others untouched; one that fails makes the whole subtree undeletable |
| RegistryKeys.Registry.ChildFits | src/MEGAShellExt/RegUtils.cpp:261-282 | If every path that is written below a key fits the buffer, with a backslash for the keys that are opened, so it does in every descent |
| RegistryKeys.Registry.DeleteRegKey | src/MEGAShellExt/RegUtils.cpp:54-95 | The variant with a buffer of its own at every level: it deletes exactly the subtree iff rights allow it and every path of the subtree fits 260 characters, every inner one with its backslash; otherwise nothing outside the subtree is gone and the key remains |
| RegistryKeys.Registry.DeleteSubkeys | src/MEGAShellExt/RegUtils.cpp:87-91 | Its enumeration loop empties the key or stops at a subkey that cannot be deleted or enumerated |
| RegistryKeys.Registry.DeleteSubkey | src/MEGAShellExt/RegUtils.cpp:89-91 | A name that does not fit behind the path is as good as undeletable; any other is descended into |
| RegistryKeys.Registry.ReachedFromChild | src/MEGAShellExt/RegUtils.cpp:72-91 | Rights and path lengths below a subkey are the same seen from the subkey |
| RegistryKeys.KeyOfWithoutSlash | src/MEGAShellExt/RegUtils.cpp:263-297 | Adding and cutting the backslash leaves the key named |
| RegistryKeys.Registry.ReachedInCharacters | src/MEGAShellExt/RegUtils.cpp:54-95 | A key below the given path can be deleted only if its text, written from that path, fits 260 characters with a NUL, and emptied only with room for a backslash too |
| RegistryKeys.Registry.TextNames | src/MEGAShellExt/RegUtils.cpp:54-95 | That text names the key |
| TransferQuota.TransferQuota.UpdateQuotaState | src/MEGASync/TransferQuota.cpp:47-105 | The mutual recursion ends at depth two at most, announces a change once, alerts only for the state it leaves, and leaves the result of a single evaluation at its first reading |
| TransferQuota.TransferQuota.CheckExecuteAlerts | src/MEGASync/TransferQuota.cpp:184-205 | All its evaluations amount to one; with alerts enabled it alerts iff the state left is over-quota or warning |
| TransferQuota.TransferQuota.IsOverQuota | src/MEGASync/TransferQuota.cpp:29-33 | Answers for the state re-evaluated |
| TransferQuota.TransferQuota.IsQuotaWarning | src/MEGASync/TransferQuota.cpp:35-39 | Answers for the state re-evaluated |
| TransferQuota.TransferQuota.SetOverQuota | src/MEGASync/TransferQuota.cpp:21-27 | Enters over-quota and evaluates once if alerts are enabled, which may leave it at once |
| TransferQuota.OverQuotaOnlyBySetting | src/MEGASync/TransferQuota.cpp:21-105 | Over every run: over quota at the end iff some call set it and every evaluation since, at its own reading and figures, upheld it |
| TransferQuota.EvaluateFixed | src/MEGASync/TransferQuota.cpp:47-105 | An evaluation is a fixed point, and outside over-quota at all later readings |
| TransferQuota.EvaluationInFigures | src/MEGASync/TransferQuota.cpp:47-88 | A limited account is OK below 90 per cent, warned from there on, and full from 100 per cent, or over quota while the waiting time lasts; an unlimited one changes only when that is over |
| TransferQuota.EvaluateLowersRank | src/MEGASync/TransferQuota.cpp:91-103 | Every change of state uses up what bounds the recursion |
| TransferQuota.StandingState | src/MEGASync/TransferQuota.cpp:54-79 | A setting that was upheld stands with its own deadline |
| RestartProtocol.ReachableInv | src/MEGASync/MegaApplication.cpp:2199-2293 | In every reachable state a postponed restart has a way out: the timer with at most the maximal delay, a dialog that re-arms it, or a queued exit |
| RestartProtocol.StepKeepsInv | src/MEGASync/MegaApplication.cpp:2199-2293 | Every event keeps that invariant, also with several dialogs open |
| RestartProtocol.RestartWithinMaximalDelay | src/MEGASync/MegaApplication.cpp:2206-2219 | Ten minutes after a postponement an exit is queued or carried out, unless the user opened or answered an exit dialog |
| RestartProtocol.WaitIsBounded | src/MEGASync/MegaApplication.cpp:2212-2217 | No other event pushes the timer back |
| RestartProtocol.RelaunchIffRestartLast | src/MEGASync/MegaApplication.cpp:2777-2801 | The exit relaunches iff the last call before it was a restart: after an exit only a later restart brings the application back |
| RestartProtocol.QuitForcedIff | src/MEGASync/MegaApplication.cpp:2199-2293 | Whatever happens under an open exit dialog, exits and answers aside, a restart is queued iff no update had been postponed before and one is postponed for the maximal delay while it is open, or a restart is asked for that need not wait, or the transfers end after one was asked for, be it before the dialog |
| RestartProtocol.PostponedUnderDialog | src/MEGASync/MegaApplication.cpp:2206-2219 | An update first postponed under the dialog restarts the application under it |
| RestartProtocol.ExitRelaunchedIff | src/MEGASync/MegaApplication.cpp:3493-3510 | Once the user's exit is queued, the application is relaunched iff a restart is asked for anew |
| RestartProtocol.AnsweredExit | src/MEGASync/MegaApplication.cpp:2271-2276 | "Exit app" in any open dialog queues an exit, disarms the timer and decides for quitting |
| RestartProtocol.AnsweredStay | src/MEGASync/MegaApplication.cpp:2277-2284 | "Stay in app" queues and decides nothing; it arms the timer for ten minutes iff that dialog had disarmed it |
| RestartProtocol.StayingNeverExits | src/MEGASync/MegaApplication.cpp:2230-2291 | However often the user asks to quit and then stays, no exit is queued and the application never finishes, unless an exit or a restart is asked for |
| RestartProtocol.FinishedIgnores | src/MEGASync/MegaApplication.cpp:2199-2235 | A finished application ignores further wishes to restart or quit |
| RestartProtocol.Lifetime | src/MEGASync/MegaApplication.cpp:2199-2293 | The object, from its start through all events delivered, is the run of the state machine and satisfies its invariant |
| RestartProtocol.FinishedIsFinal | src/MEGASync/MegaApplication.cpp:2666-2672 | A finished application stays as decided |
| NetworkChanges.DetectionExact | src/MEGASync/MegaApplication.cpp:3148-3225 | Between lists of one size the one-sided checks find a change iff the lists differ up to order |
| NetworkChanges.AddressesExact | src/MEGASync/MegaApplication.cpp:3178-3225 | The same for the addresses of one interface |
| NetworkChanges.Exhaust | src/MEGASync/MegaApplication.cpp:3148-3156 | Pigeonhole: distinct members of a list no longer than it exhaust it |
| NetworkChanges.NetworkMonitor.CheckNetworkInterfaces | src/MEGASync/MegaApplication.cpp:2309-2348 | Reconnects iff connectivity came back, a known list changed or idling took too long; after a poll with a result the remembered list agrees with it |
| NetworkChanges.CheckAllInterfaces | src/MEGASync/MegaApplication.cpp:3148-3156 | Some new interface differs |
| NetworkChanges.CheckNetworkInterface | src/MEGASync/MegaApplication.cpp:3158-3176 | The interface is unknown by name or differs in its addresses |
| NetworkChanges.CheckNetworkAddresses | src/MEGASync/MegaApplication.cpp:3178-3195 | Another number of addresses, or a new one |
| NetworkChanges.CheckIpAddress | src/MEGASync/MegaApplication.cpp:3197-3225 | An IPv4 or IPv6 address not known before |
| UrlCache.CacheRefinesHistory | src/MEGASync/MegaApplication.cpp:4077-4113 | For every run of calls the pruned cache accepts a URL iff an unpruned history of acceptances would: its last acceptance is more than five seconds old |
| UrlCache.CacheRemembers | src/MEGASync/MegaApplication.cpp:4087-4109 | What the cache forgets is too old or followed by a later acceptance, and it holds nothing but acceptances |
| UrlCache.EntriesAreRecent | src/MEGASync/MegaApplication.cpp:4087-4098 | After a call no entry is more than five seconds old at the call's start |
| UrlCache.UrlHandler.HandleMEGAurl | src/MEGASync/MegaApplication.cpp:4077-4113 | Pruning entry by entry, in any order and each at its own clock reading, then dropping or storing the URL |
| ScaleFactors.AdjustScaleValueToSuitableIncrement | src/MEGASync/ScaleFactorManager.cpp:305-320 | The step-down loop ends at the largest admissible quarter not above the rounded one |
| ScaleFactors.AdjustClose | src/MEGASync/ScaleFactorManager.cpp:305-320 | The result respects the maximum, is a quarter step, and is less than a quarter away from the clamped input |
| ScaleFactors.AdjustNearest | src/MEGASync/ScaleFactorManager.cpp:305-320 | No admissible quarter is nearer to the clamped input |
| ScaleFactors.AdjustIdempotent | src/MEGASync/ScaleFactorManager.cpp:305-320 | Adjusting twice is adjusting once |
| ScaleFactors.AdjustMonotone | src/MEGASync/ScaleFactorManager.cpp:305-320 | A larger scale is never adjusted to a smaller one |
| ScaleFactors.ScaleFactorManager.ComputeScales | src/MEGASync/ScaleFactorManager.cpp:335-364 | Appends one scale per screen and asks for rescaling iff some screen gets another scale than it has |
| ScaleFactors.ScaleInRange | src/MEGASync/ScaleFactorManager.cpp:335-392 | Without high-dpi support a scale lies between 1 and the larger of 1 and the maximum; with it, the scale respects the maximum |
| ScaleFactors.LinuxScale | src/MEGASync/ScaleFactorManager.cpp:367-393 | On Linux the wanted scale is the resolution over 96, or three quarters of the smaller ratio to 1920 by 1080, between 1 and 3, and 1 with high-dpi support |
| ScaleFactors.LinuxScreenScale | src/MEGASync/ScaleFactorManager.cpp:336-365 | It is taken as it is if it is a quarter that fits the screen, with one screen or several |
| ScaleFactors.SingleScreenScale | src/MEGASync/ScaleFactorManager.cpp:336-365 | Elsewhere a single screen keeps scale 1, or is scaled down to fit a dialog of 810 lines |
| ScaleFactors.ManyScreensScale | src/MEGASync/ScaleFactorManager.cpp:336-365 | Elsewhere each of several screens keeps a pixel ratio that is a quarter and fits |
| ScaleFactors.AdjustHalfway | src/MEGASync/ScaleFactorManager.cpp:305-321 | Half-way between two quarters the larger one is taken |

## Left out

- Rename: on a volume that ignores case, which spelling of a name a file keeps is not recorded.
- CheckForUpdates: does not model symlink recreation, the symlinks file, the random URL suffix, URL routing, permissions, or the empty-folder-name guard.
- CleanupObsolete: the pruning of empty folders at its end is modelled apart, in `InstallFolders`, because the transaction tracks files, not folders.
- RemoveFolder: is one step that may keep any part of the folder; how a directory is emptied is modelled apart, in `EmptyDirectory`.
- DownloadTo: a download leaves what the server has or arbitrary content; the transfer itself and its user agent are not modelled.
- Norm: Windows drive and root names in paths, and characters outside the C locale's lower-casing, are not modelled.
- ParseInt: does not model the overflow of 32-bit and long integers.
- PartPer: divides exactly and does not model the conversion to a 32-bit integer.
- SignatureChecker: the decoding of its key from Base64 is not modelled; hashing and exponentiation are uninterpreted.
- Generate: does not model the comparison of the public key with its announced hash, reading the key file, or the exception for misaligned hashes, which its precondition excludes.
- EmptyDirLocal: the Windows variant, and file systems that report entries without a type or change while a pass runs, are not modelled.
- RegDelNodeRecurse: does not model letter case, failing enumerations, or a path that overruns the caller's buffer, which its precondition excludes.
- TransferQuota: the time stamps that silence repeated alerts, the dialogs, and `isQuotaFull` are not modelled.
- RestartProtocol: the coarse timer's tolerance, menus, tray icon and the rest of the application's shutdown are not modelled.
- CheckNetworkInterfaces: which interfaces count as active is not modelled; neither is the early return of a finished application.
- HandleMEGAurl: its early return in a finished application and its lock are not modelled.
- ComputeScales: floating-point rounding, environment variables and screen probing are not modelled.
- Key generation, shell extensions, design tokens, folder transfers and user alerts have no hard property of their own.
