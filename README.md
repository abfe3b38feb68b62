# webdav-backup: the synchronisation core, modelled in Dafny

webdav-backup copies a directory tree from a WebDAV server into a local
target directory. `backupDir` walks the remote tree depth first. For each
directory it:

1. counts the directory;
2. in mirror mode only, deletes the local entries whose names the remote
   listing lacks (`LocalSyncDirFile`);
3. scans the listing: it counts every file, and deletes and queues every
   file whose local copy `checkNeedToCopy` finds stale (missing, of another
   size, or with another mtime in whole seconds). Every other file is
   skipped, and every directory is queued;
4. copies the queued files (`LocalCopyFile`, which creates the directory
   first with `LocalCreateDir` and stamps each copy with the remote mtime);
5. descends into the queued directories in listing order.

`formatDuration` prints the elapsed time of a run, rounded to the second, as
hours, minutes and seconds.

The model has these parts:

- **Host file system** (module `LocalFs`). A map from paths to entries; a
  path is a sequence of name segments below the target root. Two host
  properties are parameters:
  - a set of refused paths: every operation on one fails with an error
    other than "does not exist", and os.RemoveAll cannot reach below a
    refused directory (a path below a file also fails to stat with such an
    error, ENOTDIR);
  - the clock value the host stamps on the files it writes.
- **Remote tree** (module `Remote`). An inductive datatype in which each
  listing either succeeds or fails. A file's read stream either cannot be
  opened, breaks after some bytes, or delivers all of them.
- **Pure parts** (modules `Compare` and `Duration`). These are functions.
- **Imperative parts** (module `WebdavBackup`, class `Backup`). The Go
  procedures are methods of one class, whose fields are the package
  variables:
  - the mode;
  - the three counters `scanDirCount`, `scanFileCount` and
    `realBackupFileCount`;
  - the local tree;
  - a journal of effects (`Event`s).

  Each method is proved to leave exactly the state that a state function
  gives:
  - the `After*` functions of `Walk`, `CopyStep` and `Reconcile` do this
    for a whole walk, a copy or a mirror pass;
  - the modules `WalkProperties`, `WalkOrder`, `WalkSafety` and
    `Idempotence` prove the program's properties about those functions.

The order in which `os.ReadDir` lists a local directory is left open. The
mirror pass is given by `Reconcile.Sweep`, a closed form that does not
depend on that order, and `Reconcile.SweepStep` proves that each deletion
call moves the pass one name further in any order.

## Model

| member | source | states |
|---|---|---|
| Compare.UnixSeconds | webdavBackup.go:311 | Time.Unix() is the whole second the time falls in, rounded down, also before 1970 |
| Compare.CheckNeedToCopy | webdavBackup.go:292-317 | copy exactly when stat says "does not exist", or when the file is found with a different size or a different mtime in Unix seconds; any other stat error never copies |
| Compare.SubSecondIgnored | webdavBackup.go:311 | two mtimes in the same whole second have equal Unix() values, so nanosecond differences never cause a copy |
| Compare.OneSecondEarlierIsStale | webdavBackup.go:306-314 | a local file of the right size stamped one second earlier than the remote file is copied |
| LocalFs.Stat | webdavBackup.go:293-304 | os.Stat: "does not exist" exactly for an absent path that the host does not refuse and that lies below no file; found exactly for a present one under the same two conditions, with its entry; a refused path or one below a file (ENOTDIR) gives another error |
| LocalFs.StatSame | webdavBackup.go:293 | os.Stat of a path depends only on that path and its ancestors |
| LocalFs.ChildrenIn | webdavBackup.go:189 | a name is among the children of dir exactly when dir + name is in the tree |
| LocalFs.Remove | webdavBackup.go:148 | os.Remove takes away exactly the path when it is a file or an empty directory that is not refused, and otherwise changes nothing |
| LocalFs.RemoveAll | webdavBackup.go:208 | os.RemoveAll takes away exactly the paths at or below p that hold nothing refused and lie below no refused directory from p down; what stays keeps its entry |
| LocalFs.RemoveAllStopsAtRefused | webdavBackup.go:208 | everything inside a refused directory at or below p survives os.RemoveAll(p), with its entry |
| LocalFs.MkdirAll | webdavBackup.go:227 | os.MkdirAll keeps every existing entry, creates only directories on the way to p, and on success leaves p a directory |
| LocalFs.OpenOk | webdavBackup.go:252 | os.OpenFile succeeds only where os.Stat of the path neither fails nor finds a directory (and the parent is a directory) |
| LocalFs.Open | webdavBackup.go:252 | os.OpenFile with O_CREATE and no O_TRUNC adds p if missing and otherwise leaves the tree as it was |
| LocalFs.Write | webdavBackup.go:263 | io.Copy of n bytes from offset 0: the file becomes the larger of its old size and n and keeps its type, its mtime becomes the clock once any byte is written, and every other path keeps its entry |
| LocalFs.Chtimes | webdavBackup.go:280 | os.Chtimes changes only the mtime of p |
| Remote.Entries | webdavBackup.go:122 | the listing error is dropped: a failed listing gives no entries |
| Remote.Names | webdavBackup.go:196-199 | the remoteFiles key set holds exactly the names of the listing |
| Remote.Dirs | webdavBackup.go:158-161 | every queued directory is a directory of the listing |
| Remote.DirsComplete | webdavBackup.go:158-161 | every directory of the listing is queued |
| Remote.Files | webdavBackup.go:141 | every file the scan handles is an entry of the listing that is not a directory |
| Remote.FilesComplete | webdavBackup.go:141 | every entry of the listing that is not a directory is handled as a file |
| Remote.DirCount | webdavBackup.go:119-120 | reference count for scanDirCount: the directories of a tree, the root included, so a failed listing counts one |
| Remote.FileCount | webdavBackup.go:141-142 | reference count for scanFileCount: the files of a tree, none below a failed listing |
| Remote.Preorder | webdavBackup.go:118-181 | reference visit order: one path per directory of the tree, the root first |
| Remote.PreorderIn | webdavBackup.go:179-181 | the subtrees of the first k entries hold as many directories as they contribute to the count |
| Reconcile.Sweep | webdavBackup.go:202-221 | a path survives the pass exactly when its child of dir is not doomed or the delete call for that child spares it (os.Remove spares a refused file; os.RemoveAll spares what holds or lies below a refused path); survivors keep their entries |
| Reconcile.Reconciled | webdavBackup.go:187-223 | the mirror pass only deletes; it changes nothing when the local directory cannot be read; it keeps everything outside dir and everything under a listed name, whatever its type |
| Reconcile.MirrorLeavesOnlyListed | webdavBackup.go:196-221 | after the pass every child of dir has a listed name unless the host refused its deletion; with nothing refused, exactly the listed children remain |
| Reconcile.SweepStep | webdavBackup.go:202-221 | one more doomed child, taken in any order, is deleted by RemoveAll for a directory and by Remove for a file, seeing its subtree as before the pass; a failed delete does not stop the loop |
| Reconcile.SweepNothing | webdavBackup.go:202-204 | with no doomed names the pass deletes nothing |
| CopyStep.AfterCreateDir | webdavBackup.go:225-232 | LocalCreateDir keeps every entry and adds only directories on the way to d |
| CopyStep.AfterCopyFile | webdavBackup.go:236-286 | LocalCopyFile keeps every path, changes none but the target file, adds only parent directories, and after a full copy leaves a file with the remote mtime and the larger of the old size and the bytes copied |
| CopyStep.CopyRefreshes | webdavBackup.go:279-284 | after a full copy of a stream of the remote size, checkNeedToCopy on the same remote metadata says no |
| CopyStep.MkdirAllSucceeds | webdavBackup.go:227 | MkdirAll succeeds when nothing on the way is refused or a file |
| CopyStep.CopySucceedsWhenPathFree | webdavBackup.go:243-284 | with a complete stream, nothing refused on the way and no directory at the target, the copy runs to its end |
| Walk.Restages | webdavBackup.go:146-153 | one deletion event per queued file |
| Walk.Fetches | webdavBackup.go:174-177 | one copy event per queued file |
| Walk.ScanEntry | webdavBackup.go:141-161 | one loop turn: a directory is queued for the descent; a file is counted, and it is queued exactly when checkNeedToCopy finds its local copy stale, in which case the local tree becomes os.Remove of its path; otherwise it is skipped with the tree unchanged |
| Walk.AfterScan | webdavBackup.go:137-162 | the scan queues the listing's directories in listing order, queues only files of the listing, and leaves scanDirCount alone |
| Walk.ScanQueuesStale | webdavBackup.go:141-157 | with distinct remote names, a file is queued (and so counted as a backup, by ScanAccounts) exactly when checkNeedToCopy on the tree before the scan says it is stale |
| Walk.ScanQueuesStaleStep | webdavBackup.go:141-157 | one more file, whose name is new, is queued exactly when it is stale in the tree before the scan, and the earlier ones keep their verdicts |
| Walk.ScanRemovesQueued | webdavBackup.go:146-153 | with distinct remote names, after the scan the path of every queued file is gone, unless os.Remove fails on it in the tree before the scan (refused, or a non-empty directory) |
| Walk.RemoveBeforeScan | webdavBackup.go:148 | at a file's turn, its path and whether os.Remove succeeds on it are as before the scan |
| Walk.RemoveStep | webdavBackup.go:146-153 | one more turn keeps the deletion facts of the earlier queued files and adds that of the file it queues |
| Walk.ScanFrame | webdavBackup.go:146-153 | the scan adds no path, and every path but those of the queued files keeps its entry |
| Walk.StatBeforeScan | webdavBackup.go:146-147 | at a file's turn, os.Stat of its path answers as before the scan, since earlier turns only deleted other files of the directory |
| Walk.RestageFrame | webdavBackup.go:146-153 | one turn deletes at most the path of the file it queues |
| Walk.FileInTheWayIsNotCopied | webdavBackup.go:146-153 | for every listing, when the local counterpart of the scanned directory is a file, the scan deletes nothing, queues nothing and counts no backup, because os.Stat of every path inside fails with ENOTDIR |
| Walk.ScanAccounts | webdavBackup.go:141-157 | per directory, queued plus skipped equals the number of files; scanFileCount grows by that number, realBackupFileCount by the number queued, scanDirCount not at all; the only effects are deletions of the queued files, in queue order |
| Walk.ScanAccountsStep | webdavBackup.go:141-157 | one more loop turn keeps those accounts: a file adds one to the files seen and to queued plus skipped, a queued one also a backup and its deletion |
| Walk.ScanQueuesInListingOrder | webdavBackup.go:137-157 | the queued files are a subsequence of the listing's files |
| Walk.ScanPrefix | webdavBackup.go:137-162 | the scan of one more entry is one more loop turn |
| Walk.AfterCopy | webdavBackup.go:176 | one LocalCopyFile call: the counters stay, one copy event is logged, every path is kept, and only the target file's entry may change |
| Walk.AfterCopies | webdavBackup.go:174-177 | the copy loop leaves the counters alone, deletes nothing and logs one copy per queued file, in queue order |
| Walk.AfterEnter | webdavBackup.go:119-120 | scanDirCount grows by one; the tree and the other counters stay; entering the directory is logged |
| Walk.AfterMirrorPass | webdavBackup.go:124-127 | the mirror pass runs only in mirror mode and leaves the counters alone |
| Walk.AfterBackupDir | webdavBackup.go:118-183 | backupDir counts its own directory and at least one more per subdirectory of the listing (the exact counts are WalkProperties.BackupDirCounts) |
| Walk.AfterSubdirs | webdavBackup.go:179-181 | the descent counts at least one directory per directory descended into |
| Walk.Stages | webdavBackup.go:118-183 | backupDir is counting, the mirror pass, the scan, the copies, then the descent into the scanned directories |
| Walk.SubdirsSnoc | webdavBackup.go:179-181 | the descent into one more directory is one more backupDir call at base + name |
| Walk.DirsPrefix | webdavBackup.go:158-161 | the directories among one more entry are the earlier ones plus that entry if it is one |
| Walk.FilesPrefix | webdavBackup.go:141 | the files among one more entry are the earlier ones plus that entry if it is one |
| Walk.SubdirsUpToSnoc | webdavBackup.go:158-161 | one more entry adds itself to the directories descended into exactly when it is a directory |
| Walk.SubdirsUpTo | webdavBackup.go:179-181 | the directories descended into are directories of the listing |
| WalkProperties.BackupDirCounts | webdavBackup.go:118-162 | over a whole walk, scanDirCount grows by the number of directories of the remote tree and scanFileCount by the number of its files |
| WalkProperties.SubdirsCounts | webdavBackup.go:179-181 | the descent into the first k entries adds their directories and files to the counters |
| WalkProperties.SubdirCounts | webdavBackup.go:179-181 | one more entry adds the counts of its tree if it is a directory, and one file if it is a file |
| WalkProperties.SubdirSnocCounts | webdavBackup.go:180 | descending into one more directory adds its tree's directories and files to the counters |
| WalkProperties.BackupDirVisitsPreorder | webdavBackup.go:118-181 | directories are entered depth first, each before those below it, siblings in listing order, each at its parent's path plus its name |
| WalkProperties.SubdirsVisitsPreorder | webdavBackup.go:179-181 | the descent into the first k entries enters their subtrees in preorder |
| WalkProperties.SubdirVisitsPreorder | webdavBackup.go:179-181 | one more entry adds its own preorder if it is a directory and nothing if it is a file |
| WalkProperties.SubdirSnocVisits | webdavBackup.go:180 | descending into one more directory enters its tree in preorder |
| WalkProperties.StagesVisitOnlyBase | webdavBackup.go:118-177 | before the descent, backupDir enters its own directory and no other |
| WalkProperties.VisitsAppend | webdavBackup.go:118-181 | the directories entered by two stretches of the log follow each other |
| WalkOrder.BackupDirLogOrder | webdavBackup.go:118-181 | a backupDir call logs, in order: entering its directory, the mirror pass (mirror mode), the stale-file deletions during the scan, all the copies; every later effect lies inside one of the listing's subdirectories |
| WalkOrder.BackupDirHead | webdavBackup.go:118-177 | the log up to the descent is exactly enter, mirror pass, deletions, copies |
| WalkOrder.BackupDirConfined | webdavBackup.go:118-183 | every effect of a backupDir call is on its directory or below it |
| WalkOrder.SubdirsConfined | webdavBackup.go:179-181 | every effect of the descent lies inside one of the descended directories |
| WalkOrder.FileEventsUnder | webdavBackup.go:146-177 | the deletions and copies of a directory's files are below that directory |
| WalkSafety.BackupModeDeletesOnlyRestaged | webdavBackup.go:124-153 | in backup mode, every local entry that disappears during a walk is a stale file deleted right before it is copied again |
| WalkSafety.BackupDirGrows | webdavBackup.go:118-183 | every entry a walk deletes is accounted for by a stale-file deletion or, in mirror mode, by the mirror pass of a directory above it |
| WalkSafety.SubdirsGrow | webdavBackup.go:179-181 | the same for the descent into the first k entries |
| WalkSafety.ScanGrows | webdavBackup.go:137-162 | the scan deletes only the files it queues and logs each deletion |
| WalkSafety.MirrorPassGrows | webdavBackup.go:124-127 | the mirror pass deletes only paths inside its own directory and logs itself |
| WalkSafety.CopiesGrow | webdavBackup.go:174-177 | the copies delete nothing |
| WalkSafety.FailedListingEmptiesMirror | webdavBackup.go:122-126 | in mirror mode a failed remote listing counts as empty: when nothing below the directory is refused, the pass leaves it with no child |
| Idempotence.MirroredWalkIdle | webdavBackup.go:118-183 | a walk over a local tree that already mirrors the remote tree for the mode leaves the local tree unchanged and copies no file; in backup mode the tree may keep entries the remote tree lacks |
| Idempotence.SubdirsIdle | webdavBackup.go:179-181 | the same for the descent into the first k entries |
| Walk.ScanIdle | webdavBackup.go:137-162 | a scan that finds no stale file deletes nothing, queues nothing and counts no backup |
| Idempotence.MirrorPassKeeps | webdavBackup.go:202-221 | the mirror pass over a directory whose local entries all have listed names deletes nothing |
| Duration.Quo | webdavBackup.go:321-325 | Go's / on durations: the remainder left has the sign of the dividend and is smaller than the divisor |
| Duration.Rem | webdavBackup.go:320 | Go's %: dividend = quotient × divisor + remainder, with the remainder in the bounds above |
| Duration.Wrap | webdavBackup.go:320 | int64 arithmetic wraps around by 2^64 |
| Duration.Clamp | webdavBackup.go:320 | saturation at the int64 bounds |
| Duration.RoundToSecond | webdavBackup.go:320 | Duration.Round(time.Second) equals the nearest whole second (halfway away from zero), saturated at the int64 bounds |
| Duration.NearestSecondIsNearest | webdavBackup.go:320 | the reference rounding is at most half a second off, and a halfway value goes away from zero |
| Duration.RoundsHalfAway | webdavBackup.go:320 | rounding down below half a second of remainder and up from half a second onwards gives the nearest second |
| Duration.FormatDurationSplits | webdavBackup.go:319-325 | h × 3600 + m × 60 + s equals the rounded duration in whole seconds, with abs(m) < 60, abs(s) < 60, and all three parts having its sign |
| Duration.FormatDuration | webdavBackup.go:319-325 | formatDuration's three numbers add up, as h × 3600 + m × 60 + s, to the rounded duration in whole seconds, with abs(m) < 60 and abs(s) < 60 |
| Duration.SplitSum | webdavBackup.go:321-325 | peeling off hours, minutes and seconds by truncating division keeps the sum and those bounds |
| Duration.FormatDurationSigns | webdavBackup.go:321-325 | the sign half of the above |
| Duration.QuoUnique | webdavBackup.go:325 | the truncated quotient is the only one whose remainder is below a second and has the dividend's sign |
| Duration.FormatDurationOfElapsed | webdavBackup.go:319-325 | for an elapsed time that does not saturate: 0 ≤ m < 60, 0 ≤ s < 60, and h × 3600 + m × 60 + s is the duration rounded to the nearest second |
| Duration.FormatDurationOfMax | webdavBackup.go:320-325 | the longest duration saturates instead of rounding up and prints 2562047 h 47 min 16 s |
| Duration.HalfSecondRoundsAway | webdavBackup.go:320 | 1.5 s prints as 2 s, and -1.5 s as -2 s |
| Duration.DigitChar | webdavBackup.go:326 | a digit character has the digit's value |
| Duration.Digits | webdavBackup.go:326 | %d prints at least one character, all of them digits |
| Duration.DigitsRoundTrip | webdavBackup.go:326 | the digits printed for n read back as n |
| Duration.Decimal | webdavBackup.go:326 | %d of a signed int: at least one character, starting with a minus sign exactly for a negative number |
| Duration.DecimalRoundTrip | webdavBackup.go:326 | a number printed with %d, sign included, reads back as itself |
| Duration.FormatDurationText | webdavBackup.go:326 | the line is hours, minutes and seconds in %d, each followed by its unit word, and each printed number reads back as its part |
| Duration.FormatDurationExample | webdavBackup.go:319-325 | 3723 s splits into 1 h 2 min 3 s |
| Duration.FormatDurationTextExample | webdavBackup.go:326 | 3723 s prints as "1 hours 2 mins 3 secs" |
| WebdavBackup.EntryNames | webdavBackup.go:189 | the names of a local listing are exactly the names of its entries |
| WebdavBackup.ListOneMore | webdavBackup.go:189 | adding one more unlisted child keeps the listing duplicate-free, correctly typed, and, together with the names left, complete |
| WebdavBackup.FreshName | webdavBackup.go:202 | the j-th entry of a duplicate-free listing is not among the earlier ones |
| WebdavBackup.SyncOneMore | webdavBackup.go:202-221 | one turn of the deletion loop adds the entry's name to the deleted ones exactly when the remote listing lacks it, and its delete call advances the pass by that name |
| WebdavBackup.RunBackup | webdavBackup.go:102-113 | a run from the root reports as many directories and files as the remote tree has, enters its directories in preorder, and in backup mode deletes only stale files it copies again |
| WebdavBackup.RunFacts | webdavBackup.go:105-113 | the walk from the root with fresh counters yields counts equal to the tree's, preorder visits, and in backup mode only restaged deletions |
| WebdavBackup.Backup.constructor | webdavBackup.go:39-41 | the counters start at zero |
| WebdavBackup.Backup.ReadDir | webdavBackup.go:189-193 | os.ReadDir fails exactly when dir is not a readable directory; otherwise it lists every child exactly once, with its type |
| WebdavBackup.Backup.LocalSyncDirFile | webdavBackup.go:187-223 | the local tree becomes Reconciled(old tree, dir, remote names) |
| WebdavBackup.Backup.LocalCreateDir | webdavBackup.go:225-232 | the local tree becomes AfterCreateDir of the old one |
| WebdavBackup.Backup.LocalCopyFile | webdavBackup.go:236-286 | the state becomes AfterCopy: the tree of AfterCopyFile and one more copy event |
| WebdavBackup.Backup.BackupDir | webdavBackup.go:118-183 | the state (tree, counters, effects) becomes AfterBackupDir of the old one |
| WebdavBackup.Backup.EnterDir | webdavBackup.go:120-127 | the directory is counted and entered, and the mirror pass done in mirror mode |
| WebdavBackup.Backup.ScanListing | webdavBackup.go:129-162 | the state and the two queues and the skip count become AfterScan of the listing |
| WebdavBackup.Backup.ScanOne | webdavBackup.go:138-161 | one pass of the loop: the state, the queues and the skip count become ScanEntry of the entry |
| WebdavBackup.Backup.CopyFiles | webdavBackup.go:174-177 | the state becomes AfterCopies of the queued files |
| WebdavBackup.Backup.BackupSubdirs | webdavBackup.go:179-181 | the state becomes AfterSubdirs of the queued directories |

## Left out

- conf/conf.go and log/log.go are not part of this model. Loading and
  writing the configuration, and all console logging with its levels,
  only read settings or print.
- `init` and most of `main` (webdavBackup.go:43-101) are left out: flags,
  the banner, and creating and connecting the WebDAV client.
  `RunBackup` models only the call of `backupDir("")` and the counters
  main reports.
- The wall-clock timing of a run and of each copy is left out. So is the
  MB/s speed in floating point (webdavBackup.go:260-277). These are only
  printed; `formatDuration` is modelled as a function of the duration.
- The WebDAV client calls `ReadDir` and `ReadStream`, and `io.Copy`, are
  oracles. The remote tree supplies each listing or its failure, and each
  file's stream outcome.
- The host file system is a map. Refusals are a fixed set of refused paths,
  which stands in for every permission or I/O error. Access times, file
  permission modes (webdavBackup.go:227, 252) and symbolic links are left
  out.
- `filepath.Join`, `ToSlash` and `Dir` are left out. A path is a sequence
  of name segments; names are taken to be single segments; the target root
  is the empty path.
- The mode is the two-valued `Mode`. The Go program compares a string
  with "mirror", so any other string behaves as backup mode.
- The counters are unbounded naturals, not int64; overflow does not occur
  for any real tree.
- `os.ReadDir` returns the entries sorted by file name. The model lets the
  entries come in any order without duplicates, and the proved results
  hold for every order, the sorted one included.
- `formatDuration`'s `d.Round(time.Second)` is modelled for the divisor
  one second only, which is the only one the program uses. The text is
  modelled with %d for the three numbers.
- File handles are not modelled: closing the remote stream and the local
  file (webdavBackup.go:254, 258, 266) and what their release does are
  left out.
- The effect journal (`log` field, `Event`) has no counterpart in the
  program. It records the order of the directory visits, deletions and
  copies, so that order can be stated.
- Idempotence.MirroredWalkIdle: it assumes the local tree already mirrors
  the remote tree; it does not derive that from an earlier full run. Such a
  derivation would need every copy to run to its end with a stream of
  exactly the remote size and nothing refused; CopyRefreshes states it for
  one file.
