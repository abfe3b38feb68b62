/** The backup program's state and its procedures, imperative as in the Go
    source: the package variables become the fields of one Backup object, the
    host file system calls become updates of its local tree, and every
    procedure is proved to compute exactly the state function of the Walk,
    Reconcile and CopyStep modules. */
module WebdavBackup {
  import opened LocalFs
  import opened Remote
  import opened Compare
  import opened Reconcile
  import opened CopyStep
  import opened Walk
  import opened WalkProperties
  import opened WalkSafety

  /** An entry of a local directory listing, as os.ReadDir returns it. */
  datatype DirEntry = DirEntry(name: Name, isDir: bool)

  /** The listed names, no two alike: Remote.UniqueNames for local
      entries. */
  predicate DistinctNames(es: seq<DirEntry>) {
    forall i, j :: 0 <= i < j < |es| ==> es[i].name != es[j].name
  }

  /** The names of a local listing: Remote.Names for local entries. */
  function EntryNames(es: seq<DirEntry>): (r: set<Name>)
    ensures forall i :: 0 <= i < |es| ==> es[i].name in r
    ensures forall n :: n in r ==> exists i :: 0 <= i < |es| && es[i].name == n
  {
    if es == [] then {} else EntryNames(es[..|es| - 1]) + {es[|es| - 1].name}
  }

  /** Every listed entry of dir exists in m with the type m gives it. */
  predicate Typed(m: Tree, dir: Path, es: seq<DirEntry>) {
    forall i :: 0 <= i < |es| ==> dir + [es[i].name] in m && es[i].isDir == m[dir + [es[i].name]].isDir
  }

  /** Listing one more of the names left keeps the listed names distinct
      and, with those left, all of them. */
  lemma ListOneMore(m: Tree, dir: Path, es: seq<DirEntry>, left: set<Name>, all: set<Name>, e: DirEntry)
    requires EntryNames(es) + left == all && EntryNames(es) !! left && DistinctNames(es) && Typed(m, dir, es)
    requires e.name in left && dir + [e.name] in m && e.isDir == m[dir + [e.name]].isDir
    ensures EntryNames(es + [e]) + (left - {e.name}) == all
    ensures EntryNames(es + [e]) !! left - {e.name}
    ensures DistinctNames(es + [e]) && Typed(m, dir, es + [e])
  {
    assert (es + [e])[..|es|] == es;
    assert EntryNames(es + [e]) == EntryNames(es) + {e.name};
  }

  /** The j-th entry of a listing without repeated names is not among the
      ones before it. */
  lemma FreshName(es: seq<DirEntry>, j: nat)
    requires j < |es| && DistinctNames(es)
    ensures es[j].name !in EntryNames(es[..j])
    ensures EntryNames(es[..j + 1]) == EntryNames(es[..j]) + {es[j].name}
  {
    forall k | 0 <= k < j ensures es[..j][k].name != es[j].name { }
    assert es[..j + 1][..j] == es[..j];
  }

  /** The j-th local entry of the mirror pass: if the remote listing lacks
      its name, it joins the doomed names and its delete call takes the pass
      one name further. */
  lemma SyncOneMore(m0: Tree, denied: set<Path>, dir: Path, es: seq<DirEntry>, j: nat,
                    remote: set<Name>, doomed: set<Name>)
    requires j < |es| && DistinctNames(es)
    requires forall i :: 0 <= i < |es| ==> dir + [es[i].name] in m0 && es[i].isDir == m0[dir + [es[i].name]].isDir
    requires doomed == EntryNames(es[..j]) - remote
    ensures EntryNames(es[..j + 1]) - remote == if es[j].name in remote then doomed else doomed + {es[j].name}
    ensures es[j].name !in remote ==>
      var c := es[j].name;
      var cur := Sweep(m0, denied, dir, doomed);
      Sweep(m0, denied, dir, doomed + {c}) ==
        if es[j].isDir then RemoveAll(cur, denied, dir + [c]) else Remove(cur, denied, dir + [c])
  {
    var c := es[j].name;
    FreshName(es, j);
    if c !in remote {
      SweepStep(m0, denied, dir, doomed, c);
    }
  }

  /** The run main starts after connecting: a fresh state over the target
      tree, then backupDir at the root. The counters it reports are the
      number of directories and of files of the remote tree, the directories
      are entered in preorder, and backup mode deletes nothing but the stale
      files it copies again. */
  method RunBackup(mode: Mode, denied: set<Path>, clock: Time, local: Tree, root: Listing) returns (b: Backup)
    ensures fresh(b)
    ensures b.State() == AfterBackupDir(Env(mode, denied, clock), [], root, WalkState(local, 0, 0, 0, []))
    ensures b.scanDirCount == DirCount(root) && b.scanFileCount == FileCount(root)
    ensures Visits(b.log) == Preorder([], root)
    ensures mode == BackupMode ==> forall q :: q in local && q !in b.local ==> Restage(q) in b.log
  {
    b := new Backup(mode, denied, clock, local);
    b.BackupDir([], root);
    RunFacts(Env(mode, denied, clock), local, root);
  }

  /** What RunBackup promises, about the state function of the walk. */
  lemma RunFacts(env: Env, local: Tree, root: Listing)
    ensures var r := AfterBackupDir(env, [], root, WalkState(local, 0, 0, 0, []));
      && r.dirs == DirCount(root) && r.files == FileCount(root)
      && Visits(r.log) == Preorder([], root)
      && (env.mode == BackupMode ==> forall q :: q in local && q !in r.local ==> Restage(q) in r.log)
  {
    RunCounts(env, local, root);
    RunVisits(env, local, root);
    if env.mode == BackupMode {
      BackupModeDeletesOnlyRestaged(env, [], root, WalkState(local, 0, 0, 0, []));
    }
  }

  lemma RunCounts(env: Env, local: Tree, root: Listing)
    ensures var r := AfterBackupDir(env, [], root, WalkState(local, 0, 0, 0, []));
      r.dirs == DirCount(root) && r.files == FileCount(root)
  {
    BackupDirCounts(env, [], root, WalkState(local, 0, 0, 0, []));
  }

  lemma RunVisits(env: Env, local: Tree, root: Listing)
    ensures Visits(AfterBackupDir(env, [], root, WalkState(local, 0, 0, 0, [])).log) == Preorder([], root)
  {
    BackupDirVisitsPreorder(env, [], root, WalkState(local, 0, 0, 0, []));
  }

  class Backup {
    /** The run mode and the host, fixed for the run. */
    const mode: Mode
    const denied: set<Path>
    const clock: Time

    /** The target directory's contents. */
    var local: Tree
    var scanDirCount: nat
    var scanFileCount: nat
    var realBackupFileCount: nat
    /** The effects performed so far, in order. */
    var log: seq<Event>

    function Environment(): Env {
      Env(mode, denied, clock)
    }

    function State(): WalkState
      reads this
    {
      WalkState(local, scanDirCount, scanFileCount, realBackupFileCount, log)
    }

    constructor (mode: Mode, denied: set<Path>, clock: Time, local: Tree)
      ensures this.mode == mode && this.denied == denied && this.clock == clock
      ensures State() == WalkState(local, 0, 0, 0, [])
    {
      this.mode := mode;
      this.denied := denied;
      this.clock := clock;
      this.local := local;
      scanDirCount := 0;
      scanFileCount := 0;
      realBackupFileCount := 0;
      log := [];
    }

    /** os.ReadDir: fails unless dir is a readable directory; otherwise
        lists every child once, with its type, in some order. */
    method ReadDir(dir: Path) returns (ok: bool, entries: seq<DirEntry>)
      ensures ok == ReadDirOk(local, denied, dir)
      ensures ok ==> DistinctNames(entries) && EntryNames(entries) == Children(local, dir)
      ensures ok ==> forall i :: 0 <= i < |entries| ==>
        dir + [entries[i].name] in local && entries[i].isDir == local[dir + [entries[i].name]].isDir
    {
      ok := ReadDirOk(local, denied, dir);
      entries := [];
      if !ok {
        return;
      }
      var left := Children(local, dir);
      while left != {}
        invariant left <= Children(local, dir)
        invariant EntryNames(entries) + left == Children(local, dir)
        invariant EntryNames(entries) !! left
        invariant DistinctNames(entries) && Typed(local, dir, entries)
        decreases |left|
      {
        var c :| c in left;
        ChildrenIn(local, dir, c);
        var e := DirEntry(c, local[dir + [c]].isDir);
        ListOneMore(local, dir, entries, left, Children(local, dir), e);
        entries := entries + [e];
        left := left - {c};
      }
    }

    /** LocalSyncDirFile: with the local directory listed, delete every
        child whose name the remote listing files lacks, a directory with
        os.RemoveAll, a file with os.Remove; a failed delete is reported and
        the loop goes on. A failed listing deletes nothing. */
    method LocalSyncDirFile(dir: Path, files: seq<RemoteEntry>)
      modifies this`local
      ensures local == Reconciled(old(local), denied, dir, Names(files))
    {
      var m0 := local;
      var ok, localFiles := ReadDir(dir);
      if !ok {
        return;
      }
      var remoteFiles: map<Name, bool> := map[];
      var i := 0;
      while i < |files|
        invariant 0 <= i <= |files|
        invariant remoteFiles.Keys == Names(files[..i])
      {
        assert files[..i + 1][..i] == files[..i];
        remoteFiles := remoteFiles[files[i].name := true];
        i := i + 1;
      }
      assert files[..i] == files;
      assert EntryNames(localFiles[..0]) - remoteFiles.Keys == {};
      SweepNothing(m0, denied, dir);
      var j := 0;
      ghost var doomed: set<Name> := {};
      while j < |localFiles|
        invariant 0 <= j <= |localFiles|
        invariant doomed == EntryNames(localFiles[..j]) - remoteFiles.Keys
        invariant local == Sweep(m0, denied, dir, doomed)
      {
        var file := localFiles[j];
        SyncOneMore(m0, denied, dir, localFiles, j, remoteFiles.Keys, doomed);
        if file.name !in remoteFiles {
          if file.isDir {
            local := RemoveAll(local, denied, dir + [file.name]);
          } else {
            local := Remove(local, denied, dir + [file.name]);
          }
          doomed := doomed + {file.name};
        }
        j := j + 1;
      }
      assert localFiles[..j] == localFiles;
      assert doomed == Children(m0, dir) - Names(files);
    }

    /** LocalCreateDir: os.MkdirAll when os.Stat says the directory does not
        exist; a failure is reported and not passed on. */
    method LocalCreateDir(d: Path)
      modifies this`local
      ensures local == AfterCreateDir(old(local), denied, clock, d)
    {
      var st := Stat(local, denied, d);
      if st.NotExist? {
        var made := MkdirAll(local, denied, clock, d);
        local := made.0;
      }
    }

    /** LocalCopyFile: make the directory, open the remote stream, open the
        local file without truncating it, copy, and stamp the remote mtime;
        the first failure ends the copy. */
    method LocalCopyFile(base: Path, f: RemoteEntry)
      requires f.File?
      modifies this`local, this`log
      ensures State() == AfterCopy(Environment(), base, f, old(State()))
    {
      var p := base + [f.name];
      log := log + [Fetch(p)];
      LocalCreateDir(base);
      if f.stream.Unreadable? {
        return;
      }
      if !OpenOk(local, denied, p) {
        return;
      }
      local := Open(local, clock, p);
      var bytesCopied := if f.stream.Broken? then f.stream.written else f.stream.length;
      local := Write(local, clock, p, bytesCopied);
      if f.stream.Broken? {
        return;
      }
      local := Chtimes(local, p, f.mtime);
    }

    /** backupDir: count the directory, in mirror mode reconcile it against
        the remote listing, sort the listing into stale files (deleted and
        queued) and directories, copy the queued files, then recurse into the
        directories. A failed remote listing counts as an empty one. */
    method BackupDir(base: Path, l: Listing)
      modifies this
      ensures State() == AfterBackupDir(Environment(), base, l, old(State()))
      decreases l, 1
    {
      ghost var s := State();
      ghost var s2, sc, s3 := Stages(Environment(), base, l, s);
      var files := Entries(l);
      EnterDir(base, files);
      var needBackupFile, needBackupDir, skipFileCount := ScanListing(base, files);
      CopyFiles(base, needBackupFile);
      BackupSubdirs(base, l, needBackupDir);
    }

    /** The start of backupDir: count the directory and, in mirror mode,
        reconcile the local directory with the remote listing files. */
    method EnterDir(base: Path, files: seq<RemoteEntry>)
      modifies this`scanDirCount, this`log, this`local
      ensures State() == AfterMirrorPass(Environment(), base, files, AfterEnter(base, old(State())))
    {
      scanDirCount := scanDirCount + 1;
      log := log + [Enter(base)];
      if mode == MirrorMode {
        log := log + [Mirror(base)];
        LocalSyncDirFile(base, files);
      }
    }

    /** The loop of backupDir over the remote listing: count each file, and
        delete and queue it when checkNeedToCopy says it is stale, else skip
        it; queue each directory. */
    method ScanListing(base: Path, files: seq<RemoteEntry>)
      returns (needBackupFile: seq<RemoteEntry>, needBackupDir: seq<RemoteEntry>, skipFileCount: nat)
      modifies this`local, this`scanFileCount, this`realBackupFileCount, this`log
      ensures ScanState(State(), needBackupFile, needBackupDir, skipFileCount)
           == AfterScan(Environment(), base, files, old(State()))
    {
      ghost var s := State();
      ghost var env := Environment();
      needBackupDir := [];
      needBackupFile := [];
      skipFileCount := 0;
      var i := 0;
      while i < |files|
        invariant 0 <= i <= |files|
        invariant ScanState(State(), needBackupFile, needBackupDir, skipFileCount)
               == AfterScan(env, base, files[..i], s)
      {
        ScanPrefix(env, base, files, i, s);
        needBackupFile, needBackupDir, skipFileCount := ScanOne(base, files[i], needBackupFile, needBackupDir, skipFileCount);
        i := i + 1;
      }
      assert files[..i] == files;
    }

    /** One turn of the loop of backupDir over the remote listing. */
    method ScanOne(base: Path, file: RemoteEntry, queued: seq<RemoteEntry>, subdirs: seq<RemoteEntry>, skipped: nat)
      returns (needBackupFile: seq<RemoteEntry>, needBackupDir: seq<RemoteEntry>, skipFileCount: nat)
      modifies this`local, this`scanFileCount, this`realBackupFileCount, this`log
      ensures ScanState(State(), needBackupFile, needBackupDir, skipFileCount)
           == ScanEntry(Environment(), base, file, ScanState(old(State()), queued, subdirs, skipped))
    {
      needBackupFile, needBackupDir, skipFileCount := queued, subdirs, skipped;
      var p := base + [file.name];
      if file.File? {
        scanFileCount := scanFileCount + 1;
        if CheckNeedToCopy(Stat(local, denied, p), file) {
          local := Remove(local, denied, p);
          log := log + [Restage(p)];
          needBackupFile := needBackupFile + [file];
          realBackupFileCount := realBackupFileCount + 1;
        } else {
          skipFileCount := skipFileCount + 1;
        }
      } else {
        needBackupDir := needBackupDir + [file];
      }
    }

    /** The loop over the queued files: LocalCopyFile on each, in order. */
    method CopyFiles(base: Path, fs: seq<RemoteEntry>)
      requires forall f :: f in fs ==> f.File?
      modifies this`local, this`log
      ensures State() == AfterCopies(Environment(), base, fs, old(State()))
    {
      ghost var s := State();
      var j := 0;
      while j < |fs|
        invariant 0 <= j <= |fs|
        invariant State() == AfterCopies(Environment(), base, fs[..j], s)
      {
        assert fs[..j + 1][..j] == fs[..j];
        LocalCopyFile(base, fs[j]);
        j := j + 1;
      }
      assert fs[..j] == fs;
    }

    /** The loop over the queued directories of listing l: backupDir on
        each, at base extended by its name, in order. */
    method BackupSubdirs(base: Path, l: Listing, ds: seq<RemoteEntry>)
      requires forall d :: d in ds ==> d.Dir? && d in Entries(l)
      modifies this
      ensures State() == AfterSubdirs(Environment(), base, l, ds, old(State()))
      decreases l, 0
    {
      ghost var s := State();
      var k := 0;
      while k < |ds|
        invariant 0 <= k <= |ds|
        invariant State() == AfterSubdirs(Environment(), base, l, ds[..k], s)
      {
        var dirInfo := ds[k];
        assert dirInfo in Entries(l);
        assert dirInfo in l.entries;
        assert ds[..k + 1] == ds[..k] + [dirInfo];
        SubdirsSnoc(Environment(), base, l, ds[..k], dirInfo, s);
        BackupDir(base + [dirInfo.name], dirInfo.listing);
        k := k + 1;
      }
      assert ds[..k] == ds;
    }
  }
}
