/** backupDir, the recursive walk, as functions from the state before a call
    to the state after it. The state is what the Go program keeps in
    package variables: the local tree (the host file system), the three
    counters, and the sequence of effects it performs. */
module Walk {
  import opened LocalFs
  import opened Remote
  import opened Compare
  import opened Reconcile
  import opened CopyStep

  datatype Mode = BackupMode | MirrorMode

  /** What stays fixed for a run: the mode and the host. */
  datatype Env = Env(mode: Mode, denied: set<Path>, clock: Time)

  /** The effects of the walk, in the order they happen. */
  datatype Event =
    | Enter(dir: Path)     // backupDir starts on dir
    | Mirror(dir: Path)    // the mirror pass over dir
    | Restage(path: Path)  // a stale local file is deleted before being copied again
    | Fetch(path: Path)    // LocalCopyFile on path

  datatype WalkState = WalkState(local: Tree, dirs: nat, files: nat, copies: nat, log: seq<Event>)

  /** The loop over a listing: the state, the files queued for copying, the
      directories queued for the descent, and the files skipped. */
  datatype ScanState = ScanState(st: WalkState, queued: seq<RemoteEntry>, subdirs: seq<RemoteEntry>, skipped: nat)

  function Restages(base: Path, fs: seq<RemoteEntry>): (r: seq<Event>)
    ensures |r| == |fs|
  {
    if fs == [] then [] else Restages(base, fs[..|fs| - 1]) + [Restage(base + [fs[|fs| - 1].name])]
  }

  function Fetches(base: Path, fs: seq<RemoteEntry>): (r: seq<Event>)
    ensures |r| == |fs|
  {
    if fs == [] then [] else Fetches(base, fs[..|fs| - 1]) + [Fetch(base + [fs[|fs| - 1].name])]
  }

  /** a is a subsequence of b: its elements occur in b in the same order. */
  predicate Subsequence<T(==)>(a: seq<T>, b: seq<T>) {
    a == [] || (b != [] &&
      (Subsequence(a, b[..|b| - 1]) ||
       (a[|a| - 1] == b[|b| - 1] && Subsequence(a[..|a| - 1], b[..|b| - 1]))))
  }

  /** One turn of the loop over a listing: a directory is queued for the
      descent; a file is counted, and when checkNeedToCopy finds the local
      copy stale it is deleted (os.Remove, whose failure is only reported),
      counted as a backup and queued for copying, else it is skipped. */
  function ScanEntry(env: Env, base: Path, e: RemoteEntry, prev: ScanState): (r: ScanState)
    ensures e.Dir? ==> r.st == prev.st && r.queued == prev.queued && r.skipped == prev.skipped
    ensures r.subdirs == prev.subdirs + if e.Dir? then [e] else []
    ensures e.File? ==> r.st.files == prev.st.files + 1 && r.st.dirs == prev.st.dirs
    ensures e.File? ==>
      (r.queued == prev.queued + [e] <==> CheckNeedToCopy(Stat(prev.st.local, env.denied, base + [e.name]), e))
    ensures e.File? && r.queued == prev.queued + [e] ==>
      r.st.local == Remove(prev.st.local, env.denied, base + [e.name])
    ensures e.File? && r.queued != prev.queued + [e] ==>
      r.queued == prev.queued && r.st.local == prev.st.local && r.skipped == prev.skipped + 1
  {
    if e.Dir? then prev.(subdirs := prev.subdirs + [e])
    else
      var p := base + [e.name];
      var st := prev.st.(files := prev.st.files + 1);
      if CheckNeedToCopy(Stat(st.local, env.denied, p), e) then
        ScanState(st.(local := Remove(st.local, env.denied, p), copies := st.copies + 1, log := st.log + [Restage(p)]),
                  prev.queued + [e], prev.subdirs, prev.skipped)
      else prev.(st := st, skipped := prev.skipped + 1)
  }

  /** The loop over the listing es, from state s: queue the directories in
      listing order, and queue files of the listing. */
  function AfterScan(env: Env, base: Path, es: seq<RemoteEntry>, s: WalkState): (r: ScanState)
    ensures r.subdirs == Dirs(es)
    ensures r.st.dirs == s.dirs
    ensures forall f :: f in r.queued ==> f in es && f.File?
  {
    if es == [] then ScanState(s, [], [], 0)
    else
      var front := es[..|es| - 1];
      var e := es[|es| - 1];
      assert es == front + [e];
      assert Dirs(es) == Dirs(front) + (if e.Dir? then [e] else []);
      ScanEntry(env, base, e, AfterScan(env, base, front, s))
  }

  /** Every file of the listing is counted, queued or skipped; every queued
      file counts as a backup; the directory count stays; and the only
      effects are the deletions of the queued files, in queue order. */
  lemma {:induction false} ScanAccounts(env: Env, base: Path, es: seq<RemoteEntry>, s: WalkState)
    ensures var r := AfterScan(env, base, es, s);
      && |r.queued| + r.skipped == |Files(es)|
      && r.st.files == s.files + |Files(es)|
      && r.st.copies == s.copies + |r.queued|
      && r.st.dirs == s.dirs
      && r.st.log == s.log + Restages(base, r.queued)
  {
    if es != [] {
      var front := es[..|es| - 1];
      var e := es[|es| - 1];
      assert es == front + [e];
      ScanAccounts(env, base, front, s);
      assert Files(es) == Files(front) + (if e.File? then [e] else []);
      ScanAccountsStep(env, base, e, AfterScan(env, base, front, s), s, |Files(front)|);
    }
  }

  /** One more turn of the scan keeps the accounts of ScanAccounts. */
  lemma ScanAccountsStep(env: Env, base: Path, e: RemoteEntry, prev: ScanState, s: WalkState, n: nat)
    requires |prev.queued| + prev.skipped == n
    requires prev.st.files == s.files + n && prev.st.copies == s.copies + |prev.queued|
    requires prev.st.log == s.log + Restages(base, prev.queued)
    ensures var r := ScanEntry(env, base, e, prev);
      var n' := n + if e.File? then 1 else 0;
      && |r.queued| + r.skipped == n'
      && r.st.files == s.files + n'
      && r.st.copies == s.copies + |r.queued|
      && r.st.log == s.log + Restages(base, r.queued)
  {
    var r := ScanEntry(env, base, e, prev);
    if e.File? && r.queued == prev.queued + [e] {
      var p := base + [e.name];
      assert r.queued[..|r.queued| - 1] == prev.queued;
      assert Restages(base, r.queued) == Restages(base, prev.queued) + [Restage(p)];
      assert prev.st.log + [Restage(p)] == s.log + (Restages(base, prev.queued) + [Restage(p)]);
    }
  }

  /** Scanning one more entry of a listing. */
  lemma ScanPrefix(env: Env, base: Path, es: seq<RemoteEntry>, i: nat, s: WalkState)
    requires i < |es|
    ensures AfterScan(env, base, es[..i + 1], s) == ScanEntry(env, base, es[i], AfterScan(env, base, es[..i], s))
  {
    assert es[..i + 1][..i] == es[..i];
  }

  /** The paths of the files queued in directory base. */
  function RestagedPaths(base: Path, fs: seq<RemoteEntry>): set<Path> {
    set f | f in fs :: base + [f.name]
  }

  /** A file of the listing is deleted, counted as a backup and queued
      exactly when checkNeedToCopy finds its local copy stale in the tree as
      it was before the scan. */
  lemma {:induction false} ScanQueuesStale(env: Env, base: Path, es: seq<RemoteEntry>, s: WalkState)
    requires UniqueNames(es)
    ensures var r := AfterScan(env, base, es, s);
      forall f :: f in r.queued <==> f in Files(es) && CheckNeedToCopy(Stat(s.local, env.denied, base + [f.name]), f)
  {
    if es != [] {
      var front := es[..|es| - 1];
      var e := es[|es| - 1];
      assert es == front + [e];
      LastNameIsNew(es);
      ScanQueuesStale(env, base, front, s);
      assert Files(es) == Files(front) + (if e.File? then [e] else []);
      if e.File? {
        ScanFrame(env, base, front, s);
        ScanQueuesStaleStep(env, base, front, e, s, AfterScan(env, base, front, s));
      }
    }
  }

  /** One more file of the listing keeps ScanQueuesStale. */
  lemma ScanQueuesStaleStep(env: Env, base: Path, front: seq<RemoteEntry>, e: RemoteEntry, s: WalkState, prev: ScanState)
    requires e.File? && forall f :: f in front ==> f.name != e.name
    requires forall f :: f in prev.queued ==> f in front
    requires forall f :: f in prev.queued <==> f in Files(front) && CheckNeedToCopy(Stat(s.local, env.denied, base + [f.name]), f)
    requires prev.st.local.Keys <= s.local.Keys
    requires forall q :: q in s.local && q !in RestagedPaths(base, prev.queued) ==> q in prev.st.local && prev.st.local[q] == s.local[q]
    ensures var r := ScanEntry(env, base, e, prev);
      forall f :: f in r.queued <==> f in Files(front) + [e] && CheckNeedToCopy(Stat(s.local, env.denied, base + [f.name]), f)
  {
    StatBeforeScan(env.denied, base, e, prev.queued, prev.st.local, s.local);
    assert forall f :: f in Files(front) ==> f != e;
  }

  /** The scan adds no path, and every path other than those of the queued
      files keeps its entry. */
  lemma {:induction false} ScanFrame(env: Env, base: Path, es: seq<RemoteEntry>, s: WalkState)
    ensures var r := AfterScan(env, base, es, s);
      && r.st.local.Keys <= s.local.Keys
      && (forall q :: q in s.local && q !in RestagedPaths(base, r.queued) ==> q in r.st.local && r.st.local[q] == s.local[q])
  {
    if es != [] {
      var front := es[..|es| - 1];
      var e := es[|es| - 1];
      assert es == front + [e];
      ScanFrame(env, base, front, s);
      if e.File? {
        RestageFrame(env, base, e, AfterScan(env, base, front, s), s.local);
      }
    }
  }

  /** Before a file's turn, its path and every path above it are as they
      were before the scan. */
  lemma StatBeforeScan(denied: set<Path>, base: Path, e: RemoteEntry, queued: seq<RemoteEntry>, cur: Tree, m: Tree)
    requires forall f :: f in queued ==> f.name != e.name
    requires cur.Keys <= m.Keys
    requires forall q :: q in m && q !in RestagedPaths(base, queued) ==> q in cur && cur[q] == m[q]
    ensures Stat(cur, denied, base + [e.name]) == Stat(m, denied, base + [e.name])
  {
    var p := base + [e.name];
    forall f | f in queued ensures base + [f.name] != p {
      assert (base + [f.name])[|base|] == f.name;
    }
    assert forall q :: q in RestagedPaths(base, queued) ==> |q| == |p|;
    StatSame(m, cur, denied, p);
  }

  /** In a listing without repeated names, the last entry's name is not
      among the names before it, and those have no repeats either. */
  lemma LastNameIsNew(es: seq<RemoteEntry>)
    requires es != [] && UniqueNames(es)
    ensures UniqueNames(es[..|es| - 1])
    ensures forall f :: f in es[..|es| - 1] ==> f.name != es[|es| - 1].name
  {
    var front := es[..|es| - 1];
    forall f | f in front ensures f.name != es[|es| - 1].name {
      var i :| 0 <= i < |front| && front[i] == f;
    }
  }

  /** The frame of one scanned file: deleting it keeps every other path. */
  lemma RestageFrame(env: Env, base: Path, e: RemoteEntry, prev: ScanState, m: Tree)
    requires e.File?
    requires prev.st.local.Keys <= m.Keys
    requires forall q :: q in m && q !in RestagedPaths(base, prev.queued) ==> q in prev.st.local && prev.st.local[q] == m[q]
    ensures var r := ScanEntry(env, base, e, prev);
      && r.st.local.Keys <= m.Keys
      && (forall q :: q in m && q !in RestagedPaths(base, r.queued) ==> q in r.st.local && r.st.local[q] == m[q])
  {
    var r := ScanEntry(env, base, e, prev);
    if r.queued == prev.queued + [e] {
      assert RestagedPaths(base, r.queued) == RestagedPaths(base, prev.queued) + {base + [e.name]};
    }
  }

  /** A local file where the remote tree has a directory: os.Stat of every
      path inside it fails with ENOTDIR rather than "does not exist", so the
      scan of that directory deletes nothing, queues nothing and counts no
      backup. */
  lemma FileInTheWayIsNotCopied(env: Env, base: Path, es: seq<RemoteEntry>, s: WalkState)
    requires base in s.local && !s.local[base].isDir
    ensures var r := AfterScan(env, base, es, s);
      r.queued == [] && r.st.local == s.local && r.st.copies == s.copies && r.st.log == s.log
  {
    forall e | e in es && e.File? ensures !CheckNeedToCopy(Stat(s.local, env.denied, base + [e.name]), e) {
      assert (base + [e.name])[..|base|] == base;
    }
    ScanIdle(env, base, es, s);
  }

  /** A scan that finds no stale file deletes nothing and queues nothing. */
  lemma {:induction false} ScanIdle(env: Env, base: Path, es: seq<RemoteEntry>, s: WalkState)
    requires forall e :: e in es && e.File? ==> !CheckNeedToCopy(Stat(s.local, env.denied, base + [e.name]), e)
    ensures var r := AfterScan(env, base, es, s);
      r.queued == [] && r.st.local == s.local && r.st.copies == s.copies && r.st.log == s.log
  {
    if es != [] {
      var front := es[..|es| - 1];
      var e := es[|es| - 1];
      assert es == front + [e];
      ScanIdle(env, base, front, s);
    }
  }

  /** The scan deletes the local copy of every queued file: afterwards its
      path is gone, unless os.Remove fails on it in the tree as it was before
      the scan (a refused file, or a directory that is not empty). */
  lemma {:induction false} ScanRemovesQueued(env: Env, base: Path, es: seq<RemoteEntry>, s: WalkState)
    requires UniqueNames(es)
    ensures var r := AfterScan(env, base, es, s);
      forall f :: f in r.queued ==>
        (base + [f.name] in r.st.local <==> base + [f.name] in s.local && !RemoveOk(s.local, env.denied, base + [f.name]))
  {
    if es != [] {
      var front := es[..|es| - 1];
      var e := es[|es| - 1];
      assert es == front + [e];
      LastNameIsNew(es);
      ScanRemovesQueued(env, base, front, s);
      if e.File? {
        var prev := AfterScan(env, base, front, s);
        ScanFrame(env, base, front, s);
        RemoveBeforeScan(env.denied, base, e, prev.queued, prev.st.local, s.local);
        RemoveStep(env, base, e, prev, s.local);
      }
    }
  }

  /** Before a file's turn, os.Remove of its path would do what it would
      have done before the scan. */
  lemma RemoveBeforeScan(denied: set<Path>, base: Path, e: RemoteEntry, queued: seq<RemoteEntry>, cur: Tree, m: Tree)
    requires forall f :: f in queued ==> f.name != e.name
    requires cur.Keys <= m.Keys
    requires forall q :: q in m && q !in RestagedPaths(base, queued) ==> q in cur && cur[q] == m[q]
    ensures var p := base + [e.name];
      (p in cur <==> p in m) && RemoveOk(cur, denied, p) == RemoveOk(m, denied, p)
  {
    var p := base + [e.name];
    forall f | f in queued ensures base + [f.name] != p {
      assert (base + [f.name])[|base|] == f.name;
    }
    assert forall q :: q in RestagedPaths(base, queued) ==> |q| == |p|;
    if HasChild(m, p) {
      var q :| q in m && Inside(p, q);
      assert q in cur;
    }
  }

  /** One more turn keeps the deletion facts of the earlier queued files and
      adds that of the file it queues. */
  lemma RemoveStep(env: Env, base: Path, e: RemoteEntry, prev: ScanState, m: Tree)
    requires e.File? && forall f :: f in prev.queued ==> f.name != e.name
    requires forall f :: f in prev.queued ==>
      (base + [f.name] in prev.st.local <==> base + [f.name] in m && !RemoveOk(m, env.denied, base + [f.name]))
    requires var p := base + [e.name];
      (p in prev.st.local <==> p in m) && RemoveOk(prev.st.local, env.denied, p) == RemoveOk(m, env.denied, p)
    ensures var r := ScanEntry(env, base, e, prev);
      forall f :: f in r.queued ==>
        (base + [f.name] in r.st.local <==> base + [f.name] in m && !RemoveOk(m, env.denied, base + [f.name]))
  {
    var r := ScanEntry(env, base, e, prev);
    if r.queued == prev.queued + [e] {
      forall f | f in prev.queued ensures base + [f.name] != base + [e.name] {
        assert (base + [f.name])[|base|] == f.name;
      }
    }
  }

  /** The queued files come in listing order. */
  lemma {:induction false} ScanQueuesInListingOrder(env: Env, base: Path, es: seq<RemoteEntry>, s: WalkState)
    ensures Subsequence(AfterScan(env, base, es, s).queued, Files(es))
  {
    if es != [] {
      var front := es[..|es| - 1];
      var e := es[|es| - 1];
      assert es == front + [e];
      ScanQueuesInListingOrder(env, base, front, s);
      var prev := AfterScan(env, base, front, s).queued;
      var q := AfterScan(env, base, es, s).queued;
      if e.Dir? {
        assert Files(es) == Files(front);
      } else {
        assert Files(es) == Files(front) + [e];
        assert Files(es)[..|Files(es)| - 1] == Files(front);
        if q != prev {
          assert q == prev + [e] && q[..|q| - 1] == prev;
        }
      }
    }
  }

  /** One LocalCopyFile call. */
  function AfterCopy(env: Env, base: Path, f: RemoteEntry, s: WalkState): (r: WalkState)
    requires f.File?
    ensures r.dirs == s.dirs && r.files == s.files && r.copies == s.copies
    ensures r.log == s.log + [Fetch(base + [f.name])]
    ensures forall q :: q in s.local ==> q in r.local
    ensures forall q :: q in s.local && q != base + [f.name] ==> r.local[q] == s.local[q]
  {
    s.(local := AfterCopyFile(s.local, env.denied, env.clock, base, f), log := s.log + [Fetch(base + [f.name])])
  }

  /** The loop over the queued files: copies in queue order and nothing
      else. */
  function AfterCopies(env: Env, base: Path, fs: seq<RemoteEntry>, s: WalkState): (r: WalkState)
    requires forall f :: f in fs ==> f.File?
    ensures r.dirs == s.dirs && r.files == s.files && r.copies == s.copies
    ensures r.log == s.log + Fetches(base, fs)
    ensures forall q :: q in s.local ==> q in r.local
  {
    if fs == [] then s
    else AfterCopy(env, base, fs[|fs| - 1], AfterCopies(env, base, fs[..|fs| - 1], s))
  }

  /** backupDir counts the directory and notes that it starts on it. */
  function AfterEnter(base: Path, s: WalkState): (r: WalkState)
    ensures r.dirs == s.dirs + 1 && r.log == s.log + [Enter(base)]
    ensures r.local == s.local && r.files == s.files && r.copies == s.copies
  {
    s.(dirs := s.dirs + 1, log := s.log + [Enter(base)])
  }

  /** In mirror mode, the mirror pass over base against the listing es;
      in backup mode, nothing. */
  function AfterMirrorPass(env: Env, base: Path, es: seq<RemoteEntry>, s: WalkState): (r: WalkState)
    ensures r.dirs == s.dirs && r.files == s.files && r.copies == s.copies
    ensures env.mode == BackupMode ==> r == s
    ensures env.mode == MirrorMode ==> r.log == s.log + [Mirror(base)]
  {
    if env.mode == MirrorMode
    then s.(local := Reconciled(s.local, env.denied, base, Names(es)), log := s.log + [Mirror(base)])
    else s
  }

  /** backupDir(base) where the remote listing of base is l: count the
      directory, run the mirror pass in mirror mode, scan the listing, copy
      the queued files, then descend into the directories in listing order.
      A failed listing is taken as an empty one. */
  function AfterBackupDir(env: Env, base: Path, l: Listing, s: WalkState): (r: WalkState)
    ensures r.dirs >= s.dirs + 1 + |Dirs(Entries(l))|
    decreases l, 1, 0
  {
    var es := Entries(l);
    var sc := AfterScan(env, base, es, AfterMirrorPass(env, base, es, AfterEnter(base, s)));
    AfterSubdirs(env, base, l, sc.subdirs, AfterCopies(env, base, sc.queued, sc.st))
  }

  /** The descent into the directories ds of listing l, one after the
      other. */
  function AfterSubdirs(env: Env, base: Path, l: Listing, ds: seq<RemoteEntry>, s: WalkState): (r: WalkState)
    requires forall d :: d in ds ==> d.Dir? && d in Entries(l)
    ensures r.dirs >= s.dirs + |ds|
    decreases l, 0, |ds|
  {
    if ds == [] then s
    else
      var d := ds[|ds| - 1];
      assert d in ds;
      assert d in Entries(l);
      assert d in l.entries;
      AfterBackupDir(env, base + [d.name], d.listing, AfterSubdirs(env, base, l, ds[..|ds| - 1], s))
  }

  /** The stages of one backupDir call, named. */
  lemma Stages(env: Env, base: Path, l: Listing, s: WalkState) returns (s2: WalkState, sc: ScanState, s3: WalkState)
    ensures s2 == AfterMirrorPass(env, base, Entries(l), AfterEnter(base, s))
    ensures sc == AfterScan(env, base, Entries(l), s2)
    ensures s3 == AfterCopies(env, base, sc.queued, sc.st)
    ensures sc.subdirs == Dirs(Entries(l))
    ensures AfterBackupDir(env, base, l, s) == AfterSubdirs(env, base, l, Dirs(Entries(l)), s3)
  {
    s2 := AfterMirrorPass(env, base, Entries(l), AfterEnter(base, s));
    sc := AfterScan(env, base, Entries(l), s2);
    s3 := AfterCopies(env, base, sc.queued, sc.st);
  }

  /** Descending into one more directory. */
  lemma SubdirsSnoc(env: Env, base: Path, l: Listing, ds: seq<RemoteEntry>, d: RemoteEntry, s: WalkState)
    requires forall e :: e in ds ==> e.Dir? && e in Entries(l)
    requires d.Dir? && d in Entries(l)
    ensures AfterSubdirs(env, base, l, ds + [d], s)
         == AfterBackupDir(env, base + [d.name], d.listing, AfterSubdirs(env, base, l, ds, s))
  {
    assert (ds + [d])[..|ds|] == ds;
  }

  /** The directories among the first k entries are the first ones among
      all directories. */
  lemma DirsPrefix(es: seq<RemoteEntry>, k: nat)
    requires 0 < k <= |es|
    ensures Dirs(es[..k]) == Dirs(es[..k - 1]) + if es[k - 1].Dir? then [es[k - 1]] else []
    ensures forall d :: d in Dirs(es[..k]) ==> d in es
  {
    assert es[..k][..k - 1] == es[..k - 1];
  }

  /** The files among the first j + 1 entries: those among the first j,
      then the j-th entry if it is a file. */
  lemma FilesPrefix(es: seq<RemoteEntry>, j: nat)
    requires j < |es|
    ensures Files(es[..j + 1]) == Files(es[..j]) + if es[j].File? then [es[j]] else []
  {
    assert es[..j + 1][..j] == es[..j];
  }

  /** SubdirsUpTo grows by the j-th entry exactly when it is a directory. */
  lemma SubdirsUpToSnoc(l: Listing, j: nat)
    requires j < |Entries(l)|
    ensures var e := Entries(l)[j];
      SubdirsUpTo(l, j + 1) == SubdirsUpTo(l, j) + if e.Dir? then [e] else []
  {
    DirsPrefix(Entries(l), j + 1);
  }

  /** The directories reached through the first k entries. */
  function SubdirsUpTo(l: Listing, k: nat): (ds: seq<RemoteEntry>)
    requires k <= |Entries(l)|
    ensures forall d :: d in ds ==> d.Dir? && d in Entries(l)
  {
    var es := Entries(l);
    assert forall d :: d in es[..k] ==> d in es;
    Dirs(es[..k])
  }
}
