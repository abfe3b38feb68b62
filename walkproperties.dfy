/** What a whole traversal does: the counters it reports, the order in which
    it visits the remote directories, and which local entries it may
    delete. */
module WalkProperties {
  import opened LocalFs
  import opened Remote
  import opened Compare
  import opened Reconcile
  import opened CopyStep
  import opened Walk

  /** backupDir counts every directory of the remote tree once (one per
      call) and every file once, whether it is skipped or copied. */
  lemma {:induction false} BackupDirCounts(env: Env, base: Path, l: Listing, s: WalkState)
    ensures AfterBackupDir(env, base, l, s).dirs == s.dirs + DirCount(l)
    ensures AfterBackupDir(env, base, l, s).files == s.files + FileCount(l)
    decreases l, 1, 0
  {
    var es := Entries(l);
    var s2, sc, s3 := Stages(env, base, l, s);
    ScanAccounts(env, base, es, s2);
    assert es[..|es|] == es;
    SubdirsCounts(env, base, l, |es|, s3);
  }

  /** The counters after the descent into the directories among the first
      k entries of l: every directory below them is counted, and every file
      below them or among them (the latter by the scan). */
  predicate CountedUpTo(env: Env, base: Path, l: Listing, k: nat, s: WalkState)
    requires k <= |Entries(l)|
  {
    && AfterSubdirs(env, base, l, SubdirsUpTo(l, k), s).dirs == s.dirs + DirCountIn(l, k)
    && AfterSubdirs(env, base, l, SubdirsUpTo(l, k), s).files + |Files(Entries(l)[..k])|
       == s.files + FileCountIn(l, k)
  }

  lemma {:induction false} SubdirsCounts(env: Env, base: Path, l: Listing, k: nat, s: WalkState)
    requires k <= |Entries(l)|
    ensures CountedUpTo(env, base, l, k, s)
    decreases l, 0, k, 1
  {
    if k > 0 {
      SubdirCounts(env, base, l, k - 1, s);
    } else {
      assert SubdirsUpTo(l, k) == [];
      assert Files(Entries(l)[..k]) == [];
    }
  }

  /** The entry at index j of the listing: a directory adds the counts of
      its tree, a file is counted by the scan and adds nothing here. */
  lemma {:induction false} SubdirCounts(env: Env, base: Path, l: Listing, j: nat, s: WalkState)
    requires j < |Entries(l)|
    ensures CountedUpTo(env, base, l, j + 1, s)
    decreases l, 0, j, 2
  {
    SubdirsCounts(env, base, l, j, s);
    var es := Entries(l);
    var e := es[j];
    assert e in l.entries;
    SubdirsUpToSnoc(l, j);
    FilesPrefix(es, j);
    var ds := SubdirsUpTo(l, j);
    if e.Dir? {
      assert SubdirsUpTo(l, j + 1) == ds + [e];
      assert DirCountIn(l, j + 1) == DirCountIn(l, j) + DirCount(e.listing);
      assert FileCountIn(l, j + 1) == FileCountIn(l, j) + FileCount(e.listing);
      SubdirSnocCounts(env, base, l, ds, e, s);
    } else {
      assert SubdirsUpTo(l, j + 1) == ds;
      assert DirCountIn(l, j + 1) == DirCountIn(l, j);
      assert FileCountIn(l, j + 1) == FileCountIn(l, j) + 1;
    }
  }

  /** Descending into one more directory adds the counts of its tree. */
  lemma {:induction false} SubdirSnocCounts(env: Env, base: Path, l: Listing, ds: seq<RemoteEntry>, e: RemoteEntry, s: WalkState)
    requires forall d :: d in ds ==> d.Dir? && d in Entries(l)
    requires e.Dir? && e in Entries(l)
    ensures var prev := AfterSubdirs(env, base, l, ds, s);
      && AfterSubdirs(env, base, l, ds + [e], s).dirs == prev.dirs + DirCount(e.listing)
      && AfterSubdirs(env, base, l, ds + [e], s).files == prev.files + FileCount(e.listing)
    decreases l, 0, 0, 0
  {
    assert e in l.entries;
    SubdirsSnoc(env, base, l, ds, e, s);
    BackupDirCounts(env, base + [e.name], e.listing, AfterSubdirs(env, base, l, ds, s));
  }

  /** The directories named by the Enter events of a log, in order. */
  function Visits(t: seq<Event>): seq<Path> {
    if t == [] then [] else Visits(t[..|t| - 1]) + if t[|t| - 1].Enter? then [t[|t| - 1].dir] else []
  }

  lemma {:induction false} VisitsAppend(a: seq<Event>, b: seq<Event>)
    ensures Visits(a + b) == Visits(a) + Visits(b)
    decreases |b|
  {
    if b != [] {
      var front, last := b[..|b| - 1], b[|b| - 1];
      assert (a + b)[..|a + b| - 1] == a + front;
      assert (a + b)[|a + b| - 1] == last;
      VisitsAppend(a, front);
      var v := if last.Enter? then [last.dir] else [];
      calc {
        Visits(a + b);
        Visits(a + front) + v;
        (Visits(a) + Visits(front)) + v;
        Visits(a) + (Visits(front) + v);
        Visits(a) + Visits(b);
      }
    } else {
      assert a + b == a;
    }
  }

  lemma {:induction false} VisitsOfRestagesAndFetches(base: Path, fs: seq<RemoteEntry>)
    ensures Visits(Restages(base, fs)) == [] && Visits(Fetches(base, fs)) == []
    decreases |fs|
  {
    if fs != [] {
      VisitsOfRestagesAndFetches(base, fs[..|fs| - 1]);
      VisitsAppend(Restages(base, fs[..|fs| - 1]), [Restage(base + [fs[|fs| - 1].name])]);
      VisitsAppend(Fetches(base, fs[..|fs| - 1]), [Fetch(base + [fs[|fs| - 1].name])]);
    }
  }

  /** The walk enters the remote directories depth first, each before the
      directories below it, siblings in listing order, each at its parent's
      path extended by its name. */
  lemma {:induction false} BackupDirVisitsPreorder(env: Env, base: Path, l: Listing, s: WalkState)
    ensures Visits(AfterBackupDir(env, base, l, s).log) == Visits(s.log) + Preorder(base, l)
    decreases l, 1, 0
  {
    var es := Entries(l);
    var s2, sc, s3 := Stages(env, base, l, s);
    StagesVisitOnlyBase(env, base, es, s);
    assert es[..|es|] == es;
    assert SubdirsUpTo(l, |es|) == Dirs(es);
    SubdirsVisitsPreorder(env, base, l, |es|, s3);
    AppendAssoc(Visits(s.log), [base], PreorderIn(base, l, |es|));
  }

  /** Before its descent, backupDir(base) enters base and no other
      directory. */
  lemma StagesVisitOnlyBase(env: Env, base: Path, es: seq<RemoteEntry>, s: WalkState)
    ensures var sc := AfterScan(env, base, es, AfterMirrorPass(env, base, es, AfterEnter(base, s)));
      Visits(AfterCopies(env, base, sc.queued, sc.st).log) == Visits(s.log) + [base]
  {
    var s1 := AfterEnter(base, s);
    var s2 := AfterMirrorPass(env, base, es, s1);
    var sc := AfterScan(env, base, es, s2);
    ScanAccounts(env, base, es, s2);
    var s3 := AfterCopies(env, base, sc.queued, sc.st);
    VisitsAppend(s.log, [Enter(base)]);
    assert Visits([Enter(base)]) == [base];
    if env.mode == MirrorMode {
      VisitsAppend(s1.log, [Mirror(base)]);
      assert Visits([Mirror(base)]) == [];
    }
    assert Visits(s2.log) == Visits(s.log) + [base];
    VisitsOfRestagesAndFetches(base, sc.queued);
    VisitsAppend(s2.log, Restages(base, sc.queued));
    VisitsAppend(sc.st.log, Fetches(base, sc.queued));
  }

  /** The visits after the descent into the directories among the first k
      entries of l: the preorders of their trees, in listing order. */
  predicate VisitedUpTo(env: Env, base: Path, l: Listing, k: nat, s: WalkState)
    requires k <= |Entries(l)|
  {
    Visits(AfterSubdirs(env, base, l, SubdirsUpTo(l, k), s).log) == Visits(s.log) + PreorderIn(base, l, k)
  }

  lemma {:induction false} SubdirsVisitsPreorder(env: Env, base: Path, l: Listing, k: nat, s: WalkState)
    requires k <= |Entries(l)|
    ensures VisitedUpTo(env, base, l, k, s)
    decreases l, 0, k, 1
  {
    if k > 0 {
      SubdirVisitsPreorder(env, base, l, k - 1, s);
    } else {
      assert SubdirsUpTo(l, k) == [];
      assert Visits(s.log) + [] == Visits(s.log);
    }
  }

  /** The entry at index j of the listing: a directory adds its own
      preorder to the visits, a file adds nothing. */
  lemma {:induction false} SubdirVisitsPreorder(env: Env, base: Path, l: Listing, j: nat, s: WalkState)
    requires j < |Entries(l)|
    ensures VisitedUpTo(env, base, l, j + 1, s)
    decreases l, 0, j, 2
  {
    SubdirsVisitsPreorder(env, base, l, j, s);
    var es := Entries(l);
    var e := es[j];
    assert e in l.entries;
    SubdirsUpToSnoc(l, j);
    var ds := SubdirsUpTo(l, j);
    var before := PreorderIn(base, l, j);
    if e.Dir? {
      var sub := Preorder(base + [e.name], e.listing);
      assert SubdirsUpTo(l, j + 1) == ds + [e];
      assert PreorderIn(base, l, j + 1) == before + sub;
      SubdirSnocVisits(env, base, l, ds, e, s);
      AppendAssoc(Visits(s.log), before, sub);
    } else {
      assert SubdirsUpTo(l, j + 1) == ds;
      assert PreorderIn(base, l, j + 1) == before + [];
    }
  }

  /** Descending into one more directory adds the preorder of its tree. */
  lemma {:induction false} SubdirSnocVisits(env: Env, base: Path, l: Listing, ds: seq<RemoteEntry>, e: RemoteEntry, s: WalkState)
    requires forall d :: d in ds ==> d.Dir? && d in Entries(l)
    requires e.Dir? && e in Entries(l)
    ensures Visits(AfterSubdirs(env, base, l, ds + [e], s).log)
         == Visits(AfterSubdirs(env, base, l, ds, s).log) + Preorder(base + [e.name], e.listing)
    decreases l, 0, 0, 0
  {
    assert e in l.entries;
    SubdirsSnoc(env, base, l, ds, e, s);
    BackupDirVisitsPreorder(env, base + [e.name], e.listing, AfterSubdirs(env, base, l, ds, s));
  }

  lemma AppendAssoc<T>(a: seq<T>, b: seq<T>, c: seq<T>)
    ensures (a + b) + c == a + (b + c)
  {
  }
}
