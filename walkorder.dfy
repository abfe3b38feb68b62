/** The order of the effects of one backupDir call: it enters its
    directory, runs the mirror pass (in mirror mode), deletes the stale files
    during the scan, copies them, and only after the last copy works on its
    subdirectories, every later effect lying inside one of them. */
module WalkOrder {
  import opened LocalFs
  import opened Remote
  import opened Reconcile
  import opened Walk

  /** The path an effect is on. */
  function EventPath(ev: Event): Path {
    match ev
    case Enter(d) => d
    case Mirror(d) => d
    case Restage(p) => p
    case Fetch(p) => p
  }

  /** Every effect of t is on base or below it. */
  predicate AllUnder(base: Path, t: seq<Event>) {
    forall i :: 0 <= i < |t| ==> Under(base, EventPath(t[i]))
  }

  /** Every effect of t is on one of the directories ds of base or below
      it. */
  predicate AllInSubdirs(base: Path, ds: seq<RemoteEntry>, t: seq<Event>) {
    forall i :: 0 <= i < |t| ==> exists d :: d in ds && Under(base + [d.name], EventPath(t[i]))
  }

  lemma AllUnderAppend(base: Path, a: seq<Event>, b: seq<Event>)
    requires AllUnder(base, a) && AllUnder(base, b)
    ensures AllUnder(base, a + b)
  {
    forall i | 0 <= i < |a + b| ensures Under(base, EventPath((a + b)[i])) {
      if i < |a| { assert (a + b)[i] == a[i]; } else { assert (a + b)[i] == b[i - |a|]; }
    }
  }

  /** The deletions and the copies of files of base are on paths below
      base. */
  lemma {:induction false} FileEventsUnder(base: Path, fs: seq<RemoteEntry>)
    ensures AllUnder(base, Restages(base, fs)) && AllUnder(base, Fetches(base, fs))
    decreases |fs|
  {
    if fs != [] {
      var p := base + [fs[|fs| - 1].name];
      assert p[..|base|] == base;
      FileEventsUnder(base, fs[..|fs| - 1]);
      AllUnderAppend(base, Restages(base, fs[..|fs| - 1]), [Restage(p)]);
      AllUnderAppend(base, Fetches(base, fs[..|fs| - 1]), [Fetch(p)]);
    }
  }

  /** Appending effects below base to a log. */
  lemma AppendUnder(base: Path, a: seq<Event>, u: seq<Event>)
    requires AllUnder(base, u)
    ensures a <= a + u && AllUnder(base, (a + u)[|a|..])
  {
    assert (a + u)[|a|..] == u;
    assert (a + u)[..|a|] == a;
  }

  /** Two stretches of a growing log, both below base. */
  lemma UnderTrans(base: Path, a: seq<Event>, b: seq<Event>, c: seq<Event>)
    requires a <= b && b <= c && AllUnder(base, b[|a|..]) && AllUnder(base, c[|b|..])
    ensures a <= c && AllUnder(base, c[|a|..])
  {
    assert c[..|b|][..|a|] == c[..|a|];
    assert c[|a|..] == b[|a|..] + c[|b|..];
    AllUnderAppend(base, b[|a|..], c[|b|..]);
  }

  /** One more subdirectory's stretch of the log. */
  lemma InSubdirsStep(base: Path, ds: seq<RemoteEntry>, e: RemoteEntry, a: seq<Event>, b: seq<Event>, c: seq<Event>)
    requires a <= b && b <= c
    requires AllInSubdirs(base, ds, b[|a|..]) && AllUnder(base + [e.name], c[|b|..])
    ensures a <= c && AllInSubdirs(base, ds + [e], c[|a|..])
  {
    assert c[..|b|][..|a|] == c[..|a|];
    var t := c[|a|..];
    assert t == b[|a|..] + c[|b|..];
    forall i | 0 <= i < |t| ensures exists d :: d in ds + [e] && Under(base + [d.name], EventPath(t[i])) {
      if i < |b| - |a| {
        assert t[i] == b[|a|..][i];
        var d :| d in ds && Under(base + [d.name], EventPath(b[|a|..][i]));
        assert d in ds + [e];
      } else {
        assert t[i] == c[|b|..][i - (|b| - |a|)];
        assert e in ds + [e];
      }
    }
  }

  /** A stretch of the log inside the subdirectories of base is below
      base. */
  lemma InSubdirsUnder(base: Path, ds: seq<RemoteEntry>, t: seq<Event>)
    requires AllInSubdirs(base, ds, t)
    ensures AllUnder(base, t)
  {
    forall i | 0 <= i < |t| ensures Under(base, EventPath(t[i])) {
      var d :| d in ds && Under(base + [d.name], EventPath(t[i]));
      UnderChild(base, d.name, EventPath(t[i]));
    }
  }

  /** The log up to the descent: the log before the call, then Enter(base),
      Mirror(base) in mirror mode, the deletions of the queued files and
      their copies, in this order. */
  lemma BackupDirHead(env: Env, base: Path, es: seq<RemoteEntry>, s: WalkState)
    ensures var sc := AfterScan(env, base, es, AfterMirrorPass(env, base, es, AfterEnter(base, s)));
      AfterCopies(env, base, sc.queued, sc.st).log
        == s.log + [Enter(base)] + (if env.mode == MirrorMode then [Mirror(base)] else [])
           + Restages(base, sc.queued) + Fetches(base, sc.queued)
  {
    var s1 := AfterEnter(base, s);
    var s2 := AfterMirrorPass(env, base, es, s1);
    ScanAccounts(env, base, es, s2);
    if env.mode == BackupMode {
      assert s2.log == s1.log + [];
    }
  }

  /** Every effect of a backupDir call is on its directory or below it. */
  lemma {:induction false} BackupDirConfined(env: Env, base: Path, l: Listing, s: WalkState)
    ensures var t := AfterBackupDir(env, base, l, s).log;
      s.log <= t && AllUnder(base, t[|s.log|..])
    decreases l, 1, 0
  {
    var es := Entries(l);
    var s2, sc, s3 := Stages(env, base, l, s);
    var t := AfterBackupDir(env, base, l, s).log;
    HeadUnder(env, base, es, s);
    assert es[..|es|] == es;
    SubdirsConfined(env, base, l, |es|, s3);
    InSubdirsUnder(base, Dirs(es), t[|s3.log|..]);
    UnderTrans(base, s.log, s3.log, t);
  }

  /** The effects before the descent are on base or below it. */
  lemma HeadUnder(env: Env, base: Path, es: seq<RemoteEntry>, s: WalkState)
    ensures var sc := AfterScan(env, base, es, AfterMirrorPass(env, base, es, AfterEnter(base, s)));
      var t := AfterCopies(env, base, sc.queued, sc.st).log;
      s.log <= t && AllUnder(base, t[|s.log|..])
  {
    var s1 := AfterEnter(base, s);
    var s2 := AfterMirrorPass(env, base, es, s1);
    var sc := AfterScan(env, base, es, s2);
    var s3 := AfterCopies(env, base, sc.queued, sc.st);
    ScanAccounts(env, base, es, s2);
    FileEventsUnder(base, sc.queued);
    assert base[..|base|] == base;
    AppendUnder(base, s.log, [Enter(base)]);
    if env.mode == MirrorMode {
      AppendUnder(base, s1.log, [Mirror(base)]);
      UnderTrans(base, s.log, s1.log, s2.log);
    }
    AppendUnder(base, s2.log, Restages(base, sc.queued));
    UnderTrans(base, s.log, s2.log, sc.st.log);
    AppendUnder(base, sc.st.log, Fetches(base, sc.queued));
    UnderTrans(base, s.log, sc.st.log, s3.log);
  }

  /** The descent into the first k entries of l works only inside the
      directories among them. */
  lemma {:induction false} SubdirsConfined(env: Env, base: Path, l: Listing, k: nat, s: WalkState)
    requires k <= |Entries(l)|
    ensures var t := AfterSubdirs(env, base, l, SubdirsUpTo(l, k), s).log;
      s.log <= t && AllInSubdirs(base, SubdirsUpTo(l, k), t[|s.log|..])
    decreases l, 0, k
  {
    var es := Entries(l);
    if k > 0 {
      var e := es[k - 1];
      assert e in l.entries;
      DirsPrefix(es, k);
      var ds := SubdirsUpTo(l, k - 1);
      var prev := AfterSubdirs(env, base, l, ds, s);
      SubdirsConfined(env, base, l, k - 1, s);
      if e.Dir? {
        SubdirsSnoc(env, base, l, ds, e, s);
        assert SubdirsUpTo(l, k) == ds + [e];
        BackupDirConfined(env, base + [e.name], e.listing, prev);
        InSubdirsStep(base, ds, e, s.log, prev.log, AfterBackupDir(env, base + [e.name], e.listing, prev).log);
      } else {
        assert SubdirsUpTo(l, k) == ds;
      }
    } else {
      assert SubdirsUpTo(l, k) == [];
      assert s.log[|s.log|..] == [];
    }
  }

  /** backupDir(base) first enters base, then (in mirror mode) runs the
      mirror pass, then deletes the stale files in listing order during the
      scan, then copies them in the same order, and every effect after the
      last copy lies inside one of the subdirectories of the listing. */
  lemma BackupDirLogOrder(env: Env, base: Path, l: Listing, s: WalkState)
    ensures var es := Entries(l);
      var sc := AfterScan(env, base, es, AfterMirrorPass(env, base, es, AfterEnter(base, s)));
      var head := s.log + [Enter(base)] + (if env.mode == MirrorMode then [Mirror(base)] else [])
                  + Restages(base, sc.queued) + Fetches(base, sc.queued);
      var t := AfterBackupDir(env, base, l, s).log;
      head <= t && AllInSubdirs(base, Dirs(es), t[|head|..])
  {
    var es := Entries(l);
    var s2, sc, s3 := Stages(env, base, l, s);
    BackupDirHead(env, base, es, s);
    assert es[..|es|] == es;
    SubdirsConfined(env, base, l, |es|, s3);
  }
}
