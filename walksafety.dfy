/** Which local entries a traversal may delete: an entry disappears only
    because the scan found it stale and deleted it to copy it again, or, in
    mirror mode, because the mirror pass of a directory above it swept it. So
    backup mode never deletes anything but the files it is about to copy
    again. */
module WalkSafety {
  import opened LocalFs
  import opened Remote
  import opened Reconcile
  import opened Walk

  /** The log t accounts for the disappearance of the local entry q. */
  ghost predicate Explained(env: Env, t: seq<Event>, q: Path) {
    Restage(q) in t || (env.mode == MirrorMode && exists d :: Mirror(d) in t && Inside(d, q))
  }

  /** From s to r the log only grows, and every local entry of s that r no
      longer has is accounted for by r's log. */
  ghost predicate Grows(env: Env, s: WalkState, r: WalkState) {
    s.log <= r.log && forall q :: q in s.local && q !in r.local ==> Explained(env, r.log, q)
  }

  lemma ExplainedLater(env: Env, t: seq<Event>, u: seq<Event>, q: Path)
    requires t <= u && Explained(env, t, q)
    ensures Explained(env, u, q)
  {
    forall e | e in t ensures e in u {
      var i :| 0 <= i < |t| && t[i] == e;
      assert u[i] == e;
    }
  }

  lemma {:induction false} GrowsTrans(env: Env, a: WalkState, b: WalkState, c: WalkState)
    requires Grows(env, a, b) && Grows(env, b, c)
    ensures Grows(env, a, c)
  {
    assert c.log[..|b.log|][..|a.log|] == c.log[..|a.log|];
    forall q | q in a.local && q !in c.local
      ensures Explained(env, c.log, q)
    {
      if q !in b.local {
        ExplainedLater(env, b.log, c.log, q);
      }
    }
  }

  lemma PrefixOfAppend(t: seq<Event>, u: seq<Event>)
    ensures t <= t + u
  {
    assert (t + u)[..|t|] == t;
  }

  lemma EnterGrows(env: Env, base: Path, s: WalkState)
    ensures Grows(env, s, AfterEnter(base, s))
  {
    PrefixOfAppend(s.log, [Enter(base)]);
  }

  /** The mirror pass deletes only below the directory it is logged for. */
  lemma MirrorPassGrows(env: Env, base: Path, es: seq<RemoteEntry>, s: WalkState)
    ensures Grows(env, s, AfterMirrorPass(env, base, es, s))
  {
    var r := AfterMirrorPass(env, base, es, s);
    if env.mode == MirrorMode {
      PrefixOfAppend(s.log, [Mirror(base)]);
      assert Mirror(base) in r.log;
    }
  }

  /** The scan deletes only the files it queues, each logged as restaged. */
  lemma {:induction false} ScanGrows(env: Env, base: Path, es: seq<RemoteEntry>, s: WalkState)
    ensures Grows(env, s, AfterScan(env, base, es, s).st)
  {
    if es != [] {
      var front := es[..|es| - 1];
      var e := es[|es| - 1];
      ScanGrows(env, base, front, s);
      var prev := AfterScan(env, base, front, s).st;
      var next := AfterScan(env, base, es, s).st;
      if e.File? {
        var p := base + [e.name];
        if next.log != prev.log {
          PrefixOfAppend(prev.log, [Restage(p)]);
          assert next.log == prev.log + [Restage(p)];
          assert Restage(p) in next.log;
          assert forall q :: q in prev.local && q !in next.local ==> q == p;
        }
      }
      GrowsTrans(env, s, prev, next);
    }
  }

  /** The copies delete nothing. */
  lemma CopiesGrow(env: Env, base: Path, fs: seq<RemoteEntry>, s: WalkState)
    requires forall f :: f in fs ==> f.File?
    ensures Grows(env, s, AfterCopies(env, base, fs, s))
  {
    PrefixOfAppend(s.log, Fetches(base, fs));
  }

  /** Everything one backupDir call deletes, the directories below it
      included, is accounted for by its log. */
  lemma {:induction false} BackupDirGrows(env: Env, base: Path, l: Listing, s: WalkState)
    ensures Grows(env, s, AfterBackupDir(env, base, l, s))
    decreases l, 1, 0
  {
    var es := Entries(l);
    var s1 := AfterEnter(base, s);
    var s2, sc, s3 := Stages(env, base, l, s);
    EnterGrows(env, base, s);
    MirrorPassGrows(env, base, es, s1);
    GrowsTrans(env, s, s1, s2);
    ScanGrows(env, base, es, s2);
    GrowsTrans(env, s, s2, sc.st);
    CopiesGrow(env, base, sc.queued, sc.st);
    GrowsTrans(env, s, sc.st, s3);
    assert es[..|es|] == es;
    SubdirsGrow(env, base, l, |es|, s3);
    GrowsTrans(env, s, s3, AfterBackupDir(env, base, l, s));
  }

  lemma {:induction false} SubdirsGrow(env: Env, base: Path, l: Listing, k: nat, s: WalkState)
    requires k <= |Entries(l)|
    ensures Grows(env, s, AfterSubdirs(env, base, l, SubdirsUpTo(l, k), s))
    decreases l, 0, k
  {
    var es := Entries(l);
    if k > 0 {
      var e := es[k - 1];
      assert e in l.entries;
      DirsPrefix(es, k);
      var ds := SubdirsUpTo(l, k - 1);
      var prev := AfterSubdirs(env, base, l, ds, s);
      SubdirsGrow(env, base, l, k - 1, s);
      if e.Dir? {
        SubdirsSnoc(env, base, l, ds, e, s);
        assert SubdirsUpTo(l, k) == ds + [e];
        BackupDirGrows(env, base + [e.name], e.listing, prev);
        GrowsTrans(env, s, prev, AfterBackupDir(env, base + [e.name], e.listing, prev));
      } else {
        assert SubdirsUpTo(l, k) == ds;
      }
    } else {
      assert SubdirsUpTo(l, k) == [];
    }
  }

  /** In backup mode the only local entries that disappear are the stale
      files the walk deletes right before copying them again. */
  lemma BackupModeDeletesOnlyRestaged(env: Env, base: Path, l: Listing, s: WalkState)
    requires env.mode == BackupMode
    ensures var r := AfterBackupDir(env, base, l, s);
      forall q :: q in s.local && q !in r.local ==> Restage(q) in r.log
  {
    BackupDirGrows(env, base, l, s);
  }

  /** In mirror mode, a directory whose remote listing fails is taken as
      empty: when the host lets the pass read and delete everything in it,
      the pass leaves it without a single child. */
  lemma FailedListingEmptiesMirror(env: Env, base: Path, s: WalkState)
    requires env.mode == MirrorMode
    requires ReadDirOk(s.local, env.denied, base) && Clear(s.local, env.denied, base)
    ensures Children(AfterMirrorPass(env, base, Entries(ListFailed), s).local, base) == {}
  {
    MirrorLeavesOnlyListed(s.local, env.denied, base, Names(Entries(ListFailed)));
  }
}
