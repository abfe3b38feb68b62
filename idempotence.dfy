/** A run over a local tree that already mirrors the remote tree: the walk
    deletes nothing, copies nothing and leaves the local tree as it found it,
    in either mode. */
module Idempotence {
  import opened LocalFs
  import opened Remote
  import opened Compare
  import opened Reconcile
  import opened Walk

  /** The local tree m mirrors the remote listing l of base for the given
      mode: checkNeedToCopy finds every remote file below base up to date,
      and, in mirror mode only, every local entry strictly below a remote
      directory has a name its listing holds one level down. Backup mode
      keeps local entries the remote tree lacks, so it does not ask for
      that. */
  predicate Mirrored(mode: Mode, m: Tree, denied: set<Path>, base: Path, l: Listing)
    decreases l
  {
    && (mode == MirrorMode ==> forall q :: q in m && Inside(base, q) ==> q[|base|] in Names(Entries(l)))
    && (l.Listed? ==> forall e :: e in l.entries ==>
         && (e.File? ==> !CheckNeedToCopy(Stat(m, denied, base + [e.name]), e))
         && (e.Dir? ==> Mirrored(mode, m, denied, base + [e.name], e.listing)))
  }

  /** The mirror pass over a directory whose local entries are all listed
      deletes nothing. */
  lemma MirrorPassKeeps(m: Tree, denied: set<Path>, dir: Path, names: set<Name>)
    requires forall q :: q in m && Inside(dir, q) ==> q[|dir|] in names
    ensures Reconciled(m, denied, dir, names) == m
  {
    var r := Reconciled(m, denied, dir, names);
    assert r.Keys == m.Keys;
  }

  /** backupDir over a listing the local tree mirrors changes neither the
      local tree nor the number of files backed up. */
  lemma {:induction false} MirroredWalkIdle(env: Env, base: Path, l: Listing, s: WalkState)
    requires Mirrored(env.mode, s.local, env.denied, base, l)
    ensures var r := AfterBackupDir(env, base, l, s);
      r.local == s.local && r.copies == s.copies
    decreases l, 1, 0
  {
    var es := Entries(l);
    var s2, sc, s3 := Stages(env, base, l, s);
    if env.mode == MirrorMode {
      MirrorPassKeeps(s.local, env.denied, base, Names(es));
    }
    assert s2.local == s.local && s2.copies == s.copies;
    ScanIdle(env, base, es, s2);
    assert s3 == sc.st;
    assert es[..|es|] == es;
    SubdirsIdle(env, base, l, |es|, s3);
  }

  lemma {:induction false} SubdirsIdle(env: Env, base: Path, l: Listing, k: nat, s: WalkState)
    requires k <= |Entries(l)|
    requires Mirrored(env.mode, s.local, env.denied, base, l)
    ensures var r := AfterSubdirs(env, base, l, SubdirsUpTo(l, k), s);
      r.local == s.local && r.copies == s.copies
    decreases l, 0, k
  {
    var es := Entries(l);
    if k > 0 {
      var e := es[k - 1];
      assert e in l.entries;
      DirsPrefix(es, k);
      var ds := SubdirsUpTo(l, k - 1);
      SubdirsIdle(env, base, l, k - 1, s);
      if e.Dir? {
        var prev := AfterSubdirs(env, base, l, ds, s);
        SubdirsSnoc(env, base, l, ds, e, s);
        assert SubdirsUpTo(l, k) == ds + [e];
        MirroredWalkIdle(env, base + [e.name], e.listing, prev);
      } else {
        assert SubdirsUpTo(l, k) == ds;
      }
    } else {
      assert SubdirsUpTo(l, k) == [];
    }
  }
}
