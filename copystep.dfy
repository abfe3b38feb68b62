/** LocalCreateDir and LocalCopyFile: the effect of copying one remote file
    into the local tree. */
module CopyStep {
  import opened LocalFs
  import opened Remote
  import opened Compare

  /** LocalCreateDir: os.MkdirAll, but only when os.Stat says the directory
      does not exist. */
  function AfterCreateDir(m: Tree, denied: set<Path>, clock: Time, d: Path): (r: Tree)
    ensures forall q :: q in m ==> q in r && r[q] == m[q]
    ensures forall q :: q in r && q !in m ==> Under(q, d) && r[q].isDir
  {
    if Stat(m, denied, d).NotExist? then MkdirAll(m, denied, clock, d).0 else m
  }

  /** The copy of f into directory base runs to its end: the stream delivers
      everything and the local file can be opened once the directory has been
      created (os.Chtimes then succeeds too, since the path is not refused). */
  predicate CopySucceeds(m: Tree, denied: set<Path>, clock: Time, base: Path, f: RemoteEntry)
    requires f.File?
  {
    f.stream.Complete? && OpenOk(AfterCreateDir(m, denied, clock, base), denied, base + [f.name])
  }

  /** LocalCopyFile: create the directory, open the remote stream, open the
      local file, copy the bytes, then stamp the file with the remote mtime.
      The first step that fails ends the copy and leaves what was done. */
  function AfterCopyFile(m: Tree, denied: set<Path>, clock: Time, base: Path, f: RemoteEntry): (r: Tree)
    requires f.File?
    ensures forall q :: q in m ==> q in r
    ensures forall q :: q in m && q != base + [f.name] ==> r[q] == m[q]
    ensures forall q :: q in r && q !in m && q != base + [f.name] ==> Under(q, base) && r[q].isDir
    ensures CopySucceeds(m, denied, clock, base, f) ==>
      var p := base + [f.name];
      && p in r && !r[p].isDir && r[p].mtime == f.mtime
      && r[p].size == Max(if p in m then m[p].size else 0, f.stream.length)
  {
    var p := base + [f.name];
    var m1 := AfterCreateDir(m, denied, clock, base);
    assert p in m1 <==> p in m;
    if f.stream.Unreadable? || !OpenOk(m1, denied, p) then m1
    else
      var m2 := Open(m1, clock, p);
      var n := if f.stream.Broken? then f.stream.written else f.stream.length;
      var m3 := Write(m2, clock, p, n);
      if f.stream.Broken? then m3 else Chtimes(m3, p, f.mtime)
  }

  /** After a copy that ran to its end, with a stream of exactly the remote
      size, the file is no longer stale: the next checkNeedToCopy on the same
      remote metadata says no, which is what keeps a second run from copying
      it again. */
  lemma CopyRefreshes(m: Tree, denied: set<Path>, clock: Time, base: Path, f: RemoteEntry)
    requires f.File? && CopySucceeds(m, denied, clock, base, f)
    requires f.stream.length == f.size
    requires base + [f.name] in m ==> m[base + [f.name]].size <= f.size
    ensures !CheckNeedToCopy(Stat(AfterCopyFile(m, denied, clock, base, f), denied, base + [f.name]), f)
  {
  }

  /** MkdirAll succeeds when no path on the way is refused or a file. */
  lemma {:induction false} MkdirAllSucceeds(m: Tree, denied: set<Path>, clock: Time, p: Path)
    requires forall i :: 0 <= i <= |p| ==> p[..i] !in denied && (p[..i] in m ==> m[p[..i]].isDir)
    ensures MkdirAll(m, denied, clock, p).1
    decreases |p|
  {
    assert p[..|p|] == p;
    if p !in m && p != [] {
      var parent := p[..|p| - 1];
      forall i | 0 <= i <= |parent|
        ensures parent[..i] !in denied && (parent[..i] in m ==> m[parent[..i]].isDir)
      {
        assert parent[..i] == p[..i];
      }
      MkdirAllSucceeds(m, denied, clock, parent);
    }
  }

  /** A copy with a complete stream succeeds when nothing on the way to the
      file is refused, nothing on the way to its directory is a file, and the
      file's path is not a directory. */
  lemma CopySucceedsWhenPathFree(m: Tree, denied: set<Path>, clock: Time, base: Path, f: RemoteEntry)
    requires f.File? && f.stream.Complete?
    requires forall i :: 0 <= i <= |base| ==> base[..i] !in denied && (base[..i] in m ==> m[base[..i]].isDir)
    requires base + [f.name] !in denied
    requires base + [f.name] in m ==> !m[base + [f.name]].isDir
    ensures CopySucceeds(m, denied, clock, base, f)
  {
    var p := base + [f.name];
    assert base[..|base|] == base;
    assert p[..|p| - 1] == base;
    if Stat(m, denied, base).NotExist? {
      MkdirAllSucceeds(m, denied, clock, base);
    }
    var m1 := AfterCreateDir(m, denied, clock, base);
    assert p in m1 <==> p in m;
    forall i | 0 <= i < |p| && p[..i] in m1 ensures m1[p[..i]].isDir {
      assert p[..i] == base[..i];
    }
  }
}
