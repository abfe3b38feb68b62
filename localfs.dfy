/** The local file system the backup writes into, seen as a map from paths
    below the configured target directory to entries. The target directory
    itself is the empty path. Two things of the host are parameters: the set
    of paths the host refuses to touch (every operation on them fails with an
    error other than "does not exist", as for a permission problem), and the
    time stamp the host gives to files it writes during the run. */
module LocalFs {

  type Name = string

  /** A path as its sequence of name segments, relative to the target root. */
  type Path = seq<Name>

  /** A time stamp in nanoseconds since the Unix epoch. */
  type Time = int

  datatype Entry = Entry(isDir: bool, size: nat, mtime: Time)

  type Tree = map<Path, Entry>

  /** What os.Stat reports for a path. */
  datatype StatResult = NotExist | OtherError | Found(info: Entry)

  /** q is p or lies below p. */
  predicate Under(p: Path, q: Path) {
    |p| <= |q| && q[..|p|] == p
  }

  /** q lies strictly below dir. */
  predicate Inside(dir: Path, q: Path) {
    |dir| < |q| && q[..|dir|] == dir
  }

  /** Some proper ancestor of p is a file, so the host cannot resolve p
      (ENOTDIR, which is not "does not exist"). */
  predicate BelowFile(m: Tree, p: Path) {
    exists i :: 0 <= i < |p| && p[..i] in m && !m[p[..i]].isDir
  }

  /** os.Stat: a refused path, or one below a file, fails with an error other
      than "does not exist". */
  function Stat(m: Tree, denied: set<Path>, p: Path): (r: StatResult)
    ensures r.NotExist? <==> p !in denied && !BelowFile(m, p) && p !in m
    ensures r.Found? <==> p !in denied && !BelowFile(m, p) && p in m
    ensures r.Found? ==> r.info == m[p]
  {
    if p in denied || BelowFile(m, p) then OtherError
    else if p in m then Found(m[p])
    else NotExist
  }

  /** os.Stat of p looks only at p and its ancestors. */
  lemma StatSame(m: Tree, m2: Tree, denied: set<Path>, p: Path)
    requires p in m <==> p in m2
    requires p in m ==> m2[p] == m[p]
    requires forall i :: 0 <= i < |p| ==> (p[..i] in m <==> p[..i] in m2)
    requires forall i :: 0 <= i < |p| && p[..i] in m ==> m2[p[..i]] == m[p[..i]]
    ensures Stat(m2, denied, p) == Stat(m, denied, p)
  {
    assert BelowFile(m, p) == BelowFile(m2, p);
  }

  /** The names of the entries one level below dir. */
  function Children(m: Tree, dir: Path): set<Name> {
    set q | q in m && |q| == |dir| + 1 && q[..|dir|] == dir :: q[|dir|]
  }

  lemma ChildrenIn(m: Tree, dir: Path, c: Name)
    ensures c in Children(m, dir) <==> dir + [c] in m
  {
    if dir + [c] in m {
      assert (dir + [c])[..|dir|] == dir;
      assert (dir + [c])[|dir|] == c;
    }
    if c in Children(m, dir) {
      var q :| q in m && |q| == |dir| + 1 && q[..|dir|] == dir && q[|dir|] == c;
      assert q == dir + [c];
    }
  }

  /** os.ReadDir succeeds on an existing, readable directory. */
  predicate ReadDirOk(m: Tree, denied: set<Path>, dir: Path) {
    dir !in denied && dir in m && m[dir].isDir
  }

  predicate HasChild(m: Tree, p: Path) {
    exists q :: q in m && Inside(p, q)
  }

  predicate RemoveOk(m: Tree, denied: set<Path>, p: Path) {
    p !in denied && p in m && !(m[p].isDir && HasChild(m, p))
  }

  /** os.Remove: deletes a file or an empty directory; any other case fails
      and changes nothing. */
  function Remove(m: Tree, denied: set<Path>, p: Path): (r: Tree)
    ensures RemoveOk(m, denied, p) ==> r == m - {p}
    ensures !RemoveOk(m, denied, p) ==> r == m
  {
    if RemoveOk(m, denied, p) then m - {p} else m
  }

  /** No path at or below p is refused by the host, so os.RemoveAll can
      delete all of it. */
  predicate Clear(m: Tree, denied: set<Path>, p: Path) {
    forall r :: r in m && Under(p, r) ==> r !in denied
  }

  /** os.RemoveAll(p) deletes q: q is p or below it, nothing at or below q
      is refused, and no directory from p down to q's parent is refused (a
      refused directory cannot be opened, so what lies below it is never
      reached). */
  predicate Takes(m: Tree, denied: set<Path>, p: Path, q: Path) {
    Under(p, q) && Clear(m, denied, q) && forall i :: |p| <= i < |q| ==> q[..i] !in denied
  }

  /** os.RemoveAll: deletes p and everything below it, except what the host
      refuses, what lies below a refused directory, and the directories that
      still hold such a path. A path that does not exist is not an error. */
  function RemoveAll(m: Tree, denied: set<Path>, p: Path): (r: Tree)
    ensures forall q :: q in r <==> q in m && !Takes(m, denied, p, q)
    ensures forall q :: q in r ==> r[q] == m[q]
  {
    map q | q in m && !Takes(m, denied, p, q) :: m[q]
  }

  /** os.RemoveAll never reaches below a refused directory: everything
      inside it stays. */
  lemma RemoveAllStopsAtRefused(m: Tree, denied: set<Path>, p: Path, d: Path, q: Path)
    requires Under(p, d) && d in denied && Inside(d, q) && q in m
    ensures q in RemoveAll(m, denied, p) && RemoveAll(m, denied, p)[q] == m[q]
  {
    assert q[..|d|] == d;
  }

  /** os.MkdirAll: makes p and every missing parent a directory; it stops at
      the first path that is a file or that the host refuses. The directories
      it made before that remain. */
  function MkdirAll(m: Tree, denied: set<Path>, clock: Time, p: Path): (r: (Tree, bool))
    decreases |p|
    ensures forall q :: q in m ==> q in r.0 && r.0[q] == m[q]
    ensures forall q :: q in r.0 && q !in m ==> |q| <= |p| && q == p[..|q|] && r.0[q].isDir
    ensures r.1 ==> p in r.0 && r.0[p].isDir
  {
    if p !in denied && p in m then (m, m[p].isDir)
    else
      var parent := if p == [] then (m, true) else MkdirAll(m, denied, clock, p[..|p| - 1]);
      if !parent.1 || p in denied then (parent.0, false)
      else (parent.0[p := Entry(true, 0, clock)], true)
  }

  /** os.OpenFile(p, O_RDWR|O_CREATE): the parent must be a directory and p
      must not be one. */
  predicate OpenOk(m: Tree, denied: set<Path>, p: Path): (ok: bool)
    ensures ok ==> !Stat(m, denied, p).OtherError? && !(Stat(m, denied, p).Found? && Stat(m, denied, p).info.isDir)
  {
    p !in denied && |p| > 0 && p[..|p| - 1] in m && m[p[..|p| - 1]].isDir
    && !BelowFile(m, p) && !(p in m && m[p].isDir)
  }

  /** Opening creates an empty file when there is none; without O_TRUNC an
      existing file keeps its contents. */
  function Open(m: Tree, clock: Time, p: Path): (r: Tree)
    ensures p in r && r.Keys == m.Keys + {p}
    ensures p in m ==> r == m
  {
    if p in m then m else m[p := Entry(false, 0, clock)]
  }

  function Max(a: nat, b: nat): nat {
    if a < b then b else a
  }

  /** Writing n bytes from offset 0: the file grows to n bytes if it was
      shorter, and its mtime becomes the clock once anything is written. */
  function Write(m: Tree, clock: Time, p: Path, n: nat): (r: Tree)
    requires p in m
    ensures p in r && r.Keys == m.Keys
    ensures r[p].size == Max(m[p].size, n) && r[p].isDir == m[p].isDir
    ensures r[p].mtime == if n == 0 then m[p].mtime else clock
    ensures forall q :: q in m && q != p ==> r[q] == m[q]
  {
    if n == 0 then m else m[p := m[p].(size := Max(m[p].size, n), mtime := clock)]
  }

  /** os.Chtimes: sets the modification time (the access time is not
      modelled). */
  function Chtimes(m: Tree, p: Path, t: Time): (r: Tree)
    requires p in m
    ensures p in r && r.Keys == m.Keys && r[p] == m[p].(mtime := t)
    ensures forall q :: q in m && q != p ==> r[q] == m[q]
  {
    m[p := m[p].(mtime := t)]
  }
}
