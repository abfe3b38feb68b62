/** LocalSyncDirFile, the mirror pass over one local directory: every local
    entry of the directory whose name is not in the remote listing is
    deleted, a directory with everything below it, a file on its own. */
module Reconcile {
  import opened LocalFs

  /** q goes when the child c of dir that holds it is doomed and the delete
      call for c takes q along: os.RemoveAll for a directory takes every path
      below it that holds nothing the host refuses and lies below no refused
      directory; os.Remove for a file takes just the file. */
  predicate Swept(m: Tree, denied: set<Path>, dir: Path, doomed: set<Name>, q: Path) {
    Inside(dir, q) && q[|dir|] in doomed && dir + [q[|dir|]] in m &&
    if m[dir + [q[|dir|]]].isDir then Takes(m, denied, dir + [q[|dir|]], q)
    else q == dir + [q[|dir|]] && q !in denied
  }

  /** The tree after deleting the doomed children of dir, in any order. */
  function Sweep(m: Tree, denied: set<Path>, dir: Path, doomed: set<Name>): (r: Tree)
    ensures forall q :: q in r <==> q in m && !Swept(m, denied, dir, doomed, q)
    ensures forall q :: q in r ==> r[q] == m[q]
  {
    map q | q in m && !Swept(m, denied, dir, doomed, q) :: m[q]
  }

  /** With nothing doomed, nothing goes. */
  lemma SweepNothing(m: Tree, denied: set<Path>, dir: Path)
    ensures Sweep(m, denied, dir, {}) == m
  {
  }

  /** The local tree after the mirror pass of dir against the names of its
      remote listing. */
  function Reconciled(m: Tree, denied: set<Path>, dir: Path, names: set<Name>): (r: Tree)
    ensures forall q :: q in r ==> q in m && r[q] == m[q]
    ensures !ReadDirOk(m, denied, dir) ==> r == m
    ensures forall q :: q in m && !Inside(dir, q) ==> q in r
    ensures forall q :: q in m && Inside(dir, q) && q[|dir|] in names ==> q in r
  {
    if ReadDirOk(m, denied, dir) then Sweep(m, denied, dir, Children(m, dir) - names) else m
  }

  /** The local entry at p survives its delete call. */
  predicate Undeletable(m: Tree, denied: set<Path>, p: Path) {
    p in m && if m[p].isDir then !Clear(m, denied, p) else p in denied
  }

  /** After the pass, every child left in dir has its name in the remote
      listing, unless the host refused (part of) its deletion; so with
      nothing refused below dir, exactly the listed children remain. */
  lemma MirrorLeavesOnlyListed(m: Tree, denied: set<Path>, dir: Path, names: set<Name>)
    requires ReadDirOk(m, denied, dir)
    ensures forall c :: c in Children(Reconciled(m, denied, dir, names), dir) ==>
      c in names || Undeletable(m, denied, dir + [c])
    ensures Clear(m, denied, dir) ==>
      Children(Reconciled(m, denied, dir, names), dir) == Children(m, dir) * names
  {
    var r := Reconciled(m, denied, dir, names);
    forall c | c in Children(r, dir)
      ensures c in names || Undeletable(m, denied, dir + [c])
    {
      ChildrenIn(r, dir, c);
      ChildrenIn(m, dir, c);
      var p := dir + [c];
      assert p[..|dir|] == dir && p[|dir|] == c;
      assert !Swept(m, denied, dir, Children(m, dir) - names, p);
    }
    if Clear(m, denied, dir) {
      forall c ensures c in Children(r, dir) <==> c in Children(m, dir) * names {
        ChildrenIn(r, dir, c);
        ChildrenIn(m, dir, c);
        var p := dir + [c];
        assert p[..|dir|] == dir && p[|dir|] == c;
        if p in m && c !in names {
          assert Under(dir, p);
          forall q | q in m && Under(p, q) ensures Under(dir, q) {
            assert q[..|dir|] == q[..|p|][..|dir|];
          }
          assert Clear(m, denied, p);
          assert Swept(m, denied, dir, Children(m, dir) - names, p);
        }
      }
    }
  }

  /** A path under dir + [c] has c as its segment right below dir. */
  lemma UnderChild(dir: Path, c: Name, q: Path)
    requires Under(dir + [c], q)
    ensures Inside(dir, q) && q[|dir|] == c && dir + [q[|dir|]] == q[..|dir| + 1]
  {
    assert q[..|dir|] == q[..|dir| + 1][..|dir|];
  }

  /** Deleting one more doomed child: the delete call sees the child's
      subtree as it was before the pass, because the other children's
      deletions never reach into it. This is why the order in which
      os.ReadDir returns the entries does not matter. */
  lemma SweepStep(m: Tree, denied: set<Path>, dir: Path, doomed: set<Name>, c: Name)
    requires c !in doomed && dir + [c] in m
    ensures var cur := Sweep(m, denied, dir, doomed);
      && dir + [c] in cur && cur[dir + [c]] == m[dir + [c]]
      && Sweep(m, denied, dir, doomed + {c}) ==
         if m[dir + [c]].isDir then RemoveAll(cur, denied, dir + [c]) else Remove(cur, denied, dir + [c])
  {
    SweepUntouchedBelow(m, denied, dir, doomed, c);
    if m[dir + [c]].isDir {
      SweepStepDir(m, denied, dir, doomed, c);
    } else {
      SweepStepFile(m, denied, dir, doomed, c);
    }
  }

  /** Before c's turn, nothing at or below dir + [c] has been deleted. */
  lemma SweepUntouchedBelow(m: Tree, denied: set<Path>, dir: Path, doomed: set<Name>, c: Name)
    requires c !in doomed && dir + [c] in m
    ensures var cur := Sweep(m, denied, dir, doomed);
      forall q :: Under(dir + [c], q) ==> (q in cur <==> q in m)
  {
    var p := dir + [c];
    var cur := Sweep(m, denied, dir, doomed);
    forall q | Under(p, q)
      ensures q in cur <==> q in m
    {
      UnderChild(dir, c, q);
    }
  }

  lemma SweepStepDir(m: Tree, denied: set<Path>, dir: Path, doomed: set<Name>, c: Name)
    requires c !in doomed && dir + [c] in m && m[dir + [c]].isDir
    requires var cur := Sweep(m, denied, dir, doomed);
      forall q :: Under(dir + [c], q) ==> (q in cur <==> q in m)
    ensures Sweep(m, denied, dir, doomed + {c}) == RemoveAll(Sweep(m, denied, dir, doomed), denied, dir + [c])
  {
    var p := dir + [c];
    var cur := Sweep(m, denied, dir, doomed);
    var next := Sweep(m, denied, dir, doomed + {c});
    var after := RemoveAll(cur, denied, p);
    forall q | Under(p, q)
      ensures Clear(cur, denied, q) == Clear(m, denied, q)
      ensures Takes(cur, denied, p, q) == Takes(m, denied, p, q)
    {
      ClearSame(m, cur, denied, p, q);
    }
    SweepDirMembers(m, denied, dir, doomed, c);
    assert next.Keys == after.Keys;
  }

  /** The paths c's os.RemoveAll takes from the tree before its turn are the
      ones the pass with c doomed takes in addition. */
  lemma SweepDirMembers(m: Tree, denied: set<Path>, dir: Path, doomed: set<Name>, c: Name)
    requires c !in doomed && dir + [c] in m && m[dir + [c]].isDir
    requires var cur := Sweep(m, denied, dir, doomed);
      forall q :: Under(dir + [c], q) ==> (q in cur <==> q in m) && (Takes(cur, denied, dir + [c], q) == Takes(m, denied, dir + [c], q))
    ensures var cur := Sweep(m, denied, dir, doomed);
      forall q :: q in Sweep(m, denied, dir, doomed + {c}) <==> q in RemoveAll(cur, denied, dir + [c])
  {
    var p := dir + [c];
    var cur := Sweep(m, denied, dir, doomed);
    var next := Sweep(m, denied, dir, doomed + {c});
    var after := RemoveAll(cur, denied, p);
    forall q ensures q in next <==> q in after {
      if Under(p, q) {
        UnderChild(dir, c, q);
        assert !Swept(m, denied, dir, doomed, q);
        assert Swept(m, denied, dir, doomed + {c}, q) == Takes(m, denied, p, q);
      } else if Inside(dir, q) && q[|dir|] == c {
        ChildUnder(dir, c, q);
      } else {
        assert Swept(m, denied, dir, doomed + {c}, q) == Swept(m, denied, dir, doomed, q);
      }
    }
  }

  lemma ChildUnder(dir: Path, c: Name, q: Path)
    requires Inside(dir, q) && q[|dir|] == c
    ensures Under(dir + [c], q)
  {
    assert q[..|dir| + 1] == q[..|dir|] + [q[|dir|]];
  }

  /** Two trees that agree on what lies below p agree on whether a path
      below p is clear. */
  lemma ClearSame(m: Tree, cur: Tree, denied: set<Path>, p: Path, q: Path)
    requires Under(p, q)
    requires forall r :: Under(p, r) ==> (r in cur <==> r in m)
    ensures Clear(cur, denied, q) == Clear(m, denied, q)
  {
    forall r | Under(q, r) ensures Under(p, r) {
      assert r[..|p|] == r[..|q|][..|p|];
    }
  }

  lemma SweepStepFile(m: Tree, denied: set<Path>, dir: Path, doomed: set<Name>, c: Name)
    requires c !in doomed && dir + [c] in m && !m[dir + [c]].isDir
    requires var cur := Sweep(m, denied, dir, doomed);
      forall q :: Under(dir + [c], q) ==> (q in cur <==> q in m)
    ensures Sweep(m, denied, dir, doomed + {c}) == Remove(Sweep(m, denied, dir, doomed), denied, dir + [c])
  {
    var p := dir + [c];
    var cur := Sweep(m, denied, dir, doomed);
    var next := Sweep(m, denied, dir, doomed + {c});
    var after := Remove(cur, denied, p);
    assert Under(p, p);
    forall q ensures q in next <==> q in after {
      if Inside(dir, q) && q[|dir|] == c {
        assert dir + [q[|dir|]] == p;
      }
    }
    assert next == after;
  }
}
