/** The remote WebDAV tree as the backup sees it through the listing and
    streaming calls: a directory listing either succeeds with its entries in
    server order or fails, and a file's read stream either cannot be opened,
    breaks after some bytes, or delivers all of its bytes. */
module Remote {
  import opened LocalFs

  datatype Stream =
    | Unreadable             // ReadStream fails
    | Broken(written: nat)   // io.Copy fails after writing this many bytes
    | Complete(length: nat)  // io.Copy delivers this many bytes

  datatype RemoteEntry =
    | File(name: Name, size: int, mtime: Time, stream: Stream)
    | Dir(name: Name, listing: Listing)

  datatype Listing = Listed(entries: seq<RemoteEntry>) | ListFailed

  /** What the walker iterates over: a failed listing yields no entries. */
  function Entries(l: Listing): (es: seq<RemoteEntry>)
    ensures l.Listed? ==> es == l.entries
    ensures l.ListFailed? ==> es == []
  {
    if l.Listed? then l.entries else []
  }

  /** No two entries of a listing share a name, as in any directory. */
  predicate UniqueNames(es: seq<RemoteEntry>) {
    forall i, j :: 0 <= i < j < |es| ==> es[i].name != es[j].name
  }

  /** The set of names of a listing. */
  function Names(es: seq<RemoteEntry>): (r: set<Name>)
    ensures forall e :: e in es ==> e.name in r
    ensures forall n :: n in r ==> exists e :: e in es && e.name == n
  {
    if es == [] then {}
    else Names(es[..|es| - 1]) + {es[|es| - 1].name}
  }

  function Dirs(es: seq<RemoteEntry>): (r: seq<RemoteEntry>)
    ensures forall d :: d in r ==> d in es && d.Dir?
  {
    if es == [] then []
    else Dirs(es[..|es| - 1]) + if es[|es| - 1].Dir? then [es[|es| - 1]] else []
  }

  function Files(es: seq<RemoteEntry>): (r: seq<RemoteEntry>)
    ensures forall f :: f in r ==> f in es && f.File?
  {
    if es == [] then []
    else Files(es[..|es| - 1]) + if es[|es| - 1].File? then [es[|es| - 1]] else []
  }

  /** Dirs keeps every directory of the listing. */
  lemma {:induction false} DirsComplete(es: seq<RemoteEntry>)
    ensures forall d :: d in es && d.Dir? ==> d in Dirs(es)
  {
    if es != [] {
      var front := es[..|es| - 1];
      DirsComplete(front);
      assert es == front + [es[|es| - 1]];
    }
  }

  /** Files keeps every file of the listing. */
  lemma {:induction false} FilesComplete(es: seq<RemoteEntry>)
    ensures forall f :: f in es && f.File? ==> f in Files(es)
  {
    if es != [] {
      var front := es[..|es| - 1];
      FilesComplete(front);
      assert es == front + [es[|es| - 1]];
    }
  }

  /** The number of directories of the tree rooted at a listing, itself
      included. */
  function DirCount(l: Listing): (n: nat)
    ensures n >= 1 && (l.ListFailed? ==> n == 1)
    decreases l, 1, 0
  {
    1 + DirCountIn(l, |Entries(l)|)
  }

  /** The directories below the first k entries of l. */
  function DirCountIn(l: Listing, k: nat): nat
    requires k <= |Entries(l)|
    decreases l, 0, k
  {
    if k == 0 then 0
    else
      var e := Entries(l)[k - 1];
      assert e in l.entries;
      DirCountIn(l, k - 1) + if e.Dir? then DirCount(e.listing) else 0
  }

  /** The number of files of the tree rooted at a listing. */
  function FileCount(l: Listing): (n: nat)
    ensures l.ListFailed? ==> n == 0
    decreases l, 1, 0
  {
    FileCountIn(l, |Entries(l)|)
  }

  function FileCountIn(l: Listing, k: nat): nat
    requires k <= |Entries(l)|
    decreases l, 0, k
  {
    if k == 0 then 0
    else
      var e := Entries(l)[k - 1];
      assert e in l.entries;
      FileCountIn(l, k - 1) + if e.Dir? then FileCount(e.listing) else 1
  }

  /** The directories of the tree, depth first, each before the ones below
      it and siblings in listing order. */
  function Preorder(base: Path, l: Listing): (ps: seq<Path>)
    ensures |ps| == DirCount(l) && ps[0] == base
    decreases l, 1, 0
  {
    [base] + PreorderIn(base, l, |Entries(l)|)
  }

  function PreorderIn(base: Path, l: Listing, k: nat): (ps: seq<Path>)
    requires k <= |Entries(l)|
    ensures |ps| == DirCountIn(l, k)
    decreases l, 0, k
  {
    if k == 0 then []
    else
      var e := Entries(l)[k - 1];
      assert e in l.entries;
      PreorderIn(base, l, k - 1) + if e.Dir? then Preorder(base + [e.name], e.listing) else []
  }
}
