/** The part of the operating system the core touches: a tree of entries indexed by path, and
    the calls os.RemoveAll, os.MkdirAll, os.Symlink and os.OpenFile (create, truncate, write)
    as functions from a tree to a new tree or an error. Symbolic links are never followed. */
module FileSystems {
  import opened Results
  import opened Paths

  newtype byte = x: int | 0 <= x < 256

  /** The nine permission bits of a file mode. */
  type Perm = p: int | 0 <= p < 512

  /** 0o755, the mode copyFile passes to os.MkdirAll for a file's parent directory. */
  const DefaultDirPerm: Perm := 493

  /** What an entry is. `Other` is any other kind of file (a device, a named pipe, a socket);
      reading it yields `data`. */
  datatype Kind =
    | Dir(perm: Perm)
    | File(perm: Perm, data: seq<byte>)
    | Symlink(target: string)
    | Other(perm: Perm, data: seq<byte>)

  /** An entry and its modification time; 0 stands for Go's zero time.Time. */
  datatype Node = Node(kind: Kind, mtime: nat)

  type Tree = map<Path, Node>

  /** The tree after an operation that can fail part way, and its error, if any. */
  datatype Outcome = Outcome(tree: Tree, err: Option<Error>)

  /** Every entry other than the root sits in an existing directory. */
  ghost predicate WellFormed(t: Tree) {
    forall p :: p in t && p != [] ==> DirOf(p) in t && t[DirOf(p)].kind.Dir?
  }

  /** `t2` differs from `t1` only at paths on the line of `p` (inside it or leading to it). */
  ghost predicate SameAwayFrom(t1: Tree, t2: Tree, p: Path) {
    forall q :: Disjoint(q, p) ==> (q in t1 <==> q in t2) && (q in t1 ==> t1[q] == t2[q])
  }

  /** The directories above an entry of a well-formed tree exist. */
  lemma {:induction false} AncestorsAreDirs(t: Tree, p: Path, q: Path)
    requires WellFormed(t) && p in t && q < p
    ensures q in t && t[q].kind.Dir?
    decreases |p|
  {
    var d := DirOf(p);
    if q < d {
      assert q == p[..|q|] == d[..|q|];
      AncestorsAreDirs(t, d, q);
    } else {
      assert q == p[..|q|] == d;
    }
  }

  lemma SameAwayFromTransitive(t1: Tree, t2: Tree, t3: Tree, p: Path)
    requires SameAwayFrom(t1, t2, p) && SameAwayFrom(t2, t3, p)
    ensures SameAwayFrom(t1, t3, p)
  {
  }

  /** A change on the line of a path below `p` is a change on the line of `p`. */
  lemma SameAwayFromBelow(t1: Tree, t2: Tree, p: Path, a: Path)
    requires p <= a && SameAwayFrom(t1, t2, a)
    ensures SameAwayFrom(t1, t2, p)
  {
    forall q | Disjoint(q, p) ensures Disjoint(q, a) {
      if q <= a {
        PrefixesComparable(q, p, a);
      } else if a <= q {
        PrefixTransitive(p, a, q);
      }
    }
  }

  /** os.RemoveAll: the entry and everything below it are gone; removing a missing path
      succeeds. */
  function RemoveAll(t: Tree, p: Path): (r: Tree)
    ensures forall q :: q in r <==> q in t && !(p <= q)
    ensures forall q :: q in r ==> r[q] == t[q]
    ensures WellFormed(t) ==> WellFormed(r)
    ensures SameAwayFrom(t, r, p)
  {
    map q | q in t && !(p <= q) :: t[q]
  }

  /** os.MkdirAll: nothing to do when `p` is a directory; an error when it or a directory
      above it is something else; otherwise the missing directories are created, outermost
      first, with mode `perm`. */
  function MkdirAll(t: Tree, p: Path, perm: Perm, now: nat): (r: Result<Tree>)
    ensures r.Ok? ==> p in r.value && r.value[p].kind.Dir?
    ensures r.Ok? ==> forall q :: q in t ==> q in r.value && r.value[q] == t[q]
    ensures r.Ok? ==> forall q :: q in r.value && q !in t ==> q <= p && r.value[q] == Node(Dir(perm), now)
    ensures r.Ok? && WellFormed(t) ==> WellFormed(r.value)
    ensures r.Err? ==> r.error.NotADirectory? && r.error.path <= p && r.error.path in t
                       && !t[r.error.path].kind.Dir?
    decreases |p|
  {
    if p in t then
      if t[p].kind.Dir? then Ok(t) else Err(NotADirectory(p))
    else if p == [] then
      Ok(t[p := Node(Dir(perm), now)])
    else
      match MkdirAll(t, DirOf(p), perm, now)
      case Err(e) => Err(e)
      case Ok(t1) => Ok(t1[p := Node(Dir(perm), now)])
  }

  lemma MkdirAllAwayFrom(t: Tree, p: Path, perm: Perm, now: nat)
    requires MkdirAll(t, p, perm, now).Ok?
    ensures SameAwayFrom(t, MkdirAll(t, p, perm, now).value, p)
  {
  }

  /** In a well-formed tree os.MkdirAll fails exactly when some existing path on the way to
      `p`, or `p` itself, is not a directory. */
  lemma {:induction false} MkdirAllFails(t: Tree, p: Path, perm: Perm, now: nat)
    requires WellFormed(t)
    ensures MkdirAll(t, p, perm, now).Err? <==> exists q :: q <= p && q in t && !t[q].kind.Dir?
    decreases |p|
  {
    if exists q :: q <= p && q in t && !t[q].kind.Dir? {
      var q :| q <= p && q in t && !t[q].kind.Dir?;
      if p in t && q != p {
        AncestorsAreDirs(t, p, q);
      } else if p !in t {
        assert q != p;
        assert q <= DirOf(p) by {
          assert q == p[..|q|];
          assert |q| <= |p| - 1;
          assert q == DirOf(p)[..|q|];
        }
        MkdirAllFails(t, DirOf(p), perm, now);
      }
    }
  }

  /** Looking `p` up fails with "not a directory" (ENOTDIR) rather than "does not exist": the
      nearest existing path above `p` is not a directory. */
  predicate Blocked(t: Tree, p: Path)
    decreases |p|
  {
    p != [] && if DirOf(p) in t then !t[DirOf(p)].kind.Dir? else Blocked(t, DirOf(p))
  }

  /** The error os.Stat or os.Lstat reports for a path that is not in the tree: only a path
      that is not blocked "does not exist". */
  function Missing(t: Tree, p: Path): (e: Error)
    ensures (e.NotExist? || e.NotADirectory?) && e.path == p
    ensures e.NotADirectory? <==> Blocked(t, p)
  {
    if Blocked(t, p) then NotADirectory(p) else NotExist(p)
  }

  /** A proper prefix of `p` is a prefix of its parent. */
  lemma AboveIsBelowParent(q: Path, p: Path)
    requires q < p
    ensures q <= DirOf(p)
  {
    assert q == p[..|q|];
    assert q == DirOf(p)[..|q|];
  }

  /** In a well-formed tree a path is blocked exactly when some existing path on the way to
      it is not a directory. */
  lemma {:induction false} BlockedIff(t: Tree, p: Path)
    requires WellFormed(t)
    ensures Blocked(t, p) <==> exists q :: q < p && q in t && !t[q].kind.Dir?
    decreases |p|
  {
    if p != [] {
      var d := DirOf(p);
      if d in t {
        BlockedAtParent(t, p);
      } else {
        BlockedIff(t, d);
        BlockedAboveParent(t, p);
      }
    }
  }

  lemma BlockedAtParent(t: Tree, p: Path)
    requires WellFormed(t) && p != [] && DirOf(p) in t
    ensures !t[DirOf(p)].kind.Dir? <==> exists q :: q < p && q in t && !t[q].kind.Dir?
  {
    if exists q :: q < p && q in t && !t[q].kind.Dir? {
      var q :| q < p && q in t && !t[q].kind.Dir?;
      AboveIsBelowParent(q, p);
      if q != DirOf(p) {
        AncestorsAreDirs(t, DirOf(p), q);
      }
    }
  }

  lemma BlockedAboveParent(t: Tree, p: Path)
    requires p != [] && DirOf(p) !in t
    ensures (exists q :: q < p && q in t && !t[q].kind.Dir?) <==> exists q :: q < DirOf(p) && q in t && !t[q].kind.Dir?
  {
    if exists q :: q < p && q in t && !t[q].kind.Dir? {
      var q :| q < p && q in t && !t[q].kind.Dir?;
      AboveIsBelowParent(q, p);
      assert q != DirOf(p);
    }
  }

  /** An entry of a well-formed tree is never blocked. */
  lemma PresentNotBlocked(t: Tree, p: Path)
    requires WellFormed(t) && p in t
    ensures !Blocked(t, p)
  {
    BlockedIff(t, p);
    forall q | q < p && q in t ensures t[q].kind.Dir? {
      AncestorsAreDirs(t, p, q);
    }
  }

  /** Whether `p` is blocked depends only on the paths above it. */
  lemma {:induction false} BlockedFrame(t1: Tree, t2: Tree, p: Path)
    requires forall q :: q < p ==> (q in t1 <==> q in t2) && (q in t1 ==> t1[q].kind.Dir? == t2[q].kind.Dir?)
    ensures Blocked(t1, p) == Blocked(t2, p)
    decreases |p|
  {
    if p != [] {
      BlockedFrame(t1, t2, DirOf(p));
    }
  }

  /** os.MkdirAll of a missing path fails exactly when the path is blocked. */
  lemma {:induction false} MkdirAllBlocked(t: Tree, p: Path, perm: Perm, now: nat)
    requires p !in t
    ensures MkdirAll(t, p, perm, now).Err? <==> Blocked(t, p)
    decreases |p|
  {
    if p != [] && DirOf(p) !in t {
      MkdirAllBlocked(t, DirOf(p), perm, now);
    }
  }

  /** os.Symlink: creates `p` as a link to `target`, which is stored and never resolved. */
  function MakeSymlink(t: Tree, p: Path, target: string, now: nat): (r: Result<Tree>)
    ensures r.Ok? ==> r.value == t[p := Node(Symlink(target), now)]
    ensures r.Ok? <==> p !in t && (p == [] || (DirOf(p) in t && t[DirOf(p)].kind.Dir?))
    ensures r.Ok? && WellFormed(t) ==> WellFormed(r.value)
  {
    if p in t then Err(AlreadyExists(p))
    else if p != [] && DirOf(p) !in t then Err(NotExist(p))
    else if p != [] && !t[DirOf(p)].kind.Dir? then Err(NotADirectory(p))
    else Ok(t[p := Node(Symlink(target), now)])
  }

  /** os.OpenFile(p, O_CREATE|O_WRONLY|O_TRUNC, perm) followed by writing `data`: an existing
      regular file keeps its mode and gets the new contents; a new file gets mode `perm`. */
  function WriteFile(t: Tree, p: Path, perm: Perm, data: seq<byte>, now: nat): (r: Result<Tree>)
    ensures r.Ok? && p !in t ==> r.value == t[p := Node(File(perm, data), now)]
    ensures r.Ok? && p in t ==> t[p].kind.File? && r.value == t[p := Node(File(t[p].kind.perm, data), now)]
    ensures r.Ok? <==> if p in t then t[p].kind.File?
                       else p == [] || (DirOf(p) in t && t[DirOf(p)].kind.Dir?)
    ensures r.Ok? && WellFormed(t) ==> WellFormed(r.value)
  {
    if p in t then
      match t[p].kind
      case File(kept, _) => Ok(t[p := Node(File(kept, data), now)])
      case Dir(_) => Err(IsADirectory(p))
      case _ => Err(NotRegular(p))
    else if p != [] && DirOf(p) !in t then Err(NotExist(p))
    else if p != [] && !t[DirOf(p)].kind.Dir? then Err(NotADirectory(p))
    else Ok(t[p := Node(File(perm, data), now)])
  }

  /** The host file system: its state is the tree, which the core changes in place. */
  class FileSystem {
    var tree: Tree

    ghost predicate Valid()
      reads this
    {
      WellFormed(tree)
    }

    constructor (initial: Tree)
      requires WellFormed(initial)
      ensures Valid() && tree == initial
    {
      tree := initial;
    }
  }
}
