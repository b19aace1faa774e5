/** copySkillDir and copyFile (cmd/skills.go): replace a destination directory with a copy of
    a source tree. The functions state what the copy does; the methods do it step by step on
    the host file system and are proved to agree with them. */
module Copier {
  import opened Results
  import opened Orders
  import opened Paths
  import opened FileSystems

  /** The kind an entry has once copied: the copy of a file of any other kind is a regular
      file holding what reading it gave. */
  function CopyKind(k: Kind): Kind {
    match k
    case Other(perm, data) => File(perm, data)
    case _ => k
  }

  /** The entries strictly below `src`, as paths relative to it. */
  function Entries(t: Tree, src: Path): set<Path> {
    set q | q in t && src < q :: q[|src|..]
  }

  lemma EntriesIff(t: Tree, src: Path)
    ensures forall r :: r in Entries(t, src) <==> r != [] && src + r in t
  {
    forall r | r != [] && src + r in t ensures r in Entries(t, src) {
      var q := src + r;
      assert q[|src|..] == r;
    }
    forall r | r in Entries(t, src) ensures r != [] && src + r in t {
      var q :| q in t && src < q && q[|src|..] == r;
      assert src + r == q;
    }
  }

  /** Strictly increasing in walk order. */
  ghost predicate Ascending(order: seq<Path>) {
    forall i, j :: 0 <= i < j < |order| ==> PathLess(order[i], order[j])
  }

  /** `pending` holds exactly the elements of `order` from index `k` on. */
  ghost predicate Remaining(order: seq<Path>, k: nat, pending: set<Path>) {
    k <= |order| && forall x :: x in pending <==> x in order[k..]
  }

  /** The entries of a set in the order filepath.WalkDir visits them. */
  ghost function WalkOrder(s: set<Path>): (order: seq<Path>)
    ensures |order| == |s|
    ensures forall r :: r in order <==> r in s
    ensures Ascending(order)
    decreases |s|
  {
    if s == {} then []
    else
      PathLessIsStrictTotalOrder();
      LeastExists(s, PathLess);
      var m :| IsLeast(m, s, PathLess);
      [m] + WalkOrder(s - {m})
  }

  function Lift(r: Result<Tree>, t: Tree): (o: Outcome)
    ensures r.Ok? ==> o == Outcome(r.value, None)
    ensures r.Err? ==> o == Outcome(t, Some(r.error))
  {
    match r
    case Ok(t1) => Outcome(t1, None)
    case Err(e) => Outcome(t, Some(e))
  }

  /** Creating the directories above `dst` changes nothing away from `dst`. */
  lemma ParentCreatedAwayFrom(t: Tree, dst: Path, now: nat)
    requires MkdirAll(t, DirOf(dst), DefaultDirPerm, now).Ok?
    ensures SameAwayFrom(t, MkdirAll(t, DirOf(dst), DefaultDirPerm, now).value, dst)
  {
    var t1 := MkdirAll(t, DirOf(dst), DefaultDirPerm, now).value;
    forall q | Disjoint(q, dst) && q !in t ensures q !in t1 {
      if q in t1 {
        PrefixTransitive(q, DirOf(dst), dst);
      }
    }
  }

  /** copyFile's destination half: os.MkdirAll of the parent with mode 0o755, then create or
      truncate the destination and write `data` to it; `after` is the error that follows. */
  function Written(t: Tree, dst: Path, perm: Perm, data: seq<byte>, now: nat, after: Option<Error>): (o: Outcome)
    ensures WellFormed(t) ==> WellFormed(o.tree)
    ensures SameAwayFrom(t, o.tree, dst)
  {
    match MkdirAll(t, DirOf(dst), DefaultDirPerm, now)
    case Err(e) => Outcome(t, Some(e))
    case Ok(t1) =>
      ParentCreatedAwayFrom(t, dst, now);
      match WriteFile(t1, dst, perm, data, now)
      case Err(e) => Outcome(t1, Some(e))
      case Ok(t2) => Outcome(t2, after)
  }

  /** copyFile(src, dst, perm): opening a missing source fails; a directory opens, the
      destination is created empty, and reading fails; a file's bytes are written. */
  function FileCopied(t: Tree, src: Path, dst: Path, perm: Perm, now: nat): (o: Outcome)
    ensures WellFormed(t) ==> WellFormed(o.tree)
    ensures SameAwayFrom(t, o.tree, dst)
  {
    if src !in t then Outcome(t, Some(NotExist(src)))
    else
      match t[src].kind
      case Symlink(_) => Outcome(t, Some(NotRegular(src)))
      case Dir(_) => Written(t, dst, perm, [], now, Some(IsADirectory(src)))
      case File(_, data) => Written(t, dst, perm, data, now, None)
      case Other(_, data) => Written(t, dst, perm, data, now, None)
  }

  /** The walk's visit of the entry `src + r`, whose kind is read from the snapshot `snap`. */
  function Visited(t: Tree, snap: Tree, src: Path, dst: Path, r: Path, now: nat): (o: Outcome)
    requires src + r in snap
    ensures WellFormed(t) ==> WellFormed(o.tree)
    ensures SameAwayFrom(t, o.tree, dst + r)
  {
    match snap[src + r].kind
    case Dir(perm) =>
      if MkdirAll(t, dst + r, perm, now).Ok? then MkdirAllAwayFrom(t, dst + r, perm, now); Outcome(MkdirAll(t, dst + r, perm, now).value, None)
      else Outcome(t, Some(MkdirAll(t, dst + r, perm, now).error))
    case Symlink(target) => Lift(MakeSymlink(t, dst + r, target, now), t)
    case File(perm, _) => FileCopied(t, src + r, dst + r, perm, now)
    case Other(perm, _) => FileCopied(t, src + r, dst + r, perm, now)
  }

  /** The walk over the entries `rs`, in that order, stopping at the first error. */
  function WalkCopy(t: Tree, snap: Tree, src: Path, dst: Path, rs: seq<Path>, now: nat): Outcome
    requires forall r :: r in rs ==> src + r in snap
    decreases |rs|
  {
    if rs == [] then Outcome(t, None)
    else
      var o := WalkCopy(t, snap, src, dst, rs[..|rs| - 1], now);
      if o.err.Some? then o else Visited(o.tree, snap, src, dst, rs[|rs| - 1], now)
  }

  /** The walk stops at its first error: what follows is never visited. */
  lemma {:induction false} WalkStops(t: Tree, snap: Tree, src: Path, dst: Path, rs: seq<Path>, k: nat, now: nat)
    requires forall r :: r in rs ==> src + r in snap
    requires k <= |rs| && WalkCopy(t, snap, src, dst, rs[..k], now).err.Some?
    ensures WalkCopy(t, snap, src, dst, rs, now) == WalkCopy(t, snap, src, dst, rs[..k], now)
    decreases |rs|
  {
    if k < |rs| {
      assert rs[..|rs| - 1][..k] == rs[..k];
      WalkStops(t, snap, src, dst, rs[..|rs| - 1], k, now);
    } else {
      assert rs[..k] == rs;
    }
  }

  /** The walk over the first `i + 1` entries: the first `i`, then entry `i` if they all
      succeeded. */
  lemma WalkSnoc(t: Tree, snap: Tree, src: Path, dst: Path, rs: seq<Path>, i: nat, now: nat)
    requires forall r :: r in rs ==> src + r in snap
    requires i < |rs|
    ensures forall r :: r in rs[..i] ==> src + r in snap
    ensures forall r :: r in rs[..i + 1] ==> src + r in snap
    ensures WalkCopy(t, snap, src, dst, rs[..i + 1], now)
         == if WalkCopy(t, snap, src, dst, rs[..i], now).err.Some? then WalkCopy(t, snap, src, dst, rs[..i], now)
            else Visited(WalkCopy(t, snap, src, dst, rs[..i], now).tree, snap, src, dst, rs[i], now)
  {
    assert rs[..i + 1][..i] == rs[..i];
  }

  /** copySkillDir(src, dst). A missing source or one that is not a directory is an error
      and nothing changes; so is a blocked destination, which os.RemoveAll cannot reach.
      Otherwise the destination is removed, recreated with the source's mode, and the
      source's entries, read as they are once the destination exists, are copied in walk
      order until the first error. */
  ghost function TreeCopied(t: Tree, src: Path, dst: Path, now: nat): Outcome {
    if src !in t then Outcome(t, Some(Missing(t, src)))
    else if !t[src].kind.Dir? then Outcome(t, Some(NotADirectory(src)))
    else if Blocked(t, dst) then Outcome(t, Some(NotADirectory(dst)))
    else
      var t1 := RemoveAll(t, dst);
      match MkdirAll(t1, dst, t[src].kind.perm, now)
      case Err(e) => Outcome(t1, Some(e))
      case Ok(base) =>
        if src !in base then Outcome(base, Some(Missing(base, src)))
        else
          EntriesIff(base, src);
          WalkCopy(base, base, src, dst, WalkOrder(Entries(base, src)), now)
  }

  /** Removing the destination and creating it again fails exactly when the destination is
      blocked; os.RemoveAll already fails there, and the model reports that failure. */
  lemma PrepareFails(t: Tree, dst: Path, perm: Perm, now: nat)
    ensures MkdirAll(RemoveAll(t, dst), dst, perm, now).Err? <==> Blocked(t, dst)
  {
    var t1 := RemoveAll(t, dst);
    BlockedFrame(t, t1, dst);
    MkdirAllBlocked(t1, dst, perm, now);
  }

  /** copyFile, writing through the host file system. */
  method CopyFile(fs: FileSystem, src: Path, dst: Path, perm: Perm, now: nat) returns (err: Option<Error>)
    requires fs.Valid()
    modifies fs
    ensures fs.Valid()
    ensures Outcome(fs.tree, err) == FileCopied(old(fs.tree), src, dst, perm, now)
  {
    if src !in fs.tree {
      return Some(NotExist(src));
    }
    var data: seq<byte>;
    var readErr: Option<Error> := None;
    match fs.tree[src].kind {
      case Symlink(_) =>
        return Some(NotRegular(src));
      case Dir(_) =>
        data := [];
        readErr := Some(IsADirectory(src));
      case File(_, d) =>
        data := d;
      case Other(_, d) =>
        data := d;
    }
    var made := MkdirAll(fs.tree, DirOf(dst), DefaultDirPerm, now);
    if made.Err? {
      return Some(made.error);
    }
    fs.tree := made.value;
    var written := WriteFile(fs.tree, dst, perm, data, now);
    if written.Err? {
      return Some(written.error);
    }
    fs.tree := written.value;
    return readErr;
  }

  /** The least entry not yet visited is the next one in walk order. */
  lemma NextInOrder(order: seq<Path>, k: nat, pending: set<Path>, r: Path)
    requires Ascending(order) && Remaining(order, k, pending) && k < |order|
    requires r in pending && forall x | x in pending :: x == r || PathLess(r, x)
    ensures r == order[k]
  {
    PathLessIsStrictTotalOrder();
    var next := order[k];
    assert next in order[k..];
    forall x | x in pending && x != next ensures PathLess(next, x) {
      var i :| k <= i < |order| && order[i] == x;
    }
    LeastUnique(r, next, pending, PathLess);
  }

  lemma LeastPending(pending: set<Path>)
    requires pending != {}
    ensures exists r :: r in pending && forall x | x in pending :: x == r || PathLess(r, x)
  {
    PathLessIsStrictTotalOrder();
    LeastExists(pending, PathLess);
    var least :| IsLeast(least, pending, PathLess);
    assert least in pending && forall x | x in pending :: x == least || PathLess(least, x);
  }

  lemma RemainingStep(order: seq<Path>, k: nat, pending: set<Path>)
    requires Ascending(order) && Remaining(order, k, pending) && k < |order|
    ensures Remaining(order, k + 1, pending - {order[k]})
  {
    PathLessIsStrictTotalOrder();
    forall i | k + 1 <= i < |order| ensures order[i] != order[k] {
      assert PathLess(order[k], order[i]);
    }
  }

  lemma RemainingNonEmpty(order: seq<Path>, k: nat, pending: set<Path>)
    requires Remaining(order, k, pending)
    ensures pending == {} <==> k == |order|
  {
    if k < |order| {
      assert order[k] in order[k..];
    }
  }

  /** The walk visits entries of the source only. */
  lemma WalkOrderInSource(base: Tree, src: Path)
    ensures forall r :: r in WalkOrder(Entries(base, src)) ==> r != [] && src + r in base
  {
    EntriesIff(base, src);
  }

  /** Taking the least pending entry extends the sorted prefix by one. */
  lemma SortedStep(all: seq<Path>, order: seq<Path>, pending: set<Path>, r: Path)
    requires Ascending(all) && |order| < |all| && order == all[..|order|] && Remaining(all, |order|, pending)
    requires r in pending && forall x | x in pending :: x == r || PathLess(r, x)
    ensures order + [r] == all[..|order| + 1] && Remaining(all, |order| + 1, pending - {r})
  {
    NextInOrder(all, |order|, pending, r);
    RemainingStep(all, |order|, pending);
  }

  /** The entries below `src` in walk order: os.ReadDir lists each directory sorted by name,
      and WalkDir visits a directory before what it holds. */
  method SortedEntries(t: Tree, src: Path) returns (order: seq<Path>)
    ensures order == WalkOrder(Entries(t, src))
    ensures forall r :: r in order ==> r != [] && src + r in t
  {
    WalkOrderInSource(t, src);
    var pending := Entries(t, src);
    ghost var all := WalkOrder(pending);
    order := [];
    for k := 0 to |pending|
      invariant |order| == k && order == all[..k]
      invariant Remaining(all, k, pending)
    {
      RemainingNonEmpty(all, k, pending);
      LeastPending(pending);
      var r :| r in pending && forall x | x in pending :: x == r || PathLess(r, x);
      SortedStep(all, order, pending, r);
      order := order + [r];
      pending := pending - {r};
    }
    WholeWalk(all);
  }

  lemma WholeWalk(all: seq<Path>)
    ensures all[..|all|] == all
  {
  }

  /** The walk visits every entry below `src`. */
  lemma EntryVisited(t: Tree, src: Path, r: Path)
    requires r != [] && src + r in t
    ensures r in WalkOrder(Entries(t, src))
  {
    EntriesIff(t, src);
  }

  /** The walk's callback for one entry: recreate a directory, recreate a link with the same
      target, or copy a file with its mode. */
  method VisitEntry(fs: FileSystem, snap: Tree, src: Path, dst: Path, r: Path, now: nat) returns (err: Option<Error>)
    requires fs.Valid() && src + r in snap
    modifies fs
    ensures fs.Valid()
    ensures Outcome(fs.tree, err) == Visited(old(fs.tree), snap, src, dst, r, now)
  {
    match snap[src + r].kind {
      case Dir(perm) =>
        var m := MkdirAll(fs.tree, dst + r, perm, now);
        if m.Err? {
          return Some(m.error);
        }
        fs.tree := m.value;
        return None;
      case Symlink(target) =>
        var m := MakeSymlink(fs.tree, dst + r, target, now);
        if m.Err? {
          return Some(m.error);
        }
        fs.tree := m.value;
        return None;
      case File(perm, _) =>
        err := CopyFile(fs, src + r, dst + r, perm, now);
      case Other(perm, _) =>
        err := CopyFile(fs, src + r, dst + r, perm, now);
    }
  }

  /** copySkillDir, changing the host file system one entry at a time. */
  method CopySkillDir(fs: FileSystem, src: Path, dst: Path, now: nat) returns (err: Option<Error>)
    requires fs.Valid()
    modifies fs
    ensures fs.Valid()
    ensures Outcome(fs.tree, err) == TreeCopied(old(fs.tree), src, dst, now)
  {
    ghost var t0 := fs.tree;
    if src !in fs.tree {
      return Some(Missing(fs.tree, src));
    }
    var info := fs.tree[src];
    if !info.kind.Dir? {
      return Some(NotADirectory(src));
    }
    if Blocked(fs.tree, dst) {
      return Some(NotADirectory(dst));
    }
    PrepareFails(fs.tree, dst, info.kind.perm, now);
    fs.tree := RemoveAll(fs.tree, dst);
    fs.tree := MkdirAll(fs.tree, dst, info.kind.perm, now).value;
    if src !in fs.tree {
      return Some(Missing(fs.tree, src));
    }
    var snap := fs.tree;
    EntriesIff(snap, src);
    assert TreeCopied(t0, src, dst, now) == WalkCopy(snap, snap, src, dst, WalkOrder(Entries(snap, src)), now);
    err := WalkEntries(fs, src, dst, now);
  }

  /** filepath.WalkDir over `src` with copySkillDir's callback, on the tree as it is when the
      walk begins. */
  method WalkEntries(fs: FileSystem, src: Path, dst: Path, now: nat) returns (err: Option<Error>)
    requires fs.Valid()
    modifies fs
    ensures fs.Valid()
    ensures forall r :: r in WalkOrder(Entries(old(fs.tree), src)) ==> src + r in old(fs.tree)
    ensures Outcome(fs.tree, err) == WalkCopy(old(fs.tree), old(fs.tree), src, dst, WalkOrder(Entries(old(fs.tree), src)), now)
  {
    var snap := fs.tree;
    var order := SortedEntries(snap, src);
    var i := 0;
    while i < |order|
      invariant fs.Valid()
      invariant 0 <= i <= |order|
      invariant forall r :: r in order[..i] ==> src + r in snap
      invariant Outcome(fs.tree, None) == WalkCopy(snap, snap, src, dst, order[..i], now)
    {
      WalkSnoc(snap, snap, src, dst, order, i, now);
      err := VisitEntry(fs, snap, src, dst, order[i], now);
      if err.Some? {
        WalkStops(snap, snap, src, dst, order, i + 1, now);
        return err;
      }
      i := i + 1;
    }
    assert order[..i] == order;
    return None;
  }
}
