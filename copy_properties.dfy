/** What a call of copySkillDir achieves: when it succeeds and when it fails, the exact tree it
    leaves behind, that nothing away from the destination changes, and that a second call
    with the same arguments changes nothing more. */
module CopyProperties {
  import opened Results
  import opened Orders
  import opened Text
  import opened Paths
  import opened FileSystems
  import opened Copier

  lemma DirOfAppend(a: Path, r: Path)
    requires r != []
    ensures DirOf(a + r) == a + DirOf(r)
  {
    assert (a + r)[..|a + r| - 1] == a + r[..|r| - 1];
  }

  lemma AppendInjective(a: Path, r1: Path, r2: Path)
    requires a + r1 == a + r2
    ensures r1 == r2
  {
    assert r1 == (a + r1)[|a|..];
    assert r2 == (a + r2)[|a|..];
  }

  /** An entry below the source is neither below the destination nor on the way to it. */
  lemma AwayFromDestination(src: Path, dst: Path, r: Path)
    requires !(dst <= src) && !(src < dst) && r != []
    ensures !(dst <= src + r) && !(src + r <= dst)
  {
    if dst <= src + r {
      PrefixesComparable(dst, src, src + r);
    }
    if src + r <= dst {
      PrefixTransitive(src, src + r, dst);
    }
  }

  /** The tree the walk starts from: the source is a directory, the destination an empty
      directory, and neither lies inside the other. */
  ghost predicate Prepared(base: Tree, src: Path, dst: Path) {
    WellFormed(base) && src in base && base[src].kind.Dir? && dst in base && base[dst].kind.Dir?
    && !(dst <= src) && !(src < dst)
    && forall q :: q in base ==> !(dst < q)
  }

  /** After the walk has visited the entries `done`, everything outside the destination is
      as it was, and below the destination there is exactly one copy of each visited entry. */
  ghost predicate Mirrors(t: Tree, base: Tree, src: Path, dst: Path, done: seq<Path>, now: nat) {
    (forall q :: !(dst < q) ==> (q in t <==> q in base) && (q in t ==> t[q] == base[q]))
    && (forall r :: r != [] && dst + r in t ==> r in done)
    && (forall r :: r in done ==>
          r != [] && src + r in base && dst + r in t
          && t[dst + r] == Node(CopyKind(base[src + r].kind), now))
  }

  /** The directory enclosing the next entry's copy is already there. */
  lemma ParentCopied(t: Tree, base: Tree, src: Path, dst: Path, done: seq<Path>, r: Path, now: nat)
    requires Prepared(base, src, dst) && Mirrors(t, base, src, dst, done, now)
    requires r != [] && src + r in base
    requires forall r' :: r' != [] && r' < r && src + r' in base ==> r' in done
    ensures dst + r !in t || r in done
    ensures DirOf(dst + r) in t && t[DirOf(dst + r)].kind.Dir?
  {
    DirOfAppend(dst, r);
    var d := DirOf(r);
    if d == [] {
      assert dst + d == dst;
    } else {
      DirOfAppend(src, r);
      assert src + d in base && base[src + d].kind.Dir?;
      assert d < r;
      assert d in done;
    }
  }

  /** Adding the copy of one more entry extends the mirror by that entry. */
  lemma MirrorsExtend(t: Tree, base: Tree, src: Path, dst: Path, done: seq<Path>, r: Path, now: nat)
    requires Mirrors(t, base, src, dst, done, now)
    requires r != [] && src + r in base
    ensures Mirrors(t[dst + r := Node(CopyKind(base[src + r].kind), now)], base, src, dst, done + [r], now)
  {
    var p := dst + r;
    var t2 := t[p := Node(CopyKind(base[src + r].kind), now)];
    assert dst < p;
    forall r' | r' != [] && dst + r' in t2 ensures r' in done + [r] {
      if dst + r' == p {
        AppendInjective(dst, r', r);
      }
    }
    forall r' | r' in done + [r]
      ensures r' != [] && src + r' in base && dst + r' in t2
              && t2[dst + r'] == Node(CopyKind(base[src + r'].kind), now)
    {
      if r' != r && dst + r' == p {
        AppendInjective(dst, r', r);
      }
    }
  }

  /** Visiting an entry whose copy is missing, whose parent directory exists and whose source
      is unchanged since the snapshot succeeds and adds exactly its copy. */
  lemma VisitSucceeds(t: Tree, base: Tree, src: Path, dst: Path, r: Path, now: nat)
    requires src + r in base && src + r in t && t[src + r] == base[src + r]
    requires dst + r !in t && dst + r != []
    requires DirOf(dst + r) in t && t[DirOf(dst + r)].kind.Dir?
    ensures Visited(t, base, src, dst, r, now)
            == Outcome(t[dst + r := Node(CopyKind(base[src + r].kind), now)], None)
  {
    var p := dst + r;
    match base[src + r].kind {
      case Dir(perm) =>
        assert MkdirAll(t, DirOf(p), perm, now) == Ok(t);
      case Symlink(_) =>
      case File(perm, data) =>
        assert MkdirAll(t, DirOf(p), DefaultDirPerm, now) == Ok(t);
      case Other(perm, data) =>
        assert MkdirAll(t, DirOf(p), DefaultDirPerm, now) == Ok(t);
    }
  }

  /** Visiting an entry whose enclosing directories are already copied succeeds and adds
      exactly its copy. */
  lemma VisitStep(t: Tree, base: Tree, src: Path, dst: Path, done: seq<Path>, r: Path, now: nat)
    requires Prepared(base, src, dst) && Mirrors(t, base, src, dst, done, now)
    requires r != [] && src + r in base && r !in done
    requires forall r' :: r' != [] && r' < r && src + r' in base ==> r' in done
    ensures Visited(t, base, src, dst, r, now)
            == Outcome(t[dst + r := Node(CopyKind(base[src + r].kind), now)], None)
    ensures Mirrors(Visited(t, base, src, dst, r, now).tree, base, src, dst, done + [r], now)
  {
    ParentCopied(t, base, src, dst, done, r, now);
    AwayFromDestination(src, dst, r);
    assert src + r in t && t[src + r] == base[src + r];
    VisitSucceeds(t, base, src, dst, r, now);
    MirrorsExtend(t, base, src, dst, done, r, now);
  }

  /** Entries of the walk come after the entries enclosing them. */
  lemma EnclosingVisitedFirst(base: Tree, src: Path, order: seq<Path>, k: nat, r': Path)
    requires order == WalkOrder(Entries(base, src))
    requires 0 < k <= |order|
    requires r' != [] && r' < order[k - 1] && src + r' in base
    ensures r' in order[..k - 1]
  {
    EntriesIff(base, src);
    assert r' in Entries(base, src);
    var j :| 0 <= j < |order| && order[j] == r';
    PathLessIsStrictTotalOrder();
    PrefixLess(r', order[k - 1], StrLess);
    assert j < k - 1;
    assert order[..k - 1][j] == r';
  }

  /** The walk never visits an entry twice. */
  lemma VisitedOnce(order: seq<Path>, k: nat)
    requires Ascending(order) && 0 < k <= |order|
    ensures order[k - 1] !in order[..k - 1]
  {
    if order[k - 1] in order[..k - 1] {
      var j :| 0 <= j < k - 1 && order[j] == order[k - 1];
      assert PathLess(order[j], order[k - 1]);
      PathLessIsStrictTotalOrder();
    }
  }

  lemma PrefixSnoc(s: seq<Path>, k: nat)
    requires 0 < k <= |s|
    ensures s[..k] == s[..k - 1] + [s[k - 1]]
  {
  }

  /** Every entry enclosing the walk's `k`-th entry comes among the first `k - 1`. */
  lemma EnclosingAllVisited(base: Tree, src: Path, order: seq<Path>, k: nat)
    requires order == WalkOrder(Entries(base, src))
    requires 0 < k <= |order|
    ensures forall r' :: r' != [] && r' < order[k - 1] && src + r' in base ==> r' in order[..k - 1]
  {
    forall r' | r' != [] && r' < order[k - 1] && src + r' in base ensures r' in order[..k - 1] {
      EnclosingVisitedFirst(base, src, order, k, r');
    }
  }

  /** One more entry of the walk keeps the copy in step with the entries visited. */
  lemma WalkMirrorsStep(base: Tree, src: Path, dst: Path, order: seq<Path>, k: nat, now: nat)
    requires Prepared(base, src, dst)
    requires order == WalkOrder(Entries(base, src))
    requires forall r :: r in order ==> r != [] && src + r in base
    requires 0 < k <= |order|
    requires WalkCopy(base, base, src, dst, order[..k - 1], now).err == None
    requires Mirrors(WalkCopy(base, base, src, dst, order[..k - 1], now).tree, base, src, dst, order[..k - 1], now)
    ensures WalkCopy(base, base, src, dst, order[..k], now).err == None
    ensures Mirrors(WalkCopy(base, base, src, dst, order[..k], now).tree, base, src, dst, order[..k], now)
  {
    var done := order[..k - 1];
    var r := order[k - 1];
    PrefixSnoc(order, k);
    VisitedOnce(order, k);
    EnclosingAllVisited(base, src, order, k);
    var o := WalkCopy(base, base, src, dst, done, now);
    WalkSnoc(base, base, src, dst, order, k - 1, now);
    VisitStep(o.tree, base, src, dst, done, r, now);
  }

  /** Each prefix of the walk succeeds and leaves a copy of the entries visited so far. */
  lemma {:induction false} WalkMirrors(base: Tree, src: Path, dst: Path, order: seq<Path>, k: nat, now: nat)
    requires Prepared(base, src, dst)
    requires order == WalkOrder(Entries(base, src))
    requires k <= |order|
    ensures forall r :: r in order ==> r != [] && src + r in base
    ensures WalkCopy(base, base, src, dst, order[..k], now).err == None
    ensures Mirrors(WalkCopy(base, base, src, dst, order[..k], now).tree, base, src, dst, order[..k], now)
    decreases k
  {
    WalkOrderInSource(base, src);
    if k == 0 {
      assert order[..0] == [];
    } else {
      WalkMirrors(base, src, dst, order, k - 1, now);
      WalkMirrorsStep(base, src, dst, order, k, now);
    }
  }

  /** The tree a successful copy starts its walk from: the old destination removed and an
      empty directory in its place, with the directories leading to it. */
  lemma EmptyDestination(t: Tree, src: Path, dst: Path, now: nat) returns (base: Tree)
    requires WellFormed(t) && src in t && t[src].kind.Dir?
    requires !(src < dst) && !(dst < src)
    requires forall q :: q < dst && q in t ==> t[q].kind.Dir?
    ensures MkdirAll(RemoveAll(t, dst), dst, t[src].kind.perm, now) == Ok(base)
    ensures WellFormed(base) && src in base && base[src].kind.perm == t[src].kind.perm
    ensures dst in base && base[dst] == Node(Dir(t[src].kind.perm), now)
    ensures forall q :: q in base ==> !(dst < q)
    ensures forall q :: !(dst <= q) ==> (q in base <==> q in t || q < dst)
    ensures forall q :: !(dst <= q) && q in t ==> base[q] == t[q]
    ensures forall q :: q in base && q !in t ==> base[q] == Node(Dir(t[src].kind.perm), now)
  {
    var perm := t[src].kind.perm;
    var t1 := RemoveAll(t, dst);
    var made := MkdirAll(t1, dst, perm, now);
    if made.Err? {
      assert false;
    }
    base := made.value;
    if src != dst {
      assert src in t1;
    }
    forall q | q < dst ensures q in base {
      AncestorsAreDirs(base, dst, q);
    }
  }

  /** A successful copy: the walk over the empty destination mirrors the source. */
  lemma CopyWalk(t: Tree, src: Path, dst: Path, now: nat, base: Tree)
    requires src in t && t[src].kind.Dir? && !(src < dst) && !(dst < src)
    requires MkdirAll(RemoveAll(t, dst), dst, t[src].kind.perm, now) == Ok(base)
    requires WellFormed(base) && src in base && dst in base && base[dst].kind.Dir?
    requires forall q :: q in base ==> !(dst < q)
    ensures TreeCopied(t, src, dst, now).err == None
    ensures forall q :: !(dst < q) ==>
              (q in TreeCopied(t, src, dst, now).tree <==> q in base)
              && (q in base ==> TreeCopied(t, src, dst, now).tree[q] == base[q])
    ensures src != dst ==> Prepared(base, src, dst)
    ensures src != dst ==> Mirrors(TreeCopied(t, src, dst, now).tree, base, src, dst, WalkOrder(Entries(base, src)), now)
    ensures src == dst ==> TreeCopied(t, src, dst, now).tree == base
  {
    if src == dst {
      CopyOntoItself(t, src, dst, now, base);
    } else {
      CopyApart(t, src, dst, now, base);
    }
  }

  lemma CopyOntoItself(t: Tree, src: Path, dst: Path, now: nat, base: Tree)
    requires src in t && t[src].kind.Dir? && src == dst
    requires MkdirAll(RemoveAll(t, dst), dst, t[src].kind.perm, now) == Ok(base)
    requires src in base && forall q :: q in base ==> !(dst < q)
    ensures TreeCopied(t, src, dst, now) == Outcome(base, None)
  {
    var order := WalkOrder(Entries(base, src));
    TreeCopiedWalk(t, src, dst, now, base);
    assert order == [] by {
      EntriesIff(base, src);
      assert Entries(base, src) == {};
    }
  }

  lemma CopyApart(t: Tree, src: Path, dst: Path, now: nat, base: Tree)
    requires src in t && t[src].kind.Dir? && !(src < dst) && !(dst <= src)
    requires MkdirAll(RemoveAll(t, dst), dst, t[src].kind.perm, now) == Ok(base)
    requires WellFormed(base) && src in base && dst in base && base[dst].kind.Dir?
    requires forall q :: q in base ==> !(dst < q)
    ensures Prepared(base, src, dst)
    ensures TreeCopied(t, src, dst, now).err == None
    ensures Mirrors(TreeCopied(t, src, dst, now).tree, base, src, dst, WalkOrder(Entries(base, src)), now)
  {
    var order := WalkOrder(Entries(base, src));
    TreeCopiedWalk(t, src, dst, now, base);
    WholeWalk(order);
    WalkMirrors(base, src, dst, order, |order|, now);
  }

  /** Once the destination is prepared, a copy is the walk over the source's entries. */
  lemma TreeCopiedWalk(t: Tree, src: Path, dst: Path, now: nat, base: Tree)
    requires src in t && t[src].kind.Dir?
    requires MkdirAll(RemoveAll(t, dst), dst, t[src].kind.perm, now) == Ok(base)
    requires src in base
    ensures forall r :: r in WalkOrder(Entries(base, src)) ==> src + r in base
    ensures TreeCopied(t, src, dst, now) == WalkCopy(base, base, src, dst, WalkOrder(Entries(base, src)), now)
  {
    PrepareFails(t, dst, t[src].kind.perm, now);
    WalkOrderInSource(base, src);
  }

  /** The tree a successful copy leaves: outside the destination and the directories leading
      to it nothing changes; missing directories on the way are created; the destination is a
      directory with the source's mode; and below it there is exactly one entry per entry of
      the source, its copy, stamped with the time of the copy. */
  lemma CopyShape(t: Tree, src: Path, dst: Path, now: nat)
    requires WellFormed(t) && src in t && t[src].kind.Dir?
    requires !(src < dst) && !(dst <= src)
    requires forall q :: q < dst && q in t ==> t[q].kind.Dir?
    ensures TreeCopied(t, src, dst, now).err == None
    ensures forall q :: !(dst <= q) && !(q < dst) ==>
              (q in TreeCopied(t, src, dst, now).tree <==> q in t)
              && (q in t ==> TreeCopied(t, src, dst, now).tree[q] == t[q])
    ensures forall q :: q < dst ==>
              q in TreeCopied(t, src, dst, now).tree
              && TreeCopied(t, src, dst, now).tree[q]
                 == if q in t then t[q] else Node(Dir(t[src].kind.perm), now)
    ensures dst in TreeCopied(t, src, dst, now).tree
    ensures TreeCopied(t, src, dst, now).tree[dst] == Node(Dir(t[src].kind.perm), now)
    ensures forall r :: r != [] ==> (dst + r in TreeCopied(t, src, dst, now).tree <==> src + r in t)
    ensures forall r :: r != [] && src + r in t ==>
              TreeCopied(t, src, dst, now).tree[dst + r] == Node(CopyKind(t[src + r].kind), now)
  {
    var base := EmptyDestination(t, src, dst, now);
    CopyWalk(t, src, dst, now, base);
    var out := TreeCopied(t, src, dst, now).tree;
    EntriesIff(base, src);
    forall r | r != [] ensures dst + r in out <==> src + r in t {
      AwayFromDestination(src, dst, r);
    }
    forall r | r != [] && src + r in t ensures out[dst + r] == Node(CopyKind(t[src + r].kind), now) {
      AwayFromDestination(src, dst, r);
    }
  }

  /** In a well-formed tree, and unless the destination lies inside the source, a copy
      succeeds exactly when the source is a directory, the destination does not enclose it,
      and everything that exists on the way to the destination is a directory. */
  lemma CopySucceedsIff(t: Tree, src: Path, dst: Path, now: nat)
    requires WellFormed(t) && !(src < dst)
    ensures TreeCopied(t, src, dst, now).err == None <==>
              src in t && t[src].kind.Dir? && !(dst < src)
              && forall q :: q < dst && q in t ==> t[q].kind.Dir?
  {
    if src in t && t[src].kind.Dir? {
      var t1 := RemoveAll(t, dst);
      if exists q :: q < dst && q in t && !t[q].kind.Dir? {
        var q :| q < dst && q in t && !t[q].kind.Dir?;
        assert q in t1;
        MkdirAllFails(t1, dst, t[src].kind.perm, now);
      } else if dst < src {
        MkdirAllFails(t1, dst, t[src].kind.perm, now);
        var base := MkdirAll(t1, dst, t[src].kind.perm, now).value;
        assert src !in base;
      } else {
        var base := EmptyDestination(t, src, dst, now);
        CopyWalk(t, src, dst, now, base);
      }
    }
  }

  /** Removing and re-creating an empty destination directory gives the tree back. */
  lemma RebuildEmptyDir(base: Tree, dst: Path, perm: Perm, now: nat)
    requires WellFormed(base) && dst in base && base[dst] == Node(Dir(perm), now)
    requires forall q :: q in base ==> !(dst < q)
    ensures MkdirAll(RemoveAll(base, dst), dst, perm, now) == Ok(base)
  {
    var b0 := RemoveAll(base, dst);
    if dst != [] {
      assert DirOf(dst) in b0 && b0[DirOf(dst)].kind.Dir?;
      assert MkdirAll(b0, DirOf(dst), perm, now) == Ok(b0);
    }
    var b1 := b0[dst := Node(Dir(perm), now)];
    forall q ensures q in b1 <==> q in base {
      if q in base && q != dst {
        assert !(dst < q);
      }
    }
    assert forall q :: q in b1 ==> b1[q] == base[q];
    assert b1 == base;
  }

  /** Removing a path from two trees that agree everywhere outside it gives the same tree. */
  lemma RemoveAllAgreeing(t1: Tree, t2: Tree, p: Path)
    requires forall q :: !(p < q) ==> (q in t1 <==> q in t2) && (q in t1 ==> t1[q] == t2[q])
    ensures RemoveAll(t1, p) == RemoveAll(t2, p)
  {
  }

  /** Copying a second time with the same arguments and the same clock gives the same tree
      and the same result. A failed copy either changed nothing, or removed the source with
      the destination above it, so the second copy fails the same way; after a successful
      copy the destination is removed and rebuilt from an unchanged source. */
  lemma CopyIdempotent(t: Tree, src: Path, dst: Path, now: nat)
    requires WellFormed(t) && !(src < dst)
    ensures TreeCopied(TreeCopied(t, src, dst, now).tree, src, dst, now) == TreeCopied(t, src, dst, now)
  {
    CopySucceedsIff(t, src, dst, now);
    if TreeCopied(t, src, dst, now).err == None {
      SuccessfulCopyIdempotent(t, src, dst, now);
    } else if src in t && t[src].kind.Dir? && !Blocked(t, dst) {
      // What is left is a destination above the source: removing it removes the source.
      BlockedIff(t, dst);
      assert dst < src;
      var perm := t[src].kind.perm;
      PrepareFails(t, dst, perm, now);
      var base := MkdirAll(RemoveAll(t, dst), dst, perm, now).value;
      assert src !in base;
    }
  }

  lemma SuccessfulCopyIdempotent(t: Tree, src: Path, dst: Path, now: nat)
    requires WellFormed(t) && !(src < dst)
    requires TreeCopied(t, src, dst, now).err == None
    ensures TreeCopied(TreeCopied(t, src, dst, now).tree, src, dst, now) == TreeCopied(t, src, dst, now)
  {
    CopySucceedsIff(t, src, dst, now);
    var base := EmptyDestination(t, src, dst, now);
    CopyWalk(t, src, dst, now, base);
    var perm := t[src].kind.perm;
    var out := TreeCopied(t, src, dst, now).tree;
    assert src in out && out[src].kind == Dir(perm);
    RemoveAllAgreeing(out, base, dst);
    RebuildEmptyDir(base, dst, perm, now);
    EntriesIff(base, src);
    assert TreeCopied(out, src, dst, now) == WalkCopy(base, base, src, dst, WalkOrder(Entries(base, src)), now);
  }

  /** Whatever the outcome, a copy changes nothing away from the destination's line: paths
      neither inside the destination nor on the way to it keep their entries. */
  lemma {:induction false} WalkAwayFrom(t: Tree, snap: Tree, src: Path, dst: Path, rs: seq<Path>, now: nat)
    requires forall r :: r in rs ==> r != [] && src + r in snap
    ensures SameAwayFrom(t, WalkCopy(t, snap, src, dst, rs, now).tree, dst)
    decreases |rs|
  {
    if rs != [] {
      var init := rs[..|rs| - 1];
      assert forall r :: r in init ==> r in rs;
      WalkAwayFrom(t, snap, src, dst, init, now);
      var o := WalkCopy(t, snap, src, dst, init, now);
      if o.err.None? {
        var r := rs[|rs| - 1];
        SameAwayFromBelow(o.tree, Visited(o.tree, snap, src, dst, r, now).tree, dst, dst + r);
        SameAwayFromTransitive(t, o.tree, Visited(o.tree, snap, src, dst, r, now).tree, dst);
      }
    }
  }

  lemma CopyAwayFrom(t: Tree, src: Path, dst: Path, now: nat)
    ensures SameAwayFrom(t, TreeCopied(t, src, dst, now).tree, dst)
  {
    if src in t && t[src].kind.Dir? {
      var t1 := RemoveAll(t, dst);
      var made := MkdirAll(t1, dst, t[src].kind.perm, now);
      if made.Ok? {
        MkdirAllAwayFrom(t1, dst, t[src].kind.perm, now);
        SameAwayFromTransitive(t, t1, made.value, dst);
        var base := made.value;
        if src in base {
          EntriesIff(base, src);
          var order := WalkOrder(Entries(base, src));
          WalkAwayFrom(base, base, src, dst, order, now);
          SameAwayFromTransitive(t, base, TreeCopied(t, src, dst, now).tree, dst);
        }
      }
    }
  }

  lemma {:induction false} WalkWellFormed(t: Tree, snap: Tree, src: Path, dst: Path, rs: seq<Path>, now: nat)
    requires WellFormed(t)
    requires forall r :: r in rs ==> src + r in snap
    ensures WellFormed(WalkCopy(t, snap, src, dst, rs, now).tree)
    decreases |rs|
  {
    if rs != [] {
      var init := rs[..|rs| - 1];
      assert forall r :: r in init ==> r in rs;
      WalkWellFormed(t, snap, src, dst, init, now);
    }
  }

  /** Whatever the outcome, a copy leaves a well-formed tree well-formed. */
  lemma CopyWellFormed(t: Tree, src: Path, dst: Path, now: nat)
    requires WellFormed(t)
    ensures WellFormed(TreeCopied(t, src, dst, now).tree)
  {
    if src in t && t[src].kind.Dir? {
      var made := MkdirAll(RemoveAll(t, dst), dst, t[src].kind.perm, now);
      if made.Ok? && src in made.value {
        WalkOrderInSource(made.value, src);
        WalkWellFormed(made.value, made.value, src, dst, WalkOrder(Entries(made.value, src)), now);
      }
    }
  }
}
