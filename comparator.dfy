/** dirsEqual, filesEqual and equalBytes: whether a copied skill still matches its source. Two
    trees match when every entry below the source has a matching entry at the same place below
    the destination, and the destination holds nothing the source lacks. Modification times
    play no part. */
module Comparator {
  import opened Results
  import opened Paths
  import opened FileSystems
  import opened Copier
  import opened CopyProperties

  /** How dirsEqual judges the entry at `d` against the source entry at `s`: a link matches a
      link with the same target, a directory any directory, a regular file a regular file with
      the same permission bits and the same contents; any other kind of source entry never
      matches. */
  predicate EntryMatches(t: Tree, s: Path, d: Path)
    requires s in t
  {
    d in t &&
    match t[s].kind
    case Symlink(target) => t[d].kind.Symlink? && t[d].kind.target == target
    case Dir(_) => t[d].kind.Dir?
    case File(perm, data) => t[d].kind.File? && t[d].kind.perm == perm && t[d].kind.data == data
    case Other(_, _) => false
  }

  /** Every entry below `src` is matched below `dst`. */
  ghost predicate SourceCovered(t: Tree, src: Path, dst: Path) {
    forall r :: r != [] && src + r in t ==> EntryMatches(t, src + r, dst + r)
  }

  /** Everything below `dst` has a counterpart below `src`. */
  ghost predicate NothingExtra(t: Tree, src: Path, dst: Path) {
    forall r :: r != [] && dst + r in t ==> src + r in t
  }

  /** The verdict of dirsEqual: the source must be an existing directory; a destination that
      does not exist or is not a directory is simply unequal, but one that cannot be looked up
      because it is blocked is an error. */
  ghost function TreesEqual(t: Tree, src: Path, dst: Path): Result<bool> {
    if src !in t then Err(Missing(t, src))
    else if !t[src].kind.Dir? then Err(NotADirectory(src))
    else if dst !in t then (if Blocked(t, dst) then Err(NotADirectory(dst)) else Ok(false))
    else if !t[dst].kind.Dir? then Ok(false)
    else Ok(SourceCovered(t, src, dst) && NothingExtra(t, src, dst))
  }

  /** No entry below `p` is of a kind other than directory, regular file or symbolic link. */
  ghost predicate NoSpecialFiles(t: Tree, p: Path) {
    forall r :: r != [] && p + r in t ==> !t[p + r].kind.Other?
  }

  /** The read size of filesEqual: 32 KiB. */
  const ChunkSize: nat := 32 * 1024

  /** equalBytes: same length and the same byte at every index. */
  method EqualBytes(a: seq<byte>, b: seq<byte>) returns (r: bool)
    ensures r <==> a == b
  {
    if |a| != |b| {
      return false;
    }
    for i := 0 to |a|
      invariant a[..i] == b[..i]
    {
      if a[i] != b[i] {
        return false;
      }
      assert a[..i + 1] == a[..i] + [a[i]];
      assert b[..i + 1] == b[..i] + [b[i]];
    }
    assert a == a[..|a|] && b == b[..|b|];
    return true;
  }

  /** A file filesEqual can open and read: its bytes are `data`. */
  predicate Readable(t: Tree, p: Path) {
    p in t && (t[p].kind.File? || t[p].kind.Other?)
  }

  /** filesEqual: a missing file is an error; files of different sizes are unequal; otherwise
      both files are read in chunks of ChunkSize bytes and compared chunk by chunk until both
      reach their end together. */
  method FilesEqual(t: Tree, a: Path, b: Path) returns (r: Result<bool>)
    requires a !in t || Readable(t, a)
    requires b !in t || Readable(t, b)
    ensures r.Ok? <==> a in t && b in t
    ensures r.Err? ==> r.error == if a !in t then Missing(t, a) else Missing(t, b)
    ensures r.Ok? ==> (r.value <==> t[a].kind.data == t[b].kind.data)
  {
    if a !in t {
      return Err(Missing(t, a));
    }
    if b !in t {
      return Err(Missing(t, b));
    }
    var dataA := t[a].kind.data;
    var dataB := t[b].kind.data;
    if |dataA| != |dataB| {
      return Ok(false);
    }
    // Both files are read up to the same offset, since every read so far returned the same count.
    var offset := 0;
    while true
      invariant offset <= |dataA| == |dataB|
      invariant dataA[..offset] == dataB[..offset]
      decreases |dataA| - offset
    {
      var readA := if |dataA| - offset < ChunkSize then |dataA| - offset else ChunkSize;
      var readB := if |dataB| - offset < ChunkSize then |dataB| - offset else ChunkSize;
      var eofA, eofB := readA == 0, readB == 0;
      if readA != readB {
        return Ok(false);
      }
      if readA > 0 {
        var same := EqualBytes(dataA[offset..offset + readA], dataB[offset..offset + readB]);
        if !same {
          assert dataA[offset..offset + readA] == dataA[..offset + readA][offset..];
          assert dataB[offset..offset + readA] == dataB[..offset + readA][offset..];
          return Ok(false);
        }
      }
      if eofA || eofB {
        assert dataA == dataA[..offset] && dataB == dataB[..offset];
        return Ok(eofA && eofB);
      }
      assert dataA[..offset + readA] == dataA[..offset] + dataA[offset..offset + readA];
      assert dataB[..offset + readA] == dataB[..offset] + dataB[offset..offset + readA];
      offset := offset + readA;
    }
  }

  /** The check dirsEqual makes for one entry of the source. */
  method CompareEntry(t: Tree, s: Path, d: Path) returns (m: bool)
    requires s in t
    ensures m == EntryMatches(t, s, d)
  {
    if d !in t {
      return false;
    }
    match t[s].kind {
      case Symlink(target) =>
        return t[d].kind.Symlink? && t[d].kind.target == target;
      case Dir(_) =>
        return t[d].kind.Dir?;
      case Other(_, _) =>
        return false;
      case File(perm, _) =>
        if !t[d].kind.File? || t[d].kind.perm != perm {
          return false;
        }
        var equal := FilesEqual(t, s, d);
        return equal.value;
    }
  }

  /** Each of the entries `rs` below `src` exists and is matched below `dst`. */
  ghost predicate AllMatched(t: Tree, src: Path, dst: Path, rs: seq<Path>)
    decreases |rs|
  {
    rs == [] ||
    (AllMatched(t, src, dst, rs[..|rs| - 1])
     && src + rs[|rs| - 1] in t && EntryMatches(t, src + rs[|rs| - 1], dst + rs[|rs| - 1]))
  }

  lemma {:induction false} AllMatchedEach(t: Tree, src: Path, dst: Path, rs: seq<Path>, r: Path)
    requires AllMatched(t, src, dst, rs) && r in rs
    ensures src + r in t && EntryMatches(t, src + r, dst + r)
    decreases |rs|
  {
    if rs[|rs| - 1] != r {
      assert r in rs[..|rs| - 1] by {
        var j :| 0 <= j < |rs| && rs[j] == r;
        assert rs[..|rs| - 1][j] == r;
      }
      AllMatchedEach(t, src, dst, rs[..|rs| - 1], r);
    }
  }

  lemma AllMatchedSnoc(t: Tree, src: Path, dst: Path, rs: seq<Path>, i: nat)
    requires i < |rs| && AllMatched(t, src, dst, rs[..i])
    requires src + rs[i] in t && EntryMatches(t, src + rs[i], dst + rs[i])
    ensures AllMatched(t, src, dst, rs[..i + 1])
  {
    assert rs[..i + 1][..i] == rs[..i];
  }

  /** Matching every entry of the walk below `src` covers the source. */
  lemma WalkCovers(t: Tree, src: Path, dst: Path, order: seq<Path>)
    requires order == WalkOrder(Entries(t, src))
    requires AllMatched(t, src, dst, order[..|order|])
    ensures SourceCovered(t, src, dst)
  {
    assert order[..|order|] == order;
    forall r | r != [] && src + r in t ensures EntryMatches(t, src + r, dst + r) {
      EntryVisited(t, src, r);
      AllMatchedEach(t, src, dst, order, r);
    }
  }

  /** Finding every entry of the walk below `dst` below `src` too leaves nothing extra. */
  lemma WalkFindsNothingExtra(t: Tree, src: Path, dst: Path, order: seq<Path>)
    requires order == WalkOrder(Entries(t, dst))
    requires forall j :: 0 <= j < |order| ==> src + order[j] in t
    ensures NothingExtra(t, src, dst)
  {
    forall r | r != [] && dst + r in t ensures src + r in t {
      EntryVisited(t, dst, r);
    }
  }

  /** The first walk of dirsEqual: every entry below `src`, in walk order, until one does not
      match. */
  method SourceWalk(t: Tree, src: Path, dst: Path) returns (covered: bool)
    ensures covered == SourceCovered(t, src, dst)
  {
    var order := SortedEntries(t, src);
    for i := 0 to |order|
      invariant AllMatched(t, src, dst, order[..i])
    {
      assert order[i] in order;
      var m := CompareEntry(t, src + order[i], dst + order[i]);
      if !m {
        return false;
      }
      AllMatchedSnoc(t, src, dst, order, i);
    }
    WalkCovers(t, src, dst, order);
    return true;
  }

  /** The second walk of dirsEqual: every entry below `dst` must exist below `src`. */
  method TargetWalk(t: Tree, src: Path, dst: Path) returns (nothingExtra: bool)
    ensures nothingExtra == NothingExtra(t, src, dst)
  {
    var order := SortedEntries(t, dst);
    for i := 0 to |order|
      invariant forall j :: 0 <= j < i ==> src + order[j] in t
    {
      if src + order[i] !in t {
        assert order[i] in order;
        return false;
      }
    }
    WalkFindsNothingExtra(t, src, dst, order);
    return true;
  }

  /** dirsEqual. */
  method DirsEqual(t: Tree, src: Path, dst: Path) returns (r: Result<bool>)
    ensures r == TreesEqual(t, src, dst)
  {
    if src !in t {
      return Err(Missing(t, src));
    }
    if !t[src].kind.Dir? {
      return Err(NotADirectory(src));
    }
    if dst !in t {
      if Blocked(t, dst) {
        return Err(NotADirectory(dst));
      }
      return Ok(false);
    }
    if !t[dst].kind.Dir? {
      return Ok(false);
    }
    var covered := SourceWalk(t, src, dst);
    if !covered {
      return Ok(false);
    }
    var nothingExtra := TargetWalk(t, src, dst);
    return Ok(nothingExtra);
  }

  /** Matching trees hold entries at exactly the same relative paths. */
  lemma EqualTreesSamePaths(t: Tree, src: Path, dst: Path)
    requires TreesEqual(t, src, dst) == Ok(true)
    ensures forall r :: r != [] ==> (src + r in t <==> dst + r in t)
  {
    forall r | r != [] && src + r in t ensures dst + r in t {
      assert EntryMatches(t, src + r, dst + r);
    }
  }

  /** dirsEqual is symmetric on matching trees. */
  lemma EqualTreesSymmetric(t: Tree, src: Path, dst: Path)
    requires TreesEqual(t, src, dst) == Ok(true)
    ensures TreesEqual(t, dst, src) == Ok(true)
  {
    forall r | r != [] && dst + r in t ensures EntryMatches(t, dst + r, src + r) {
      assert EntryMatches(t, src + r, dst + r);
    }
    EqualTreesSamePaths(t, src, dst);
  }

  /** A directory matches itself exactly when nothing below it is a special file. */
  lemma EqualTreesReflexive(t: Tree, p: Path)
    requires p in t && t[p].kind.Dir?
    ensures TreesEqual(t, p, p) == Ok(true) <==> NoSpecialFiles(t, p)
  {
    if !NoSpecialFiles(t, p) {
      var r :| r != [] && p + r in t && t[p + r].kind.Other?;
      assert !EntryMatches(t, p + r, p + r);
    }
  }

  /** A copy to a destination apart from the source matches the source entry by entry. */
  lemma CopyApartMatches(t: Tree, src: Path, dst: Path, now: nat)
    requires WellFormed(t) && src in t && t[src].kind.Dir?
    requires !(src < dst) && !(dst <= src)
    requires forall q :: q < dst && q in t ==> t[q].kind.Dir?
    requires NoSpecialFiles(t, src)
    ensures TreesEqual(TreeCopied(t, src, dst, now).tree, src, dst) == Ok(true)
  {
    CopyShape(t, src, dst, now);
    var out := TreeCopied(t, src, dst, now).tree;
    assert src in out && out[src] == t[src];
    forall r | r != [] && src + r in out ensures EntryMatches(out, src + r, dst + r) {
      AwayFromDestination(src, dst, r);
      assert out[src + r] == t[src + r];
    }
    assert SourceCovered(out, src, dst);
    forall r | r != [] && dst + r in out ensures src + r in out {
      AwayFromDestination(src, dst, r);
    }
  }

  /** A successful copySkillDir of a tree without special files makes dirsEqual report that
      the destination matches the source. */
  lemma CopyFidelity(t: Tree, src: Path, dst: Path, now: nat)
    requires WellFormed(t) && !(src < dst)
    requires TreeCopied(t, src, dst, now).err == None
    requires NoSpecialFiles(t, src)
    ensures TreesEqual(TreeCopied(t, src, dst, now).tree, src, dst) == Ok(true)
  {
    CopySucceedsIff(t, src, dst, now);
    if src == dst {
      var base := EmptyDestination(t, src, dst, now);
      CopyWalk(t, src, dst, now, base);
    } else {
      CopyApartMatches(t, src, dst, now);
    }
  }

  /** A copied special file becomes a regular file, which dirsEqual never accepts: such a
      skill is reported as drifted after every copy. */
  lemma CopySpecialFileNeverMatches(t: Tree, src: Path, dst: Path, now: nat, r: Path)
    requires WellFormed(t) && !(src < dst) && src != dst
    requires TreeCopied(t, src, dst, now).err == None
    requires r != [] && src + r in t && t[src + r].kind.Other?
    ensures TreesEqual(TreeCopied(t, src, dst, now).tree, src, dst) == Ok(false)
  {
    CopySucceedsIff(t, src, dst, now);
    var out := TreeCopied(t, src, dst, now).tree;
    CopyShape(t, src, dst, now);
    AwayFromDestination(src, dst, r);
    assert !EntryMatches(out, src + r, dst + r);
  }

  /** When the source and the destination exist, dirsEqual looks only at them and at what lies
      below them. */
  lemma TreesEqualFrame(t1: Tree, t2: Tree, src: Path, dst: Path)
    requires forall q :: src <= q || dst <= q ==> (q in t1 <==> q in t2) && (q in t1 ==> t1[q] == t2[q])
    requires src in t1 && dst in t1
    ensures TreesEqual(t1, src, dst) == TreesEqual(t2, src, dst)
  {
    assert SourceCovered(t1, src, dst) == SourceCovered(t2, src, dst);
    assert NothingExtra(t1, src, dst) == NothingExtra(t2, src, dst);
  }
}
