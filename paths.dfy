/** Paths as sequences of components. An absolute path "/a/b" is ["a", "b"] and the root "/"
    is []. filepath.Join and filepath.Dir are modelled on these sequences: joining splits each
    element at '/' and cleans the result lexically, as filepath.Clean does for an absolute path. */
module Paths {
  import opened Orders
  import opened Text

  type Path = seq<string>

  /** filepath.Dir: the parent directory; the root is its own parent. */
  function DirOf(p: Path): (d: Path)
    ensures d <= p
    ensures p != [] ==> |d| == |p| - 1
  {
    if p == [] then [] else p[..|p| - 1]
  }

  /** Neither path lies inside the other. */
  predicate Disjoint(p: Path, q: Path) {
    !(p <= q) && !(q <= p)
  }

  /** Two prefixes of one path are prefixes of one another. */
  lemma PrefixesComparable(a: Path, b: Path, c: Path)
    requires a <= c && b <= c
    ensures a <= b || b <= a
  {
    if |a| <= |b| {
      assert a == c[..|a|] == b[..|a|];
    } else {
      assert b == c[..|b|] == a[..|b|];
    }
  }

  lemma PrefixTransitive(a: Path, b: Path, c: Path)
    requires a <= b && b <= c
    ensures a <= c
  {
    assert a == b[..|a|] == c[..|a|];
  }

  /** Component order: the order in which filepath.WalkDir visits a tree, since it visits a
      directory before its entries and the entries in sorted name order. */
  predicate PathLess(a: Path, b: Path) {
    LexLess(a, b, StrLess)
  }

  lemma PathLessIsStrictTotalOrder()
    ensures StrictTotalOrder(PathLess)
  {
    StrLessIsStrictTotalOrder();
    LexStrictTotalOrder(StrLess);
  }

  /** A component that filepath.Clean keeps unchanged. */
  predicate IsName(c: string) {
    c != "" && c != "." && c != ".."
  }

  /** A clean absolute path: no empty, "." or ".." component. */
  predicate IsClean(p: Path) {
    forall i :: 0 <= i < |p| ==> IsName(p[i])
  }

  /** Lexical cleaning of the components in `rest` appended to the clean path `acc`: empty and
      "." components vanish, ".." removes the last component, and ".." at the root stays there. */
  function CleanFrom(acc: Path, rest: seq<string>): (r: Path)
    ensures IsClean(acc) ==> IsClean(r)
    decreases |rest|
  {
    if rest == [] then acc
    else if rest[0] == "" || rest[0] == "." then CleanFrom(acc, rest[1..])
    else if rest[0] == ".." then CleanFrom(DirOf(acc), rest[1..])
    else CleanFrom(acc + [rest[0]], rest[1..])
  }

  /** filepath.Clean for an absolute path given by its components. */
  function Clean(elems: seq<string>): Path {
    CleanFrom([], elems)
  }

  /** Every element of `elems` split at '/'. */
  function Components(elems: seq<string>): seq<string> {
    if elems == [] then [] else Split(elems[0], '/') + Components(elems[1..])
  }

  /** filepath.Join(root, elems...) for an absolute `root`. */
  function Join(root: Path, elems: seq<string>): (r: Path)
    ensures IsClean(r)
  {
    Clean(root + Components(elems))
  }

  /** Cleaning the concatenation continues from the cleaned first part. */
  lemma {:induction false} CleanFromAppend(acc: Path, a: seq<string>, b: seq<string>)
    ensures CleanFrom(acc, a + b) == CleanFrom(CleanFrom(acc, a), b)
    decreases |a|
  {
    if a != [] {
      assert (a + b)[0] == a[0] && (a + b)[1..] == a[1..] + b;
      var next := if a[0] == "" || a[0] == "." then acc
                  else if a[0] == ".." then DirOf(acc) else acc + [a[0]];
      CleanFromAppend(next, a[1..], b);
    } else {
      assert a + b == b;
    }
  }

  /** Clean components are kept as they are. */
  lemma {:induction false} CleanFromClean(acc: Path, rest: seq<string>)
    requires IsClean(rest)
    ensures CleanFrom(acc, rest) == acc + rest
    decreases |rest|
  {
    if rest != [] {
      CleanFromClean(acc + [rest[0]], rest[1..]);
      assert acc + [rest[0]] + rest[1..] == acc + rest;
    }
  }

  /** Clean is the identity on clean paths; in particular it is idempotent. */
  lemma CleanIdempotent(p: Path)
    requires IsClean(p)
    ensures Clean(p) == p
    ensures Clean(Clean(p)) == Clean(p)
  {
    CleanFromClean([], p);
  }

  /** Without ".." components, cleaning only extends the path it starts from. */
  lemma {:induction false} CleanFromExtends(acc: Path, rest: seq<string>)
    requires ".." !in rest
    ensures acc <= CleanFrom(acc, rest)
    decreases |rest|
  {
    if rest != [] {
      if rest[0] == "" || rest[0] == "." {
        CleanFromExtends(acc, rest[1..]);
      } else {
        CleanFromExtends(acc + [rest[0]], rest[1..]);
        PrefixTransitive(acc, acc + [rest[0]], CleanFrom(acc + [rest[0]], rest[1..]));
      }
    }
  }

  /** A join whose elements hold no ".." component stays inside the (clean) root. */
  lemma JoinStaysInside(root: Path, elems: seq<string>)
    requires IsClean(root)
    requires ".." !in Components(elems)
    ensures root <= Join(root, elems)
  {
    CleanFromAppend([], root, Components(elems));
    CleanFromClean([], root);
    assert [] + root == root;
    CleanFromExtends(root, Components(elems));
  }

  lemma ComponentsPair(a: string, b: string)
    ensures Components([a, b]) == Split(a, '/') + Split(b, '/')
  {
    assert [a, b][1..] == [b];
    assert Components([b][1..]) == [];
  }

  /** Cleaning components after clean ones continues from their concatenation. */
  lemma CleanAfterClean(root: Path, dir: seq<string>, rest: seq<string>)
    requires IsClean(root) && IsClean(dir)
    ensures IsClean(root + dir)
    ensures Clean(root + (dir + rest)) == CleanFrom(root + dir, rest)
  {
    assert root + (dir + rest) == (root + dir) + rest;
    CleanFromAppend([], root + dir, rest);
    CleanFromClean([], root + dir);
    assert [] + (root + dir) == root + dir;
  }

  lemma SplitDotDotX()
    ensures Split("../x", '/') == ["..", "x"]
  {
    var s := "../x";
    assert s[2] == '/' && '/' !in s[..2];
    assert '/' in s;
    assert IndexOf(s, '/') == 2;
    assert s[..2] == ".." && s[3..] == "x";
    assert '/' !in "x";
  }

  lemma ComponentsDotDotX()
    ensures Components(["../x"]) == ["..", "x"]
  {
    SplitDotDotX();
    assert Components(["../x"][1..]) == [];
  }

  /** Cleaning "/home/proj/../x" gives "/home/x". */
  lemma CleanDotDot()
    ensures Clean(["home", "proj", "..", "x"]) == ["home", "x"]
  {
    var all := ["home", "proj", "..", "x"];
    assert all[1..] == ["proj", "..", "x"];
    assert CleanFrom([], all) == CleanFrom(["home"], ["proj", "..", "x"]);
    assert ["proj", "..", "x"][1..] == ["..", "x"];
    assert CleanFrom(["home"], ["proj", "..", "x"]) == CleanFrom(["home", "proj"], ["..", "x"]);
    assert DirOf(["home", "proj"]) == ["home"];
    assert ["..", "x"][1..] == ["x"];
    assert CleanFrom(["home", "proj"], ["..", "x"]) == CleanFrom(["home"], ["x"]);
    assert ["x"][1..] == [];
    assert CleanFrom(["home"], ["x"]) == CleanFrom(["home", "x"], []);
  }

  /** A ".." in a joined element leaves the root: "/home/proj" joined with "../x" is "/home/x". */
  lemma JoinCanEscape()
    ensures Join(["home", "proj"], ["../x"]) == ["home", "x"]
    ensures !(["home", "proj"] <= Join(["home", "proj"], ["../x"]))
  {
    ComponentsDotDotX();
    assert ["home", "proj"] + ["..", "x"] == ["home", "proj", "..", "x"];
    CleanDotDot();
    assert ["home", "x"][1] != ["home", "proj"][1];
  }
}
