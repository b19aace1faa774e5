/** The string functions of Go's standard library that the core relies on: strings.TrimSpace,
    strings.Split with a one-character separator, and sort.Strings. */
module Text {
  import opened Orders

  /** unicode.IsSpace: the Latin-1 white space characters and the other code points with the
      Unicode White_Space property. */
  predicate IsSpace(c: char) {
    var n := c as int;
    n == 0x09 || n == 0x0A || n == 0x0B || n == 0x0C || n == 0x0D || n == 0x20
    || n == 0x85 || n == 0xA0 || n == 0x1680 || (0x2000 <= n <= 0x200A)
    || n == 0x2028 || n == 0x2029 || n == 0x202F || n == 0x205F || n == 0x3000
  }

  function TrimLeft(s: string): (r: string)
    ensures |r| <= |s| && r == s[|s| - |r|..]
    ensures forall k :: 0 <= k < |s| - |r| ==> IsSpace(s[k])
    ensures r != [] ==> !IsSpace(r[0])
  {
    if s != [] && IsSpace(s[0]) then TrimLeft(s[1..]) else s
  }

  function TrimRight(s: string): (r: string)
    ensures |r| <= |s| && r == s[..|r|]
    ensures forall k :: |r| <= k < |s| ==> IsSpace(s[k])
    ensures r != [] ==> !IsSpace(r[|r| - 1])
  {
    if s != [] && IsSpace(s[|s| - 1]) then TrimRight(s[..|s| - 1]) else s
  }

  /** strings.TrimSpace: the longest slice of `s` that neither starts nor ends with white
      space, obtained by dropping only white space from both ends. */
  function TrimSpace(s: string): (r: string)
    ensures exists i, j :: 0 <= i <= j <= |s| && r == s[i..j]
                           && (forall k :: 0 <= k < i ==> IsSpace(s[k]))
                           && (forall k :: j <= k < |s| ==> IsSpace(s[k]))
    ensures r != [] ==> !IsSpace(r[0]) && !IsSpace(r[|r| - 1])
  {
    var left := TrimLeft(s);
    var r := TrimRight(left);
    var i := |s| - |left|;
    assert r == s[i..i + |r|];
    r
  }

  function IndexOf(s: string, c: char): (i: nat)
    requires c in s
    ensures i < |s| && s[i] == c && c !in s[..i]
  {
    if s[0] == c then 0 else 1 + IndexOf(s[1..], c)
  }

  /** The pieces joined back together, `sep` between consecutive pieces. */
  function JoinWith(parts: seq<string>, sep: char): string
  {
    if |parts| == 0 then ""
    else if |parts| == 1 then parts[0]
    else parts[0] + [sep] + JoinWith(parts[1..], sep)
  }

  /** strings.Split(s, sep) for a one-character separator: at least one piece, no piece
      holds the separator, and joining the pieces with the separator gives `s` back. */
  function Split(s: string, sep: char): (parts: seq<string>)
    ensures |parts| >= 1
    ensures forall i :: 0 <= i < |parts| ==> sep !in parts[i]
    ensures JoinWith(parts, sep) == s
    decreases |s|
  {
    if sep !in s then [s]
    else
      var i := IndexOf(s, sep);
      var rest := Split(s[i + 1..], sep);
      assert s == s[..i] + [sep] + s[i + 1..];
      [s[..i]] + rest
  }

  /** The other round trip: pieces free of the separator are recovered by splitting their join. */
  lemma {:induction false} SplitJoin(parts: seq<string>, sep: char)
    requires |parts| >= 1
    requires forall i :: 0 <= i < |parts| ==> sep !in parts[i]
    ensures Split(JoinWith(parts, sep), sep) == parts
    decreases |parts|
  {
    var s := JoinWith(parts, sep);
    if |parts| > 1 {
      var tail := JoinWith(parts[1..], sep);
      assert s == parts[0] + [sep] + tail;
      assert sep in s by { assert s[|parts[0]|] == sep; }
      var i := IndexOf(s, sep);
      assert s[..|parts[0]|] == parts[0];
      assert i <= |parts[0]| by { assert s[|parts[0]|] == sep; }
      assert i == |parts[0]|;
      assert s[..i] == parts[0];
      assert s[i + 1..] == tail;
      SplitJoin(parts[1..], sep);
      assert Split(s, sep) == [parts[0]] + Split(tail, sep);
      assert parts == [parts[0]] + parts[1..];
    }
  }

  /** A string with exactly one separator splits into the two sides. */
  lemma SplitInTwo(a: string, b: string, sep: char)
    requires sep !in a && sep !in b
    ensures Split(a + [sep] + b, sep) == [a, b]
  {
    assert [a, b][1..] == [b];
    assert JoinWith([a, b], sep) == a + [sep] + b;
    SplitJoin([a, b], sep);
  }

  predicate CharLess(x: char, y: char) {
    x < y
  }

  /** Byte-wise string order of Go (code point order here). */
  predicate StrLess(a: string, b: string) {
    LexLess(a, b, CharLess)
  }

  lemma StrLessIsStrictTotalOrder()
    ensures StrictTotalOrder(StrLess)
  {
    LexStrictTotalOrder(CharLess);
  }

  lemma StrLessAsymmetric(x: string, y: string)
    requires StrLess(x, y)
    ensures !StrLess(y, x)
  {
    StrLessIsStrictTotalOrder();
  }

  /** "Not greater" is transitive. */
  lemma StrNotLessTransitive(x: string, y: string, z: string)
    requires !StrLess(y, x) && !StrLess(z, y)
    ensures !StrLess(z, x)
  {
    StrLessIsStrictTotalOrder();
  }

  /** Non-decreasing in string order. */
  ghost predicate Sorted(s: seq<string>) {
    forall i, j :: 0 <= i < j < |s| ==> !StrLess(s[j], s[i])
  }

  /** The first `i + 1` strings are in order, except possibly around position `j`. */
  ghost predicate InOrderExcept(s: seq<string>, i: nat, j: nat) {
    forall k, l :: 0 <= k < l <= i && l != j && l < |s| ==> !StrLess(s[l], s[k])
  }

  /** The string at `j` is no larger than any string after it up to `i`. */
  ghost predicate NoLargerAfter(s: seq<string>, i: nat, j: nat)
    requires j < |s|
  {
    forall l :: j < l <= i && l < |s| ==> !StrLess(s[l], s[j])
  }

  /** Swapping the string at `j` with the larger one before it moves the hole one place back. */
  lemma InsertSwap(s: seq<string>, i: nat, j: nat)
    requires 0 < j <= i < |s|
    requires InOrderExcept(s, i, j) && NoLargerAfter(s, i, j) && StrLess(s[j], s[j - 1])
    ensures InOrderExcept(s[j := s[j - 1]][j - 1 := s[j]], i, j - 1)
    ensures NoLargerAfter(s[j := s[j - 1]][j - 1 := s[j]], i, j - 1)
  {
    StrLessAsymmetric(s[j], s[j - 1]);
    var s' := s[j := s[j - 1]][j - 1 := s[j]];
    forall l | j - 1 < l <= i ensures !StrLess(s'[l], s'[j - 1]) {
      assert l > j ==> s'[l] == s[l];
    }
  }

  /** Once the string at `j` is no smaller than the one before it, the first `i + 1` strings
      are in order. */
  lemma InsertDone(s: seq<string>, i: nat, j: nat)
    requires j <= i < |s|
    requires InOrderExcept(s, i, j) && NoLargerAfter(s, i, j)
    requires j == 0 || !StrLess(s[j], s[j - 1])
    ensures Sorted(s[..i + 1])
  {
    forall k, l | 0 <= k < l <= i ensures !StrLess(s[l], s[k]) {
      if l == j && k < j - 1 {
        StrNotLessTransitive(s[k], s[j - 1], s[j]);
      }
    }
  }

  /** One step of insertion sort: moves `a[i]` back past every larger string before it. */
  method InsertAt(a: array<string>, i: nat)
    requires i < a.Length && Sorted(a[..i])
    modifies a
    ensures Sorted(a[..i + 1])
    ensures multiset(a[..]) == old(multiset(a[..]))
  {
    var j := i;
    assert InOrderExcept(a[..], i, j);
    while j > 0 && StrLess(a[j], a[j - 1])
      invariant 0 <= j <= i
      invariant InOrderExcept(a[..], i, j) && NoLargerAfter(a[..], i, j)
      invariant multiset(a[..]) == old(multiset(a[..]))
    {
      ghost var before := a[..];
      InsertSwap(before, i, j);
      a[j], a[j - 1] := a[j - 1], a[j];
      assert a[..] == before[j := before[j - 1]][j - 1 := before[j]];
      j := j - 1;
    }
    InsertDone(a[..], i, j);
  }

  /** sort.Strings: sorts the array in place into non-decreasing order, as a permutation. */
  method SortStrings(a: array<string>)
    modifies a
    ensures Sorted(a[..])
    ensures multiset(a[..]) == old(multiset(a[..]))
  {
    for i := 0 to a.Length
      invariant Sorted(a[..i])
      invariant multiset(a[..]) == old(multiset(a[..]))
    {
      InsertAt(a, i);
    }
    assert a[..a.Length] == a[..];
  }
}
