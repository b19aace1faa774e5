/** The selection step of promptAgents: the line the user typed is split at commas into
    1-based numbers of the sorted agent list; parsePositiveInt reads each number. */
module Selection {
  import opened Results
  import opened Text
  import opened Agents

  predicate IsDigit(c: char) {
    '0' <= c <= '9'
  }

  predicate AllDigits(d: string) {
    forall i :: 0 <= i < |d| ==> IsDigit(d[i])
  }

  /** The number a run of decimal digits denotes. */
  function DigitsValue(d: string): nat
    requires AllDigits(d)
    decreases |d|
  {
    if d == [] then 0 else DigitsValue(d[..|d| - 1]) * 10 + (d[|d| - 1] as int - '0' as int)
  }

  /** The length of the run of decimal digits at the start of `s`. */
  function DigitRun(s: string): (n: nat)
    ensures n <= |s| && AllDigits(s[..n])
    ensures n < |s| ==> !IsDigit(s[n])
  {
    if s == [] || !IsDigit(s[0]) then 0
    else
      var n := 1 + DigitRun(s[1..]);
      assert s[..n] == [s[0]] + s[1..][..n - 1];
      n
  }

  const MinInt64: int := -0x8000_0000_0000_0000
  const MaxInt64: int := 0x7fff_ffff_ffff_ffff

  /** fmt.Sscanf(s, "%d", &n) with a 64-bit int: an optional sign and then the longest run of
      decimal digits are read, and the rest of `s` is ignored; input that ends before a digit
      could be read (nothing, or a sign alone) is an unexpected end, no digits is an error,
      and a value outside the 64-bit range is an error. */
  function ScanDecimal(s: string): (r: Result<int>)
    ensures r.Ok? ==> MinInt64 <= r.value <= MaxInt64
    ensures r == Err(UnexpectedEof) <==> s == [] || (|s| == 1 && (s[0] == '+' || s[0] == '-'))
  {
    if s == [] then Err(UnexpectedEof)
    else
      var signed := s[0] == '+' || s[0] == '-';
      var digits := if signed then s[1..] else s;
      var n := DigitRun(digits);
      if digits == [] then Err(UnexpectedEof)
      else if n == 0 then Err(ExpectedInteger)
      else
        var magnitude := DigitsValue(digits[..n]);
        var v: int := if s[0] == '-' then -(magnitude as int) else magnitude;
        if v < MinInt64 || v > MaxInt64 then Err(IntegerOutOfRange) else Ok(v)
  }

  /** parsePositiveInt: the scanned number when it is at least 1. */
  function ParsePositiveInt(s: string): (r: Result<int>)
    ensures r.Ok? ==> 1 <= r.value <= MaxInt64 && ScanDecimal(s) == Ok(r.value)
    ensures r.Err? <==> ScanDecimal(s).Err? || ScanDecimal(s).value < 1
  {
    match ScanDecimal(s)
    case Err(e) => Err(e)
    case Ok(n) => if n <= 0 then Err(NotPositive) else Ok(n)
  }

  /** The decimal rendering of a number, as strconv.Itoa writes it. */
  function Decimal(n: nat): (d: string)
    ensures d != [] && AllDigits(d)
  {
    var last := [(n % 10 + '0' as int) as char];
    if n < 10 then last else Decimal(n / 10) + last
  }

  lemma {:induction false} DecimalValue(n: nat)
    ensures DigitsValue(Decimal(n)) == n
  {
    var d := Decimal(n);
    assert d[|d| - 1] as int - '0' as int == n % 10;
    if n >= 10 {
      DecimalValue(n / 10);
      assert d[..|d| - 1] == Decimal(n / 10);
    }
  }

  lemma {:induction false} DigitRunOfPrefix(d: string, rest: string)
    requires AllDigits(d)
    requires rest == [] || !IsDigit(rest[0])
    ensures DigitRun(d + rest) == |d|
    decreases |d|
  {
    if d != [] {
      assert (d + rest)[1..] == d[1..] + rest;
      DigitRunOfPrefix(d[1..], rest);
    } else {
      assert d + rest == rest;
    }
  }

  /** A positive number written in decimal is read back, whatever non-digit text follows it. */
  lemma PositiveIntRoundTrip(n: nat, rest: string)
    requires 1 <= n <= MaxInt64
    requires rest == [] || !IsDigit(rest[0])
    ensures ParsePositiveInt(Decimal(n) + rest) == Ok(n)
  {
    var d := Decimal(n);
    assert (d + rest)[0] == d[0];
    DigitRunOfPrefix(d, rest);
    assert (d + rest)[..|d|] == d;
    DecimalValue(n);
  }

  /** bufio.Reader.ReadString('\n'): the input up to and including the first newline, or
      the whole input when it holds none. */
  function ReadLine(input: string): (line: string)
    ensures line <= input
    ensures '\n' in input ==> line != [] && line[|line| - 1] == '\n' && '\n' !in line[..|line| - 1]
    ensures '\n' !in input ==> line == input
  {
    if '\n' in input then input[..IndexOf(input, '\n') + 1] else input
  }

  /** One part of the selection: blank parts pick nothing; otherwise the part must be a
      number between 1 and the number of agents, and picks that agent. */
  function PickOne(before: seq<string>, part: string, agents: seq<string>): Result<seq<string>> {
    var trimmed := TrimSpace(part);
    if trimmed == "" then Ok(before)
    else
      match ParsePositiveInt(trimmed)
      case Err(_) => Err(InvalidSelection(trimmed))
      case Ok(idx) =>
        if idx < 1 || idx > |agents| then Err(SelectionOutOfRange(idx))
        else Ok(before + [agents[idx - 1]])
  }

  /** A non-blank part picks by the number it parses to. */
  lemma PickOneParsed(before: seq<string>, part: string, agents: seq<string>, idx: Result<int>)
    requires TrimSpace(part) != "" && idx == ParsePositiveInt(TrimSpace(part))
    ensures PickOne(before, part, agents)
            == if idx.Err? then Err(InvalidSelection(TrimSpace(part)))
               else if idx.value < 1 || idx.value > |agents| then Err(SelectionOutOfRange(idx.value))
               else Ok(before + [agents[idx.value - 1]])
  {
  }

  /** The agents the parts pick, in the order of the parts and with repetitions, or the error
      of the first part that is not a number in range. */
  function Picks(parts: seq<string>, agents: seq<string>): Result<seq<string>>
    decreases |parts|
  {
    if parts == [] then Ok([])
    else
      match Picks(parts[..|parts| - 1], agents)
      case Err(e) => Err(e)
      case Ok(before) => PickOne(before, parts[|parts| - 1], agents)
  }

  lemma PicksStep(parts: seq<string>, agents: seq<string>, i: nat)
    requires i < |parts| && Picks(parts[..i], agents).Ok?
    ensures Picks(parts[..i + 1], agents) == PickOne(Picks(parts[..i], agents).value, parts[i], agents)
  {
    assert parts[..i + 1][..i] == parts[..i];
  }

  /** The sequence with later repetitions removed. */
  function Dedup(s: seq<string>): seq<string>
    decreases |s|
  {
    if s == [] then []
    else
      var r := Dedup(s[..|s| - 1]);
      if s[|s| - 1] in r then r else r + [s[|s| - 1]]
  }

  lemma DedupSnoc(s: seq<string>, x: string)
    ensures Dedup(s + [x]) == if x in Dedup(s) then Dedup(s) else Dedup(s) + [x]
  {
    assert (s + [x])[..|s|] == s;
  }

  /** Adding an agent to the picks adds it to the selection and to the set of agents seen
      exactly when it has not been seen. */
  lemma KeepFirst(picked: seq<string>, selected: seq<string>, seen: set<string>, agent: string)
    requires selected == Dedup(picked) && forall a :: a in seen <==> a in selected
    ensures agent in seen ==> selected == Dedup(picked + [agent])
    ensures agent !in seen ==> selected + [agent] == Dedup(picked + [agent])
    ensures agent !in seen ==> forall a :: a in seen + {agent} <==> a in selected + [agent]
  {
    DedupSnoc(picked, agent);
  }

  /** What promptAgents returns for the text the user typed. */
  function SelectionOf(input: string, agents: seq<string>): Result<seq<string>> {
    var line := TrimSpace(ReadLine(input));
    if line == "" then Err(NoAgentsSelected)
    else
      match Picks(Split(line, ','), agents)
      case Err(e) => Err(e)
      case Ok(picked) => if Dedup(picked) == [] then Err(NoAgentsSelected) else Ok(Dedup(picked))
  }

  predicate NoDuplicates(s: seq<string>) {
    forall i, j :: 0 <= i < j < |s| ==> s[i] != s[j]
  }

  /** The index of the first occurrence of `x` in `s`. */
  function FirstIndex(s: seq<string>, x: string): (i: nat)
    requires x in s
    ensures i < |s| && s[i] == x && x !in s[..i]
  {
    if s[0] == x then 0 else 1 + FirstIndex(s[1..], x)
  }

  lemma FirstIndexOfPrefix(s: seq<string>, k: nat, x: string)
    requires k <= |s| && x in s[..k]
    ensures FirstIndex(s[..k], x) == FirstIndex(s, x)
  {
    var i := FirstIndex(s[..k], x);
    var j := FirstIndex(s, x);
    assert s[..k][..i] == s[..i];
  }

  /** Dedup keeps exactly the elements of `s`. */
  lemma {:induction false} DedupMembers(s: seq<string>)
    ensures forall x :: x in Dedup(s) <==> x in s
    decreases |s|
  {
    if s != [] {
      var init := s[..|s| - 1];
      DedupMembers(init);
      assert s == init + [s[|s| - 1]];
      DedupSnoc(init, s[|s| - 1]);
    }
  }

  /** Dedup keeps no element twice. */
  lemma {:induction false} DedupDistinct(s: seq<string>)
    ensures NoDuplicates(Dedup(s))
    decreases |s|
  {
    if s != [] {
      var init := s[..|s| - 1];
      DedupDistinct(init);
      assert s == init + [s[|s| - 1]];
      DedupSnoc(init, s[|s| - 1]);
    }
  }

  /** The elements of `d` occur in `s`, in the order of their first occurrences there. */
  ghost predicate FirstOccurrenceOrder(s: seq<string>, d: seq<string>) {
    forall i, j :: 0 <= i < j < |d| ==> d[i] in s && d[j] in s && FirstIndex(s, d[i]) < FirstIndex(s, d[j])
  }

  /** Appending one element to `s` keeps the first occurrence of everything already there. */
  lemma FirstIndexSnoc(init: seq<string>, last: string, x: string)
    requires x in init
    ensures x in init + [last] && FirstIndex(init + [last], x) == FirstIndex(init, x)
  {
    FirstIndexOfPrefix(init + [last], |init|, x);
    assert (init + [last])[..|init|] == init;
  }

  /** An element new to `init` first occurs at the end of `init + [last]`. */
  lemma FirstIndexOfNew(init: seq<string>, last: string)
    requires last !in init
    ensures last in init + [last] && FirstIndex(init + [last], last) == |init|
  {
    var s := init + [last];
    assert s[|init|] == last;
  }

  /** One more element keeps Dedup in the order of first occurrences. */
  lemma DedupOrderedSnoc(init: seq<string>, last: string)
    requires forall x :: x in Dedup(init) <==> x in init
    requires FirstOccurrenceOrder(init, Dedup(init))
    ensures FirstOccurrenceOrder(init + [last], Dedup(init + [last]))
  {
    var s := init + [last];
    var r := Dedup(init);
    DedupSnoc(init, last);
    forall i | 0 <= i < |r| ensures r[i] in s && FirstIndex(s, r[i]) == FirstIndex(init, r[i]) {
      FirstIndexSnoc(init, last, r[i]);
    }
    if last !in r {
      FirstIndexOfNew(init, last);
      var d := r + [last];
      forall i, j | 0 <= i < j < |d| ensures d[i] in s && d[j] in s && FirstIndex(s, d[i]) < FirstIndex(s, d[j]) {
        assert d[i] == r[i];
        if j < |r| {
          assert d[j] == r[j];
        }
      }
    }
  }

  /** Dedup orders the elements by where they first occur in `s`. */
  lemma {:induction false} DedupOrdered(s: seq<string>)
    ensures FirstOccurrenceOrder(s, Dedup(s))
    decreases |s|
  {
    if s != [] {
      var init := s[..|s| - 1];
      DedupOrdered(init);
      DedupMembers(init);
      assert s == init + [s[|s| - 1]];
      DedupOrderedSnoc(init, s[|s| - 1]);
    }
  }

  /** Dedup keeps each element of `s` exactly once, ordered by where it first occurs in `s`. */
  lemma DedupSpec(s: seq<string>)
    ensures forall x :: x in Dedup(s) <==> x in s
    ensures NoDuplicates(Dedup(s))
    ensures forall i, j :: 0 <= i < j < |Dedup(s)| ==> FirstIndex(s, Dedup(s)[i]) < FirstIndex(s, Dedup(s)[j])
  {
    DedupMembers(s);
    DedupDistinct(s);
    DedupOrdered(s);
  }

  /** A successful selection is a non-empty list of distinct agents, each picked by some part,
      in the order in which they were first picked. */
  lemma SelectionProperties(input: string, agents: seq<string>)
    requires SelectionOf(input, agents).Ok?
    ensures SelectionOf(input, agents).value != []
    ensures NoDuplicates(SelectionOf(input, agents).value)
    ensures forall a :: a in SelectionOf(input, agents).value ==> a in agents
  {
    var picked := Picks(Split(TrimSpace(ReadLine(input)), ','), agents).value;
    DedupSpec(picked);
    PicksFromAgents(Split(TrimSpace(ReadLine(input)), ','), agents);
  }

  lemma {:induction false} PicksFromAgents(parts: seq<string>, agents: seq<string>)
    ensures Picks(parts, agents).Ok? ==> forall a :: a in Picks(parts, agents).value ==> a in agents
    decreases |parts|
  {
    if parts != [] {
      PicksFromAgents(parts[..|parts| - 1], agents);
    }
  }

  /** An earlier bad part decides the outcome, whatever follows it. */
  lemma {:induction false} PicksStops(parts: seq<string>, agents: seq<string>, k: nat)
    requires k <= |parts| && Picks(parts[..k], agents).Err?
    ensures Picks(parts, agents) == Picks(parts[..k], agents)
    decreases |parts|
  {
    if k < |parts| {
      assert parts[..|parts| - 1][..k] == parts[..k];
      PicksStops(parts[..|parts| - 1], agents, k);
    } else {
      assert parts[..k] == parts;
    }
  }

  /** A bad part ends the picks with its error. */
  lemma PicksStopAt(parts: seq<string>, agents: seq<string>, i: nat)
    requires i < |parts| && Picks(parts[..i], agents).Ok?
    requires PickOne(Picks(parts[..i], agents).value, parts[i], agents).Err?
    ensures Picks(parts, agents) == PickOne(Picks(parts[..i], agents).value, parts[i], agents)
  {
    PicksStep(parts, agents, i);
    PicksStops(parts, agents, i + 1);
  }

  lemma PicksWhole(parts: seq<string>, agents: seq<string>)
    ensures Picks(parts[..|parts|], agents) == Picks(parts, agents)
  {
    assert parts[..|parts|] == parts;
  }

  /** promptAgents after the menu has been shown: reads one line and parses the selection
      against the sorted agent list. */
  method PromptAgents(input: string) returns (r: Result<seq<string>>)
    ensures r == SelectionOf(input, ["codex", "kilo-code"])
  {
    var agents := ListSupportedAgents();
    SupportedAgentsListing(agents);
    r := ParseSelection(input, agents);
  }

  /** The selection step of promptAgents: blank input selects nothing; otherwise the parts
      between commas are read in order and an empty selection is an error. */
  method ParseSelection(input: string, agents: seq<string>) returns (r: Result<seq<string>>)
    ensures r == SelectionOf(input, agents)
  {
    var line := TrimSpace(ReadLine(input));
    if line == "" {
      return Err(NoAgentsSelected);
    }
    var parts := Split(line, ',');
    var selected := SelectParts(parts, agents);
    if selected.Ok? && |selected.value| == 0 {
      return Err(NoAgentsSelected);
    }
    return selected;
  }

  /** The loop over the parts: each non-blank part picks an agent by number, an agent already
      picked is not added again, and the first bad part ends the loop. */
  method SelectParts(parts: seq<string>, agents: seq<string>) returns (r: Result<seq<string>>)
    ensures Picks(parts, agents).Err? ==> r == Err(Picks(parts, agents).error)
    ensures Picks(parts, agents).Ok? ==> r == Ok(Dedup(Picks(parts, agents).value))
  {
    var selected: seq<string> := [];
    var seen: set<string> := {};
    ghost var picked: seq<string> := [];
    for i := 0 to |parts|
      invariant Picks(parts[..i], agents) == Ok(picked)
      invariant selected == Dedup(picked)
      invariant forall a :: a in seen <==> a in selected
    {
      PicksStep(parts, agents, i);
      ghost var next := PickOne(picked, parts[i], agents);
      var part := TrimSpace(parts[i]);
      if part == "" {
        assert next == Ok(picked);
        continue;
      }
      var idx := ParsePositiveInt(part);
      PickOneParsed(picked, parts[i], agents, idx);
      if idx.Err? {
        assert next == Err(InvalidSelection(part));
        PicksStopAt(parts, agents, i);
        return Err(InvalidSelection(part));
      }
      if idx.value < 1 || idx.value > |agents| {
        assert next == Err(SelectionOutOfRange(idx.value));
        PicksStopAt(parts, agents, i);
        return Err(SelectionOutOfRange(idx.value));
      }
      var agent := agents[idx.value - 1];
      assert next == Ok(picked + [agent]);
      KeepFirst(picked, selected, seen, agent);
      picked := picked + [agent];
      if agent !in seen {
        selected := selected + [agent];
        seen := seen + {agent};
      }
    }
    PicksWhole(parts, agents);
    return Ok(selected);
  }
}
