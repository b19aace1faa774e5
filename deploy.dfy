/** Several copies of skills made one after another, as add and sync make them, and removals
    of several targets, as remove makes them. */
module Deploy {
  import opened Results
  import opened Paths
  import opened FileSystems
  import opened Copier
  import opened CopyProperties
  import opened Comparator

  /** One copySkillDir call: from a skill's source to one target. */
  datatype Job = Job(src: Path, dst: Path)

  /** The copies made in order, stopping at the first that fails. */
  ghost function CopyJobs(t: Tree, jobs: seq<Job>, now: nat): Outcome
    decreases |jobs|
  {
    if jobs == [] then Outcome(t, None)
    else
      var o := CopyJobs(t, jobs[..|jobs| - 1], now);
      if o.err.Some? then o else TreeCopied(o.tree, jobs[|jobs| - 1].src, jobs[|jobs| - 1].dst, now)
  }

  /** No copy writes into a source, and two targets are the same path or lie apart. */
  ghost predicate Separate(jobs: seq<Job>) {
    (forall i, j :: 0 <= i < |jobs| && 0 <= j < |jobs| ==> Disjoint(jobs[i].src, jobs[j].dst))
    && (forall i, j :: 0 <= i < j < |jobs| ==> jobs[i].dst == jobs[j].dst || Disjoint(jobs[i].dst, jobs[j].dst))
  }

  /** No later job writes the target of job `i`. */
  ghost predicate LastWriter(jobs: seq<Job>, i: nat) {
    forall j :: i < j < |jobs| ==> jobs[j].dst != jobs[i].dst
  }

  /** `t1` and `t2` agree on `p` and everything below it. */
  ghost predicate SameBelow(t1: Tree, t2: Tree, p: Path) {
    forall q :: p <= q ==> (q in t1 <==> q in t2) && (q in t1 ==> t1[q] == t2[q])
  }

  /** What lies below one of two disjoint paths is away from the other. */
  lemma DisjointBelow(a: Path, b: Path, q: Path)
    requires Disjoint(a, b) && a <= q
    ensures Disjoint(q, b)
  {
    if q <= b {
      PrefixTransitive(a, q, b);
    }
    if b <= q {
      PrefixesComparable(a, b, q);
    }
  }

  /** A copy leaves untouched everything below a path that lies apart from its target. */
  lemma CopyKeepsApart(t: Tree, src: Path, dst: Path, now: nat, p: Path)
    requires Disjoint(p, dst)
    ensures SameBelow(t, TreeCopied(t, src, dst, now).tree, p)
  {
    CopyAwayFrom(t, src, dst, now);
    forall q | p <= q ensures Disjoint(q, dst) {
      DisjointBelow(p, dst, q);
    }
  }

  lemma SeparatePrefix(jobs: seq<Job>)
    requires Separate(jobs) && jobs != []
    ensures Separate(jobs[..|jobs| - 1])
  {
  }

  /** The last job's copy matches its source: its source is as it was at the start. */
  lemma LastJobMatches(t: Tree, o: Tree, job: Job, now: nat)
    requires WellFormed(o) && Disjoint(job.src, job.dst)
    requires SameBelow(t, o, job.src) && NoSpecialFiles(t, job.src)
    requires TreeCopied(o, job.src, job.dst, now).err == None
    ensures TreesEqual(TreeCopied(o, job.src, job.dst, now).tree, job.src, job.dst) == Ok(true)
  {
    assert NoSpecialFiles(o, job.src) by {
      forall r | r != [] && job.src + r in o ensures !o[job.src + r].kind.Other? {
        assert job.src <= job.src + r;
      }
    }
    CopyFidelity(o, job.src, job.dst, now);
  }

  /** An earlier job's copy survives a later copy to a target apart from it. */
  lemma EarlierJobSurvives(o: Tree, earlier: Job, later: Job, now: nat)
    requires Disjoint(earlier.src, later.dst) && Disjoint(earlier.dst, later.dst)
    requires TreesEqual(o, earlier.src, earlier.dst) == Ok(true)
    ensures TreesEqual(TreeCopied(o, later.src, later.dst, now).tree, earlier.src, earlier.dst) == Ok(true)
  {
    var o2 := TreeCopied(o, later.src, later.dst, now).tree;
    CopyKeepsApart(o, later.src, later.dst, now, earlier.src);
    CopyKeepsApart(o, later.src, later.dst, now, earlier.dst);
    TreesEqualFrame(o, o2, earlier.src, earlier.dst);
  }

  /** Every source is as it was in `t`. */
  ghost predicate SourcesKept(t: Tree, out: Tree, jobs: seq<Job>) {
    forall i :: 0 <= i < |jobs| ==> SameBelow(t, out, jobs[i].src)
  }

  /** Every target matches the source of the last job that wrote it. */
  ghost predicate LastCopiesMatch(out: Tree, jobs: seq<Job>) {
    forall i :: 0 <= i < |jobs| && LastWriter(jobs, i) ==> TreesEqual(out, jobs[i].src, jobs[i].dst) == Ok(true)
  }

  /** A run of copies that succeeds is the run without its last job, then that job. */
  lemma CopyJobsLast(t: Tree, jobs: seq<Job>, now: nat)
    requires jobs != [] && CopyJobs(t, jobs, now).err == None
    ensures CopyJobs(t, jobs[..|jobs| - 1], now).err == None
    ensures CopyJobs(t, jobs, now)
         == TreeCopied(CopyJobs(t, jobs[..|jobs| - 1], now).tree, jobs[|jobs| - 1].src, jobs[|jobs| - 1].dst, now)
  {
  }

  /** A run of copies leaves untouched everything below a path that lies apart from every
      target. */
  lemma {:induction false} CopyJobsKeepApart(t: Tree, jobs: seq<Job>, now: nat, p: Path)
    requires forall j :: 0 <= j < |jobs| ==> Disjoint(p, jobs[j].dst)
    ensures SameBelow(t, CopyJobs(t, jobs, now).tree, p)
    decreases |jobs|
  {
    if jobs != [] {
      var n := |jobs| - 1;
      var init := jobs[..n];
      assert forall j :: 0 <= j < n ==> init[j] == jobs[j];
      CopyJobsKeepApart(t, init, now, p);
      var o := CopyJobs(t, init, now);
      if o.err.None? {
        CopyKeepsApart(o.tree, jobs[n].src, jobs[n].dst, now, p);
      }
    }
  }

  lemma LastCopiesMatchStep(t: Tree, o: Tree, jobs: seq<Job>, now: nat)
    requires jobs != [] && Separate(jobs) && WellFormed(o)
    requires forall i :: 0 <= i < |jobs| ==> NoSpecialFiles(t, jobs[i].src)
    requires SameBelow(t, o, jobs[|jobs| - 1].src)
    requires LastCopiesMatch(o, jobs[..|jobs| - 1])
    requires TreeCopied(o, jobs[|jobs| - 1].src, jobs[|jobs| - 1].dst, now).err == None
    ensures LastCopiesMatch(TreeCopied(o, jobs[|jobs| - 1].src, jobs[|jobs| - 1].dst, now).tree, jobs)
  {
    var n := |jobs| - 1;
    var last := jobs[n];
    var out := TreeCopied(o, last.src, last.dst, now).tree;
    forall i | 0 <= i < |jobs| && LastWriter(jobs, i)
      ensures TreesEqual(out, jobs[i].src, jobs[i].dst) == Ok(true)
    {
      if i == n {
        LastJobMatches(t, o, last, now);
      } else {
        EarlierLastWriter(o, jobs, i);
        EarlierJobSurvives(o, jobs[i], last, now);
      }
    }
  }

  /** A job that no later job overwrites, other than the last, matched before the last job
      ran, and lies apart from the last job's target. */
  lemma EarlierLastWriter(o: Tree, jobs: seq<Job>, i: nat)
    requires i < |jobs| - 1 && Separate(jobs) && LastWriter(jobs, i)
    requires LastCopiesMatch(o, jobs[..|jobs| - 1])
    ensures TreesEqual(o, jobs[i].src, jobs[i].dst) == Ok(true)
    ensures Disjoint(jobs[i].src, jobs[|jobs| - 1].dst) && Disjoint(jobs[i].dst, jobs[|jobs| - 1].dst)
  {
    var n := |jobs| - 1;
    assert jobs[..n][i] == jobs[i];
    assert LastWriter(jobs[..n], i);
  }

  /** When every copy succeeds, no copy writes into a source, targets are the same or lie apart,
      and no source holds special files, then each target matches the source of the last job
      that wrote it: the last copy wins. */
  lemma {:induction false} JobsFidelity(t: Tree, jobs: seq<Job>, now: nat)
    requires WellFormed(t) && Separate(jobs)
    requires forall i :: 0 <= i < |jobs| ==> NoSpecialFiles(t, jobs[i].src)
    requires CopyJobs(t, jobs, now).err == None
    ensures WellFormed(CopyJobs(t, jobs, now).tree)
    ensures SourcesKept(t, CopyJobs(t, jobs, now).tree, jobs)
    ensures LastCopiesMatch(CopyJobs(t, jobs, now).tree, jobs)
    decreases |jobs|
  {
    if jobs != [] {
      var n := |jobs| - 1;
      var last := jobs[n];
      CopyJobsLast(t, jobs, now);
      SeparatePrefix(jobs);
      JobsFidelity(t, jobs[..n], now);
      var o := CopyJobs(t, jobs[..n], now).tree;
      CopyWellFormed(o, last.src, last.dst, now);
      forall i | 0 <= i < |jobs| ensures SameBelow(t, CopyJobs(t, jobs, now).tree, jobs[i].src) {
        CopyJobsKeepApart(t, jobs, now, jobs[i].src);
      }
      CopyJobsKeepApart(t, jobs[..n], now, last.src);
      LastCopiesMatchStep(t, o, jobs, now);
    }
  }

  /** Running two lists of jobs one after the other is running their concatenation. */
  lemma {:induction false} CopyJobsAppend(t: Tree, a: seq<Job>, b: seq<Job>, now: nat)
    ensures CopyJobs(t, a + b, now)
         == if CopyJobs(t, a, now).err.Some? then CopyJobs(t, a, now) else CopyJobs(CopyJobs(t, a, now).tree, b, now)
    decreases |b|
  {
    if b == [] {
      assert a + b == a;
    } else {
      var init := b[..|b| - 1];
      assert (a + b)[..|a + b| - 1] == a + init;
      assert (a + b)[|a + b| - 1] == b[|b| - 1];
      CopyJobsAppend(t, a, init, now);
    }
  }

  /** The first `i + 1` jobs: the first `i`, then job `i` if they all succeeded. */
  lemma CopyJobsSnoc(t: Tree, jobs: seq<Job>, i: nat, now: nat)
    requires i < |jobs|
    ensures CopyJobs(t, jobs[..i + 1], now)
         == if CopyJobs(t, jobs[..i], now).err.Some? then CopyJobs(t, jobs[..i], now)
            else TreeCopied(CopyJobs(t, jobs[..i], now).tree, jobs[i].src, jobs[i].dst, now)
  {
    assert jobs[..i + 1][..i] == jobs[..i];
  }

  /** Once a copy fails, the later jobs are not run. */
  lemma CopyJobsStops(t: Tree, jobs: seq<Job>, k: nat, now: nat)
    requires k <= |jobs| && CopyJobs(t, jobs[..k], now).err.Some?
    ensures CopyJobs(t, jobs, now) == CopyJobs(t, jobs[..k], now)
  {
    assert jobs == jobs[..k] + jobs[k..];
    CopyJobsAppend(t, jobs[..k], jobs[k..], now);
  }

  /** The last job that writes the same target as job `i`. */
  ghost function LastWriterOf(jobs: seq<Job>, i: nat): (j: nat)
    requires i < |jobs|
    ensures i <= j < |jobs| && jobs[j].dst == jobs[i].dst && LastWriter(jobs, j)
    decreases |jobs| - i
  {
    if exists k :: i < k < |jobs| && jobs[k].dst == jobs[i].dst then
      var k :| i < k < |jobs| && jobs[k].dst == jobs[i].dst;
      LastWriterOf(jobs, k)
    else i
  }

  /** Jobs that write the same target copy the same source. */
  ghost predicate Consistent(jobs: seq<Job>) {
    forall i, j :: 0 <= i < |jobs| && 0 <= j < |jobs| && jobs[i].dst == jobs[j].dst ==> jobs[i].src == jobs[j].src
  }

  /** When no two jobs write one target from different sources, every target ends up matching
      its source. */
  lemma AllJobsMatch(t: Tree, jobs: seq<Job>, now: nat)
    requires WellFormed(t) && Separate(jobs) && Consistent(jobs)
    requires forall i :: 0 <= i < |jobs| ==> NoSpecialFiles(t, jobs[i].src)
    requires CopyJobs(t, jobs, now).err == None
    ensures forall i :: 0 <= i < |jobs| ==> TreesEqual(CopyJobs(t, jobs, now).tree, jobs[i].src, jobs[i].dst) == Ok(true)
  {
    JobsFidelity(t, jobs, now);
    forall i | 0 <= i < |jobs| ensures TreesEqual(CopyJobs(t, jobs, now).tree, jobs[i].src, jobs[i].dst) == Ok(true) {
      var j := LastWriterOf(jobs, i);
    }
  }

  /** No target is `q` or lies above it. */
  predicate BelowNone(targets: seq<Path>, q: Path) {
    forall i :: 0 <= i < |targets| ==> !(targets[i] <= q)
  }

  lemma BelowNoneSnoc(targets: seq<Path>)
    requires targets != []
    ensures forall q :: BelowNone(targets, q)
                   <==> BelowNone(targets[..|targets| - 1], q) && !(targets[|targets| - 1] <= q)
  {
    var init := targets[..|targets| - 1];
    assert forall i :: 0 <= i < |init| ==> init[i] == targets[i];
  }

  /** os.RemoveAll of each target in turn: what is left is exactly the entries below none of
      the targets, unchanged. */
  function RemoveEach(t: Tree, targets: seq<Path>): (r: Tree)
    ensures forall q :: q in r <==> q in t && BelowNone(targets, q)
    ensures forall q :: q in r ==> r[q] == t[q]
    ensures WellFormed(t) ==> WellFormed(r)
    decreases |targets|
  {
    if targets == [] then t
    else
      BelowNoneSnoc(targets);
      RemoveAll(RemoveEach(t, targets[..|targets| - 1]), targets[|targets| - 1])
  }

  /** Removing the first `i + 1` targets: the first `i`, then target `i`. */
  lemma RemoveEachSnoc(t: Tree, targets: seq<Path>, i: nat)
    requires i < |targets|
    ensures RemoveEach(t, targets[..i + 1]) == RemoveAll(RemoveEach(t, targets[..i]), targets[i])
  {
    assert targets[..i + 1][..i] == targets[..i];
  }

  /** The entries on the way to `p` that are left after removing `removed` are directories:
      os.RemoveAll can reach `p`. */
  ghost predicate Unblocked(t: Tree, removed: seq<Path>, p: Path) {
    forall q :: q < p && q in t && BelowNone(removed, q) ==> t[q].kind.Dir?
  }

  /** remove's loop: os.RemoveAll of each target in turn, stopping at the first target that
      is blocked, which it cannot reach. */
  function RemovedEach(t: Tree, targets: seq<Path>): (o: Outcome)
    ensures o.err.None? ==> o.tree == RemoveEach(t, targets)
    decreases |targets|
  {
    if targets == [] then Outcome(t, None)
    else
      var o := RemovedEach(t, targets[..|targets| - 1]);
      var last := targets[|targets| - 1];
      if o.err.Some? then o
      else if Blocked(o.tree, last) then Outcome(o.tree, Some(NotADirectory(last)))
      else Outcome(RemoveAll(o.tree, last), None)
  }

  /** A failed removal names the first target that is blocked once the targets before it are
      removed, and leaves the tree those removals left. */
  lemma {:induction false} RemovedEachFailure(t: Tree, targets: seq<Path>)
    requires RemovedEach(t, targets).err.Some?
    ensures exists i :: 0 <= i < |targets| && RemovedEach(t, targets).err == Some(NotADirectory(targets[i]))
              && RemovedEach(t, targets).tree == RemoveEach(t, targets[..i])
              && Blocked(RemoveEach(t, targets[..i]), targets[i])
    decreases |targets|
  {
    var init := targets[..|targets| - 1];
    if RemovedEach(t, init).err.Some? {
      RemovedEachFailure(t, init);
      var i :| 0 <= i < |init| && RemovedEach(t, init).err == Some(NotADirectory(init[i]))
                && RemovedEach(t, init).tree == RemoveEach(t, init[..i])
                && Blocked(RemoveEach(t, init[..i]), init[i]);
      assert init[..i] == targets[..i] && init[i] == targets[i];
    } else {
      assert targets[..|targets| - 1] == init;
    }
  }

  /** In a well-formed tree the removals all succeed exactly when every target is reachable
      once the targets before it are removed. */
  lemma {:induction false} RemovedEachSucceedsIff(t: Tree, targets: seq<Path>)
    requires WellFormed(t)
    ensures RemovedEach(t, targets).err.None? <==>
              forall i :: 0 <= i < |targets| ==> Unblocked(t, targets[..i], targets[i])
    decreases |targets|
  {
    if targets != [] {
      var init := targets[..|targets| - 1];
      RemovedEachSucceedsIff(t, init);
      ReachableAfter(t, init, targets[|targets| - 1]);
      UnblockedSnoc(t, targets, init);
    }
  }

  /** A target is blocked once the targets before it are removed exactly when it is not
      reachable from the original tree past those removals. */
  lemma ReachableAfter(t: Tree, removed: seq<Path>, p: Path)
    requires WellFormed(t)
    ensures !Blocked(RemoveEach(t, removed), p) <==> Unblocked(t, removed, p)
  {
    var r := RemoveEach(t, removed);
    BlockedIff(r, p);
  }

  lemma UnblockedSnoc(t: Tree, targets: seq<Path>, init: seq<Path>)
    requires targets != [] && init == targets[..|targets| - 1]
    ensures (forall i :: 0 <= i < |targets| ==> Unblocked(t, targets[..i], targets[i])) <==>
              (forall i :: 0 <= i < |init| ==> Unblocked(t, init[..i], init[i]))
              && Unblocked(t, init, targets[|targets| - 1])
  {
    assert forall i :: 0 <= i < |init| ==> init[..i] == targets[..i] && init[i] == targets[i];
  }

  /** Removing the first `i + 1` targets: the first `i`, then target `i` unless one failed. */
  lemma RemovedEachSnoc(t: Tree, targets: seq<Path>, i: nat)
    requires i < |targets|
    ensures RemovedEach(t, targets[..i + 1])
            == var o := RemovedEach(t, targets[..i]);
               if o.err.Some? then o
               else if Blocked(o.tree, targets[i]) then Outcome(o.tree, Some(NotADirectory(targets[i])))
               else Outcome(RemoveAll(o.tree, targets[i]), None)
  {
    assert targets[..i + 1][..i] == targets[..i];
  }

  /** Target `i` reachable: it is removed. */
  lemma RemovedEachNext(t: Tree, targets: seq<Path>, i: nat, tree: Tree)
    requires i < |targets| && RemovedEach(t, targets[..i]) == Outcome(tree, None)
    requires !Blocked(tree, targets[i])
    ensures RemovedEach(t, targets[..i + 1]) == Outcome(RemoveAll(tree, targets[i]), None)
  {
    RemovedEachSnoc(t, targets, i);
  }

  /** Target `i` blocked: the removals end there with its error. */
  lemma RemovedEachBlocked(t: Tree, targets: seq<Path>, i: nat, tree: Tree)
    requires i < |targets| && RemovedEach(t, targets[..i]) == Outcome(tree, None)
    requires Blocked(tree, targets[i])
    ensures RemovedEach(t, targets) == Outcome(tree, Some(NotADirectory(targets[i])))
  {
    RemovedEachSnoc(t, targets, i);
    RemovedEachStops(t, targets, i + 1);
  }

  /** A failure among the first `k` removals is the failure of them all. */
  lemma {:induction false} RemovedEachStops(t: Tree, targets: seq<Path>, k: nat)
    requires k <= |targets| && RemovedEach(t, targets[..k]).err.Some?
    ensures RemovedEach(t, targets) == RemovedEach(t, targets[..k])
    decreases |targets| - k
  {
    if k < |targets| {
      RemovedEachSnoc(t, targets, k);
      RemovedEachStops(t, targets, k + 1);
    } else {
      assert targets[..k] == targets;
    }
  }
}
