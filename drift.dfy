/** latestModTime, driftStatus and projectDriftSkills: when a skill was last changed in the
    repository and in the project, and which registered skills no longer match their source. */
module Drift {
  import opened Results
  import opened Paths
  import opened FileSystems
  import opened Copier
  import opened Comparator
  import opened Agents
  import opened Config

  /** The modification times of `p` and of everything below it. */
  ghost function SubtreeTimes(t: Tree, p: Path): set<nat> {
    set q | q in t && p <= q :: t[q].mtime
  }

  /** `m` is what latestModTime reports for `p`: 0 (the zero time) for a missing path, the
      entry's own time for anything but a directory, and for a directory the latest time of
      the directory and everything below it. */
  ghost predicate IsLatest(t: Tree, p: Path, m: nat) {
    if p !in t then m == 0
    else if !t[p].kind.Dir? then m == t[p].mtime
    else m in SubtreeTimes(t, p) && forall x :: x in SubtreeTimes(t, p) ==> x <= m
  }

  /** The largest element of a finite non-empty set. */
  ghost function SetMax(s: set<nat>): (m: nat)
    requires s != {}
    ensures m in s && forall x :: x in s ==> x <= m
    decreases |s|
  {
    var y :| y in s;
    var rest := s - {y};
    assert forall x :: x in s ==> x == y || x in rest;
    if rest == {} then y
    else
      var m := SetMax(rest);
      if y > m then y else m
  }

  lemma LatestUnique(t: Tree, p: Path, m1: nat, m2: nat)
    requires IsLatest(t, p, m1) && IsLatest(t, p, m2)
    ensures m1 == m2
  {
  }

  ghost function LatestTime(t: Tree, p: Path): (m: nat)
    ensures IsLatest(t, p, m)
  {
    if p in t && t[p].kind.Dir? then
      assert t[p].mtime in SubtreeTimes(t, p);
      SetMax(SubtreeTimes(t, p))
    else if p in t then t[p].mtime
    else 0
  }

  /** The latest time of a directory is no earlier than the directory's own time or that of
      anything below it. */
  lemma LatestBounds(t: Tree, p: Path, q: Path)
    requires p in t && t[p].kind.Dir? && p <= q && q in t
    ensures t[q].mtime <= LatestTime(t, p)
  {
    assert t[q].mtime in SubtreeTimes(t, p);
  }

  /** Each of the entries `rs` below `p` exists and has a time no later than `m`. */
  ghost predicate NoneLater(t: Tree, p: Path, rs: seq<Path>, m: nat)
    decreases |rs|
  {
    rs == [] ||
    (NoneLater(t, p, rs[..|rs| - 1], m) && p + rs[|rs| - 1] in t && t[p + rs[|rs| - 1]].mtime <= m)
  }

  lemma {:induction false} NoneLaterRaised(t: Tree, p: Path, rs: seq<Path>, m: nat, m': nat)
    requires NoneLater(t, p, rs, m) && m <= m'
    ensures NoneLater(t, p, rs, m')
    decreases |rs|
  {
    if rs != [] {
      NoneLaterRaised(t, p, rs[..|rs| - 1], m, m');
    }
  }

  lemma NoneLaterSnoc(t: Tree, p: Path, rs: seq<Path>, i: nat, m: nat)
    requires i < |rs| && NoneLater(t, p, rs[..i], m)
    requires p + rs[i] in t && t[p + rs[i]].mtime <= m
    ensures NoneLater(t, p, rs[..i + 1], m)
  {
    assert rs[..i + 1][..i] == rs[..i];
  }

  lemma {:induction false} NoneLaterEach(t: Tree, p: Path, rs: seq<Path>, m: nat, r: Path)
    requires NoneLater(t, p, rs, m) && r in rs
    ensures p + r in t && t[p + r].mtime <= m
    decreases |rs|
  {
    if rs[|rs| - 1] != r {
      assert r in rs[..|rs| - 1] by {
        var j :| 0 <= j < |rs| && rs[j] == r;
        assert rs[..|rs| - 1][j] == r;
      }
      NoneLaterEach(t, p, rs[..|rs| - 1], m, r);
    }
  }

  /** latestModTime: a path that cannot be looked up because it is blocked is an error, one
      that does not exist has the zero time, and otherwise the walk over `p` keeps the latest
      modification time seen. The walk's first visit, `p` itself, never raises the starting
      value, which is `p`'s own time. */
  method LatestModTime(t: Tree, p: Path) returns (r: Result<nat>)
    ensures r.Err? <==> p !in t && Blocked(t, p)
    ensures r.Err? ==> r.error == NotADirectory(p)
    ensures r.Ok? ==> r.value == LatestTime(t, p)
  {
    if p !in t {
      if Blocked(t, p) {
        return Err(NotADirectory(p));
      }
      return Ok(0);
    }
    if !t[p].kind.Dir? {
      return Ok(t[p].mtime);
    }
    var latest := t[p].mtime;
    var order := SortedEntries(t, p);
    // `p + at` is an entry whose time is the latest seen so far.
    ghost var at: Path := [];
    assert p + at == p;
    for i := 0 to |order|
      invariant p + at in t && latest == t[p + at].mtime
      invariant t[p].mtime <= latest
      invariant NoneLater(t, p, order[..i], latest)
    {
      assert order[i] in order;
      var mtime := t[p + order[i]].mtime;
      if mtime > latest {
        NoneLaterRaised(t, p, order[..i], latest, mtime);
        latest := mtime;
        at := order[i];
      }
      NoneLaterSnoc(t, p, order, i, latest);
    }
    WalkedLatest(t, p, order, at, latest);
    return Ok(latest);
  }

  /** The latest time over the directory and the entries of its walk is its latest time. */
  lemma WalkedLatest(t: Tree, p: Path, order: seq<Path>, at: Path, latest: nat)
    requires p in t && t[p].kind.Dir? && order == WalkOrder(Entries(t, p))
    requires p + at in t && latest == t[p + at].mtime
    requires t[p].mtime <= latest
    requires NoneLater(t, p, order[..|order|], latest)
    ensures latest == LatestTime(t, p)
  {
    assert order[..|order|] == order;
    assert p <= p + at;
    assert latest in SubtreeTimes(t, p);
    forall x | x in SubtreeTimes(t, p) ensures x <= latest {
      var q :| q in t && p <= q && x == t[q].mtime;
      if q != p {
        assert p + q[|p|..] == q;
        EntryVisited(t, p, q[|p|..]);
        NoneLaterEach(t, p, order, latest, q[|p|..]);
      }
    }
    LatestUnique(t, p, latest, LatestTime(t, p));
  }

  /** The four verdicts of driftStatus. */
  datatype Status = ProjectMissing | RepoNewer | ProjectNewer | InSync

  /** The text driftStatus returns for each verdict. */
  function Label(s: Status): string {
    match s
    case ProjectMissing => "project missing"
    case RepoNewer => "repo newer"
    case ProjectNewer => "project newer"
    case InSync => "in sync"
  }

  /** driftStatus, its conditions checked in order: no project copy at all (with a repository time), the
      repository changed later, the project changed later, otherwise in sync. */
  function DriftStatus(repoTime: nat, projectTime: nat): (s: Status)
    ensures s == ProjectMissing <==> projectTime == 0 < repoTime
    ensures s == RepoNewer <==> 0 < projectTime < repoTime
    ensures s == ProjectNewer <==> repoTime < projectTime
    ensures s == InSync <==> repoTime == projectTime
  {
    if projectTime == 0 && repoTime != 0 then ProjectMissing
    else if repoTime > projectTime then RepoNewer
    else if projectTime > repoTime then ProjectNewer
    else InSync
  }

  /** driftInfo: one reported skill. */
  datatype DriftInfo = DriftInfo(skill: string, repoTime: nat, projectTime: nat, status: Status)

  /** Where the skill lives for each agent (every agent is in the table here). */
  function Target(root: Path, skill: string, agent: string, overrides: map<string, string>): Path
    requires agent in SupportedAgents
  {
    ResolveSkillTarget(root, skill, agent, overrides).value
  }

  /** The project time of a skill: the latest time over the targets of all agents, starting
      from the zero time. */
  ghost function ProjectTime(t: Tree, root: Path, skill: string, overrides: map<string, string>, agents: seq<string>): nat
    requires forall a :: a in agents ==> a in SupportedAgents
    decreases |agents|
  {
    if agents == [] then 0
    else
      var before := ProjectTime(t, root, skill, overrides, agents[..|agents| - 1]);
      var latest := LatestTime(t, Target(root, skill, agents[|agents| - 1], overrides));
      if latest > before then latest else before
  }

  /** The project time is the latest time of one of the targets (or the zero time when there
      are no agents) and is no earlier than any of them. */
  lemma {:induction false} ProjectTimeIsMax(t: Tree, root: Path, skill: string, overrides: map<string, string>, agents: seq<string>)
    requires forall a :: a in agents ==> a in SupportedAgents
    ensures forall a :: a in agents ==>
              LatestTime(t, Target(root, skill, a, overrides)) <= ProjectTime(t, root, skill, overrides, agents)
    ensures agents == [] ==> ProjectTime(t, root, skill, overrides, agents) == 0
    ensures agents != [] ==>
              exists a :: a in agents
                && ProjectTime(t, root, skill, overrides, agents) == LatestTime(t, Target(root, skill, a, overrides))
    decreases |agents|
  {
    if agents != [] {
      var init := agents[..|agents| - 1];
      assert forall a :: a in agents ==> a in init || a == agents[|agents| - 1];
      assert forall a :: a in init ==> a in agents;
      ProjectTimeIsMax(t, root, skill, overrides, init);
      var last := agents[|agents| - 1];
      if ProjectTime(t, root, skill, overrides, agents) == LatestTime(t, Target(root, skill, last, overrides)) {
        assert last in agents;
      } else {
        var a :| a in init && ProjectTime(t, root, skill, overrides, init) == LatestTime(t, Target(root, skill, a, overrides));
        assert a in agents;
      }
    }
  }

  /** Some agent's target does not match the skill's source. */
  ghost predicate Drifts(t: Tree, src: Path, root: Path, skill: string, overrides: map<string, string>, agents: seq<string>)
    requires forall a :: a in agents ==> a in SupportedAgents
  {
    exists a :: a in agents && TreesEqual(t, src, Target(root, skill, a, overrides)) == Ok(false)
  }

  /** Why the comparison with one agent's target fails, if it does: latestModTime cannot look
      up a blocked target, and then dirsEqual refuses a source that is not a directory. */
  ghost function TargetFailure(t: Tree, src: Path, target: Path): Option<Error>
    requires src in t
  {
    if target !in t && Blocked(t, target) then Some(NotADirectory(target))
    else if !t[src].kind.Dir? then Some(NotADirectory(src))
    else None
  }

  /** The first failure over the agents' targets, in the order of the agents. */
  ghost function TargetsFailure(t: Tree, src: Path, root: Path, skill: string, overrides: map<string, string>, agents: seq<string>): Option<Error>
    requires src in t && forall a :: a in agents ==> a in SupportedAgents
    decreases |agents|
  {
    if agents == [] then None
    else
      var before := TargetsFailure(t, src, root, skill, overrides, agents[..|agents| - 1]);
      if before.Some? then before
      else TargetFailure(t, src, Target(root, skill, agents[|agents| - 1], overrides))
  }

  /** The targets fail exactly when one of them does, and then with that target's failure. */
  lemma {:induction false} TargetsFailureIff(t: Tree, src: Path, root: Path, skill: string, overrides: map<string, string>, agents: seq<string>)
    requires src in t && forall a :: a in agents ==> a in SupportedAgents
    ensures TargetsFailure(t, src, root, skill, overrides, agents).None? <==>
              forall a :: a in agents ==> TargetFailure(t, src, Target(root, skill, a, overrides)).None?
    ensures TargetsFailure(t, src, root, skill, overrides, agents).Some? ==>
              exists a :: a in agents && TargetFailure(t, src, Target(root, skill, a, overrides))
                                         == TargetsFailure(t, src, root, skill, overrides, agents)
    decreases |agents|
  {
    if agents != [] {
      var init := agents[..|agents| - 1];
      var last := agents[|agents| - 1];
      assert forall a :: a in agents ==> a in init || a == last;
      assert forall a :: a in init ==> a in agents;
      TargetsFailureIff(t, src, root, skill, overrides, init);
      if TargetsFailure(t, src, root, skill, overrides, init).Some? {
        var a :| a in init && TargetFailure(t, src, Target(root, skill, a, overrides))
                              == TargetsFailure(t, src, root, skill, overrides, init);
        assert a in agents;
      } else {
        assert last in agents;
      }
    }
  }

  /** Why projectDriftSkills gives up on a skill, if it does: its source is missing from the
      repository, or the comparison with some agent's target fails. */
  ghost function SkillFailure(t: Tree, src: Path, root: Path, skill: string, overrides: map<string, string>, agents: seq<string>): Option<Error>
    requires forall a :: a in agents ==> a in SupportedAgents
  {
    if src !in t then Some(SkillNotFound(skill))
    else TargetsFailure(t, src, root, skill, overrides, agents)
  }

  /** With no target failing, the source is a directory (when there is an agent) and no target
      is blocked, so every comparison yields a verdict. */
  lemma NoFailureCompares(t: Tree, src: Path, root: Path, skill: string, overrides: map<string, string>, agents: seq<string>, a: string)
    requires src in t && forall a :: a in agents ==> a in SupportedAgents
    requires TargetsFailure(t, src, root, skill, overrides, agents).None? && a in agents
    ensures TreesEqual(t, src, Target(root, skill, a, overrides)).Ok?
  {
    TargetsFailureIff(t, src, root, skill, overrides, agents);
  }

  /** Checking the first `i + 1` targets: the first `i`, then target `i` unless one failed. */
  lemma FailureStep(t: Tree, src: Path, root: Path, skill: string, overrides: map<string, string>, agents: seq<string>, i: nat)
    requires src in t && forall a :: a in agents ==> a in SupportedAgents
    requires i < |agents|
    ensures forall a :: a in agents[..i] ==> a in SupportedAgents
    ensures forall a :: a in agents[..i + 1] ==> a in SupportedAgents
    ensures TargetsFailure(t, src, root, skill, overrides, agents[..i + 1])
            == var before := TargetsFailure(t, src, root, skill, overrides, agents[..i]);
               if before.Some? then before
               else TargetFailure(t, src, Target(root, skill, agents[i], overrides))
  {
    assert agents[..i + 1][..i] == agents[..i];
  }

  /** A failure among the first `k` targets is the failure of them all. */
  lemma {:induction false} FailureStops(t: Tree, src: Path, root: Path, skill: string, overrides: map<string, string>, agents: seq<string>, k: nat)
    requires src in t && forall a :: a in agents ==> a in SupportedAgents
    requires k <= |agents|
    requires forall a :: a in agents[..k] ==> a in SupportedAgents
    requires TargetsFailure(t, src, root, skill, overrides, agents[..k]).Some?
    ensures TargetsFailure(t, src, root, skill, overrides, agents) == TargetsFailure(t, src, root, skill, overrides, agents[..k])
    decreases |agents| - k
  {
    if k < |agents| {
      FailureStep(t, src, root, skill, overrides, agents, k);
      FailureStops(t, src, root, skill, overrides, agents, k + 1);
    } else {
      assert agents[..k] == agents;
    }
  }

  lemma DriftsStep(t: Tree, src: Path, root: Path, skill: string, overrides: map<string, string>, agents: seq<string>, i: nat)
    requires forall a :: a in agents ==> a in SupportedAgents
    requires i < |agents|
    ensures forall a :: a in agents[..i + 1] ==> a in SupportedAgents
    ensures Drifts(t, src, root, skill, overrides, agents[..i + 1]) <==>
              Drifts(t, src, root, skill, overrides, agents[..i])
              || TreesEqual(t, src, Target(root, skill, agents[i], overrides)) == Ok(false)
    ensures ProjectTime(t, root, skill, overrides, agents[..i + 1])
            == var latest := LatestTime(t, Target(root, skill, agents[i], overrides));
               var before := ProjectTime(t, root, skill, overrides, agents[..i]);
               if latest > before then latest else before
  {
    assert agents[..i + 1] == agents[..i] + [agents[i]];
    assert agents[..i + 1][..i] == agents[..i];
  }

  lemma WholePrefix(agents: seq<string>)
    ensures agents[..|agents|] == agents
  {
  }

  /** The inner loop of projectDriftSkills for one skill: over the agents, the latest time of
      the targets, and whether some target does not match. */
  method CompareTargets(t: Tree, src: Path, root: Path, skill: string, overrides: map<string, string>, agents: seq<string>)
    returns (projectTime: nat, drifts: bool, err: Option<Error>)
    requires forall a :: a in agents ==> a in SupportedAgents
    requires src in t
    ensures err == TargetsFailure(t, src, root, skill, overrides, agents)
    ensures err.None? ==> projectTime == ProjectTime(t, root, skill, overrides, agents)
    ensures err.None? ==> (drifts <==> Drifts(t, src, root, skill, overrides, agents))
  {
    projectTime, drifts, err := 0, false, None;
    for i := 0 to |agents|
      invariant forall a :: a in agents[..i] ==> a in SupportedAgents
      invariant TargetsFailure(t, src, root, skill, overrides, agents[..i]).None?
      invariant projectTime == ProjectTime(t, root, skill, overrides, agents[..i])
      invariant drifts <==> Drifts(t, src, root, skill, overrides, agents[..i])
    {
      var agent := agents[i];
      assert agent in agents;
      DriftsStep(t, src, root, skill, overrides, agents, i);
      FailureStep(t, src, root, skill, overrides, agents, i);
      // Every agent is in the table, so resolving its target cannot fail.
      var target := ResolveSkillTarget(root, skill, agent, overrides);
      var targetTime := LatestModTime(t, target.value);
      if targetTime.Err? {
        FailureStops(t, src, root, skill, overrides, agents, i + 1);
        return projectTime, drifts, Some(targetTime.error);
      }
      if targetTime.value > projectTime {
        projectTime := targetTime.value;
      }
      var matched := DirsEqual(t, src, target.value);
      if matched.Err? {
        FailureStops(t, src, root, skill, overrides, agents, i + 1);
        return projectTime, drifts, Some(matched.error);
      }
      if !matched.value {
        drifts := true;
      }
    }
    WholePrefix(agents);
  }

  /** What projectDriftSkills reports for a registered skill whose source exists: nothing when
      every agent's target matches, otherwise its repository time, project time and status. */
  ghost function Report(t: Tree, root: Path, repository: string, cfg: ProjectConfig, skill: string): Option<DriftInfo>
    requires forall a :: a in cfg.agents ==> a in SupportedAgents
    requires skill in cfg.skillMap
  {
    var src := SkillSource(repository, skill);
    if src in t && Drifts(t, src, root, skill, cfg.skillMap[skill], cfg.agents) then
      var repoTime := LatestTime(t, src);
      var projectTime := ProjectTime(t, root, skill, cfg.skillMap[skill], cfg.agents);
      Some(DriftInfo(skill, repoTime, projectTime, DriftStatus(repoTime, projectTime)))
    else None
  }

  /** The body of projectDriftSkills' loop for one skill. */
  method CheckSkill(t: Tree, root: Path, repository: string, cfg: ProjectConfig, skill: string)
    returns (report: Option<DriftInfo>, err: Option<Error>)
    requires forall a :: a in cfg.agents ==> a in SupportedAgents
    requires skill in cfg.skillMap
    ensures err == SkillFailure(t, SkillSource(repository, skill), root, skill, cfg.skillMap[skill], cfg.agents)
    ensures err.None? ==> report == Report(t, root, repository, cfg, skill)
  {
    var src := SkillSource(repository, skill);
    if src !in t {
      return None, Some(SkillNotFound(skill));
    }
    // The source exists, so reading its time cannot fail.
    var repoTime := LatestModTime(t, src);
    var projectTime, drifts;
    projectTime, drifts, err := CompareTargets(t, src, root, skill, cfg.skillMap[skill], cfg.agents);
    if err.Some? {
      return None, err;
    }
    if drifts {
      report := Some(DriftInfo(skill, repoTime.value, projectTime, DriftStatus(repoTime.value, projectTime)));
    } else {
      report := None;
    }
  }

  /** `infos` is the report for the configuration: one entry for each registered skill that
      drifts, and nothing else. */
  ghost predicate Reported(t: Tree, root: Path, repository: string, cfg: ProjectConfig, infos: seq<DriftInfo>)
    requires forall a :: a in cfg.agents ==> a in SupportedAgents
  {
    (forall info :: info in infos <==>
       info.skill in cfg.skillMap && Report(t, root, repository, cfg, info.skill) == Some(info))
    && forall i, j :: 0 <= i < j < |infos| ==> infos[i].skill != infos[j].skill
  }

  /** projectDriftSkills, given the loaded configuration: unsupported agents are an error; then
      each registered skill, in the map's order, is checked, the first failing skill ends the
      call with its error, and the skills whose targets do not all match are reported. */
  method ProjectDriftSkills(t: Tree, root: Path, repository: string, cfg: ProjectConfig)
    returns (r: Result<seq<DriftInfo>>)
    ensures EnsureSupportedAgents(cfg.agents).Some? ==> r == Err(EnsureSupportedAgents(cfg.agents).value)
    ensures EnsureSupportedAgents(cfg.agents).None? ==>
              (r.Err? <==> exists skill :: skill in cfg.skillMap
                             && SkillFailure(t, SkillSource(repository, skill), root, skill, cfg.skillMap[skill], cfg.agents).Some?)
    ensures EnsureSupportedAgents(cfg.agents).None? && r.Err? ==>
              exists skill :: skill in cfg.skillMap
                && SkillFailure(t, SkillSource(repository, skill), root, skill, cfg.skillMap[skill], cfg.agents) == Some(r.error)
    ensures r.Ok? ==> EnsureSupportedAgents(cfg.agents).None? && Reported(t, root, repository, cfg, r.value)
  {
    var unsupported := EnsureSupportedAgents(cfg.agents);
    if unsupported.Some? {
      return Err(unsupported.value);
    }
    assert forall a :: a in cfg.agents ==> a in SupportedAgents;
    if |cfg.skillMap| == 0 {
      return Ok([]);
    }
    var remaining := cfg.skillMap.Keys;
    var drifted: seq<DriftInfo> := [];
    while remaining != {}
      invariant Progress(t, root, repository, cfg, remaining, drifted)
      decreases |remaining|
    {
      var skill :| skill in remaining;
      var report, err := CheckSkill(t, root, repository, cfg, skill);
      if err.Some? {
        return Err(err.value);
      }
      var next := if report.Some? then drifted + [report.value] else drifted;
      ProgressStep(t, root, repository, cfg, remaining, drifted, skill, report);
      drifted := next;
      remaining := remaining - {skill};
    }
    return Ok(drifted);
  }

  /** projectDriftSkills part way: the skills no longer in `remaining` were checked without
      failure, and `drifted` reports exactly those of them that drift, each once. */
  ghost predicate Progress(t: Tree, root: Path, repository: string, cfg: ProjectConfig, remaining: set<string>, drifted: seq<DriftInfo>)
    requires forall a :: a in cfg.agents ==> a in SupportedAgents
  {
    remaining <= cfg.skillMap.Keys
    && (forall skill :: skill in cfg.skillMap && skill !in remaining ==>
          SkillFailure(t, SkillSource(repository, skill), root, skill, cfg.skillMap[skill], cfg.agents).None?)
    && (forall info :: info in drifted <==>
          info.skill in cfg.skillMap && info.skill !in remaining
          && Report(t, root, repository, cfg, info.skill) == Some(info))
    && forall i, j :: 0 <= i < j < |drifted| ==> drifted[i].skill != drifted[j].skill
  }

  lemma ProgressStep(t: Tree, root: Path, repository: string, cfg: ProjectConfig, remaining: set<string>,
                     drifted: seq<DriftInfo>, skill: string, report: Option<DriftInfo>)
    requires forall a :: a in cfg.agents ==> a in SupportedAgents
    requires Progress(t, root, repository, cfg, remaining, drifted) && skill in remaining
    requires SkillFailure(t, SkillSource(repository, skill), root, skill, cfg.skillMap[skill], cfg.agents).None?
    requires report == Report(t, root, repository, cfg, skill)
    ensures Progress(t, root, repository, cfg, remaining - {skill},
                     if report.Some? then drifted + [report.value] else drifted)
  {
    var left := remaining - {skill};
    var next := if report.Some? then drifted + [report.value] else drifted;
    forall info ensures info in next <==> info.skill in cfg.skillMap && info.skill !in left
                                          && Report(t, root, repository, cfg, info.skill) == Some(info)
    {
      assert info in next <==> info in drifted || report == Some(info);
    }
    forall i, j | 0 <= i < j < |next| ensures next[i].skill != next[j].skill {
      if j == |drifted| {
        assert next[i] == drifted[i] && drifted[i] in drifted;
      }
    }
  }

  /** When no registered skill drifts, the only report is the empty one. */
  lemma NothingReported(t: Tree, root: Path, repository: string, cfg: ProjectConfig, infos: seq<DriftInfo>)
    requires forall a :: a in cfg.agents ==> a in SupportedAgents
    requires forall skill :: skill in cfg.skillMap ==> Report(t, root, repository, cfg, skill) == None
    ensures Reported(t, root, repository, cfg, infos) <==> infos == []
  {
    if infos != [] {
      assert infos[0] in infos;
    }
  }
}
