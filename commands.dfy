/** The add, remove and sync commands, once the project root, the central repository and the
    project configuration are loaded: which copies and removals they make, in which order, when
    they stop, and what they write back to the configuration. */
module Commands {
  import opened Results
  import opened Paths
  import opened FileSystems
  import opened Copier
  import opened Comparator
  import opened Agents
  import opened Config
  import opened Drift
  import opened Deploy

  /** Every agent is in the table, as ensureSupportedAgents checks. */
  predicate Supported(agents: seq<string>) {
    forall i :: 0 <= i < |agents| ==> agents[i] in SupportedAgents
  }

  /** The overrides add uses: the skill's registered overrides, or none for a new skill. */
  function OverridesOf(cfg: ProjectConfig, skill: string): map<string, string> {
    if skill in cfg.skillMap then cfg.skillMap[skill] else map[]
  }

  /** The skill's target for each agent, in the order of the agents. */
  function Targets(root: Path, skill: string, overrides: map<string, string>, agents: seq<string>): (r: seq<Path>)
    requires Supported(agents)
    ensures |r| == |agents|
  {
    seq(|agents|, i requires 0 <= i < |agents| => Target(root, skill, agents[i], overrides))
  }

  /** remove's loop over the agents: os.RemoveAll of each target, stopping at the first one
      that is blocked. */
  method RemoveTargets(fs: FileSystem, root: Path, skill: string, overrides: map<string, string>, agents: seq<string>)
    returns (err: Option<Error>)
    requires fs.Valid() && Supported(agents)
    modifies fs
    ensures fs.Valid()
    ensures Outcome(fs.tree, err) == RemovedEach(old(fs.tree), Targets(root, skill, overrides, agents))
  {
    ghost var targets := Targets(root, skill, overrides, agents);
    ghost var t0 := fs.tree;
    for i := 0 to |agents|
      invariant fs.Valid()
      invariant RemovedEach(t0, targets[..i]) == Outcome(fs.tree, None)
    {
      var target := ResolveSkillTarget(root, skill, agents[i], overrides).value;
      assert target == targets[i];
      if Blocked(fs.tree, target) {
        RemovedEachBlocked(t0, targets, i, fs.tree);
        return Some(NotADirectory(target));
      }
      RemovedEachNext(t0, targets, i, fs.tree);
      fs.tree := RemoveAll(fs.tree, target);
    }
    assert targets[..|agents|] == targets;
    return None;
  }

  /** The copies made for one skill: from its source to each of its targets. */
  function SkillJobs(root: Path, repository: string, skill: string, overrides: map<string, string>, agents: seq<string>): (r: seq<Job>)
    requires Supported(agents)
    ensures |r| == |agents|
  {
    var targets := Targets(root, skill, overrides, agents);
    seq(|agents|, i requires 0 <= i < |agents| => Job(SkillSource(repository, skill), targets[i]))
  }

  /** What sync does for the skills in `order`: for each in turn, the source is looked up in
      the tree as it is by then and copied to every target; the first failure ends it. */
  ghost function SyncFold(t: Tree, root: Path, repository: string, cfg: ProjectConfig, order: seq<string>, now: nat): Outcome
    requires Supported(cfg.agents)
    requires forall k :: 0 <= k < |order| ==> order[k] in cfg.skillMap
    decreases |order|
  {
    if order == [] then Outcome(t, None)
    else
      var o := SyncFold(t, root, repository, cfg, order[..|order| - 1], now);
      var skill := order[|order| - 1];
      if o.err.Some? then o
      else if SkillSource(repository, skill) !in o.tree then Outcome(o.tree, Some(SkillNotFound(skill)))
      else CopyJobs(o.tree, SkillJobs(root, repository, skill, cfg.skillMap[skill], cfg.agents), now)
  }

  /** Every copy sync makes for the skills in `order`, in order. */
  function SyncJobs(root: Path, repository: string, cfg: ProjectConfig, order: seq<string>): seq<Job>
    requires Supported(cfg.agents)
    requires forall k :: 0 <= k < |order| ==> order[k] in cfg.skillMap
    decreases |order|
  {
    if order == [] then []
    else
      var skill := order[|order| - 1];
      SyncJobs(root, repository, cfg, order[..|order| - 1])
        + SkillJobs(root, repository, skill, cfg.skillMap[skill], cfg.agents)
  }

  /** Sync over the first `k + 1` skills: the first `k`, then skill `k` if they all
      succeeded. */
  lemma SyncFoldSnoc(t: Tree, root: Path, repository: string, cfg: ProjectConfig, order: seq<string>, k: nat, now: nat)
    requires Supported(cfg.agents)
    requires forall j :: 0 <= j < |order| ==> order[j] in cfg.skillMap
    requires k < |order|
    ensures SyncFold(t, root, repository, cfg, order[..k + 1], now)
         == var o := SyncFold(t, root, repository, cfg, order[..k], now);
            if o.err.Some? then o
            else if SkillSource(repository, order[k]) !in o.tree then Outcome(o.tree, Some(SkillNotFound(order[k])))
            else CopyJobs(o.tree, SkillJobs(root, repository, order[k], cfg.skillMap[order[k]], cfg.agents), now)
  {
    assert order[..k + 1][..k] == order[..k];
  }

  /** Once a skill fails, sync handles no later skill. */
  lemma {:induction false} SyncFoldStops(t: Tree, root: Path, repository: string, cfg: ProjectConfig, order: seq<string>, k: nat, now: nat)
    requires Supported(cfg.agents)
    requires forall j :: 0 <= j < |order| ==> order[j] in cfg.skillMap
    requires k <= |order| && SyncFold(t, root, repository, cfg, order[..k], now).err.Some?
    ensures SyncFold(t, root, repository, cfg, order, now) == SyncFold(t, root, repository, cfg, order[..k], now)
    decreases |order| - k
  {
    if k < |order| {
      assert order[..k + 1][..k] == order[..k];
      SyncFoldStops(t, root, repository, cfg, order, k + 1, now);
    } else {
      assert order[..k] == order;
    }
  }

  /** A sync that succeeds makes exactly the copies of SyncJobs, in that order. */
  lemma {:induction false} SyncIsCopyJobs(t: Tree, root: Path, repository: string, cfg: ProjectConfig, order: seq<string>, now: nat)
    requires Supported(cfg.agents)
    requires forall k :: 0 <= k < |order| ==> order[k] in cfg.skillMap
    requires SyncFold(t, root, repository, cfg, order, now).err == None
    ensures SyncFold(t, root, repository, cfg, order, now) == CopyJobs(t, SyncJobs(root, repository, cfg, order), now)
    decreases |order|
  {
    if order != [] {
      var init := order[..|order| - 1];
      var skill := order[|order| - 1];
      var o := SyncFold(t, root, repository, cfg, init, now);
      SyncIsCopyJobs(t, root, repository, cfg, init, now);
      var jobs := SkillJobs(root, repository, skill, cfg.skillMap[skill], cfg.agents);
      CopyJobsAppend(t, SyncJobs(root, repository, cfg, init), jobs, now);
    }
  }

  /** The skills in `order` are the registered skills, each once: the order in which Go's
      range over the skill map happens to visit them. */
  ghost predicate IterationOrder(order: seq<string>, skillMap: map<string, map<string, string>>) {
    (forall s :: s in order <==> s in skillMap)
    && forall i, j :: 0 <= i < j < |order| ==> order[i] != order[j]
  }

  /** The range visits nothing exactly when no skill is registered. */
  lemma IterationOrderEmpty(order: seq<string>, skillMap: map<string, map<string, string>>)
    requires IterationOrder(order, skillMap)
    ensures order == [] <==> |skillMap| == 0
  {
    if order != [] {
      assert order[0] in skillMap.Keys;
      assert |skillMap.Keys| >= |{order[0]}|;
    } else {
      assert skillMap.Keys == {};
    }
  }

  /** Job `i` of a skill copies its source to the target of agent `i`. */
  lemma SkillJobsAt(root: Path, repository: string, skill: string, overrides: map<string, string>, agents: seq<string>, i: nat)
    requires Supported(agents) && i < |agents|
    ensures SkillJobs(root, repository, skill, overrides, agents)[i]
         == Job(SkillSource(repository, skill), Target(root, skill, agents[i], overrides))
  {
  }

  /** Every copy sync makes for a skill in `order` is among SyncJobs. */
  lemma {:induction false} SyncJobsContain(root: Path, repository: string, cfg: ProjectConfig, order: seq<string>, skill: string, i: nat)
    requires Supported(cfg.agents)
    requires forall j :: 0 <= j < |order| ==> order[j] in cfg.skillMap
    requires skill in order && i < |cfg.agents|
    ensures skill in cfg.skillMap
    ensures Job(SkillSource(repository, skill), Target(root, skill, cfg.agents[i], cfg.skillMap[skill]))
            in SyncJobs(root, repository, cfg, order)
    decreases |order|
  {
    var init := order[..|order| - 1];
    var last := order[|order| - 1];
    var before := SyncJobs(root, repository, cfg, init);
    var jobs := SkillJobs(root, repository, last, cfg.skillMap[last], cfg.agents);
    assert SyncJobs(root, repository, cfg, order) == before + jobs;
    if skill == last {
      SkillJobsAt(root, repository, skill, cfg.skillMap[skill], cfg.agents, i);
      assert jobs[i] in before + jobs;
    } else {
      assert order == init + [last];
      assert skill in init;
      SyncJobsContain(root, repository, cfg, init, skill, i);
    }
  }

  /** When every copy of add succeeds, the source is untouched by the copies and holds no
      special file, and the targets are the same or lie apart, then no agent's target drifts
      from the source and the drift report leaves the skill out. */
  lemma AddLeavesNoDrift(t: Tree, root: Path, repository: string, cfg: ProjectConfig, skill: string, now: nat)
    requires WellFormed(t) && Supported(cfg.agents)
    requires Separate(SkillJobs(root, repository, skill, OverridesOf(cfg, skill), cfg.agents))
    requires NoSpecialFiles(t, SkillSource(repository, skill))
    requires CopyJobs(t, SkillJobs(root, repository, skill, OverridesOf(cfg, skill), cfg.agents), now).err == None
    ensures forall i :: 0 <= i < |cfg.agents| ==>
              TreesEqual(CopyJobs(t, SkillJobs(root, repository, skill, OverridesOf(cfg, skill), cfg.agents), now).tree,
                         SkillSource(repository, skill), Target(root, skill, cfg.agents[i], OverridesOf(cfg, skill))) == Ok(true)
    ensures Report(CopyJobs(t, SkillJobs(root, repository, skill, OverridesOf(cfg, skill), cfg.agents), now).tree,
                   root, repository, cfg.(skillMap := cfg.skillMap[skill := OverridesOf(cfg, skill)]), skill) == None
  {
    var overrides := OverridesOf(cfg, skill);
    var src := SkillSource(repository, skill);
    var jobs := SkillJobs(root, repository, skill, overrides, cfg.agents);
    var out := CopyJobs(t, jobs, now).tree;
    AllJobsMatch(t, jobs, now);
    forall i | 0 <= i < |cfg.agents| ensures TreesEqual(out, src, Target(root, skill, cfg.agents[i], overrides)) == Ok(true) {
      SkillJobsAt(root, repository, skill, overrides, cfg.agents, i);
    }
    var after := cfg.(skillMap := cfg.skillMap[skill := overrides]);
    assert !Drifts(out, src, root, skill, overrides, cfg.agents);
  }

  /** When a sync succeeds, no copy writes into a source, the targets are the same or lie
      apart, two skills never share a target, and no source holds special files, then every
      registered skill matches at every agent's target. */
  lemma SyncTargetsMatch(t: Tree, root: Path, repository: string, cfg: ProjectConfig, order: seq<string>, now: nat)
    requires WellFormed(t) && Supported(cfg.agents) && IterationOrder(order, cfg.skillMap)
    requires Separate(SyncJobs(root, repository, cfg, order)) && Consistent(SyncJobs(root, repository, cfg, order))
    requires forall skill :: skill in cfg.skillMap ==> NoSpecialFiles(t, SkillSource(repository, skill))
    requires SyncFold(t, root, repository, cfg, order, now).err == None
    ensures forall skill, i :: skill in cfg.skillMap && 0 <= i < |cfg.agents| ==>
              TreesEqual(SyncFold(t, root, repository, cfg, order, now).tree,
                         SkillSource(repository, skill), Target(root, skill, cfg.agents[i], cfg.skillMap[skill])) == Ok(true)
  {
    var jobs := SyncJobs(root, repository, cfg, order);
    SyncIsCopyJobs(t, root, repository, cfg, order, now);
    var out := SyncFold(t, root, repository, cfg, order, now).tree;
    SyncSourcesListed(root, repository, cfg, order);
    AllJobsMatch(t, jobs, now);
    forall skill, i | skill in cfg.skillMap && 0 <= i < |cfg.agents|
      ensures TreesEqual(out, SkillSource(repository, skill), Target(root, skill, cfg.agents[i], cfg.skillMap[skill])) == Ok(true)
    {
      SyncJobsContain(root, repository, cfg, order, skill, i);
    }
  }

  /** Under the same conditions the drift report after a successful sync is empty. */
  lemma SyncLeavesNoDrift(t: Tree, root: Path, repository: string, cfg: ProjectConfig, order: seq<string>, now: nat)
    requires WellFormed(t) && Supported(cfg.agents) && IterationOrder(order, cfg.skillMap)
    requires Separate(SyncJobs(root, repository, cfg, order)) && Consistent(SyncJobs(root, repository, cfg, order))
    requires forall skill :: skill in cfg.skillMap ==> NoSpecialFiles(t, SkillSource(repository, skill))
    requires SyncFold(t, root, repository, cfg, order, now).err == None
    ensures forall infos :: Reported(SyncFold(t, root, repository, cfg, order, now).tree, root, repository, cfg, infos) <==> infos == []
  {
    SyncTargetsMatch(t, root, repository, cfg, order, now);
    var out := SyncFold(t, root, repository, cfg, order, now).tree;
    forall skill | skill in cfg.skillMap ensures Report(out, root, repository, cfg, skill) == None {
      assert !Drifts(out, SkillSource(repository, skill), root, skill, cfg.skillMap[skill], cfg.agents);
    }
    forall infos ensures Reported(out, root, repository, cfg, infos) <==> infos == [] {
      NothingReported(out, root, repository, cfg, infos);
    }
  }

  /** The source of every job of a sync is the source of a registered skill. */
  lemma {:induction false} SyncSourcesListed(root: Path, repository: string, cfg: ProjectConfig, order: seq<string>)
    requires Supported(cfg.agents)
    requires forall j :: 0 <= j < |order| ==> order[j] in cfg.skillMap
    ensures forall job :: job in SyncJobs(root, repository, cfg, order) ==>
              exists skill :: skill in cfg.skillMap && job.src == SkillSource(repository, skill)
    decreases |order|
  {
    if order != [] {
      var init := order[..|order| - 1];
      var skill := order[|order| - 1];
      SyncSourcesListed(root, repository, cfg, init);
      var jobs := SkillJobs(root, repository, skill, cfg.skillMap[skill], cfg.agents);
      forall job | job in jobs ensures job.src == SkillSource(repository, skill) {
      }
    }
  }

  /** The project the commands work on: its configuration, its root, the central repository,
      and the file system that holds both trees. */
  class Project {
    var config: ProjectConfig
    const root: Path
    const repository: string
    const fs: FileSystem

    /** What every command established: the check of loadProjectConfig holds, and the root is
        an absolute clean path. Only add and sync load the global configuration, so only they
        also require the repository check. */
    ghost predicate Valid()
      reads this, fs
    {
      fs.Valid() && IsClean(root) && ProjectLoadable(config)
    }

    constructor (fs: FileSystem, root: Path, repository: string, config: ProjectConfig)
      requires fs.Valid() && IsClean(root) && ProjectLoadable(config)
      ensures Valid()
      ensures this.fs == fs && this.root == root && this.repository == repository && this.config == config
    {
      this.fs := fs;
      this.root := root;
      this.repository := repository;
      this.config := config;
    }

    /** add: checks the agents, then that the skill exists in the repository; copies it to
        every agent's target, stopping at the first failed copy; registers the skill (with the
        overrides it already had, or none) only when every copy succeeded. */
    method Add(skill: string, now: nat) returns (err: Option<Error>)
      requires Valid() && RepositoryLoadable(repository)
      modifies this, fs
      ensures Valid()
      ensures EnsureSupportedAgents(old(config).agents).Some? ==>
                err == EnsureSupportedAgents(old(config).agents) && fs.tree == old(fs.tree) && config == old(config)
      ensures EnsureSupportedAgents(old(config).agents).None? && SkillSource(repository, skill) !in old(fs.tree) ==>
                err == Some(SkillNotFound(skill)) && fs.tree == old(fs.tree) && config == old(config)
      ensures EnsureSupportedAgents(old(config).agents).None? && SkillSource(repository, skill) in old(fs.tree) ==>
                Outcome(fs.tree, err)
                == CopyJobs(old(fs.tree), SkillJobs(root, repository, skill, OverridesOf(old(config), skill), old(config).agents), now)
      ensures EnsureSupportedAgents(old(config).agents).None? && SkillSource(repository, skill) in old(fs.tree) ==>
                config == if err.None? then old(config).(skillMap := old(config).skillMap[skill := OverridesOf(old(config), skill)])
                          else old(config)
    {
      err := EnsureSupportedAgents(config.agents);
      if err.Some? {
        return;
      }
      var src := SkillSource(repository, skill);
      if src !in fs.tree {
        return Some(SkillNotFound(skill));
      }
      var overrides := if skill in config.skillMap then config.skillMap[skill] else map[];
      err := CopyToTargets(skill, overrides, now);
      if err.None? {
        config := config.(skillMap := config.skillMap[skill := overrides]);
      }
    }

    /** The loop add and sync share: the skill's target for each agent is resolved and the
        skill copied there, in agent order, until a copy fails. */
    method CopyToTargets(skill: string, overrides: map<string, string>, now: nat) returns (err: Option<Error>)
      requires Valid() && Supported(config.agents)
      modifies fs
      ensures Valid()
      ensures Outcome(fs.tree, err) == CopyJobs(old(fs.tree), SkillJobs(root, repository, skill, overrides, config.agents), now)
    {
      var src := SkillSource(repository, skill);
      ghost var jobs := SkillJobs(root, repository, skill, overrides, config.agents);
      ghost var t0 := fs.tree;
      err := None;
      for i := 0 to |config.agents|
        invariant fs.Valid()
        invariant err == None
        invariant CopyJobs(t0, jobs[..i], now) == Outcome(fs.tree, err)
      {
        var target := ResolveSkillTarget(root, skill, config.agents[i], overrides).value;
        assert jobs[i] == Job(src, target);
        CopyJobsSnoc(t0, jobs, i, now);
        err := CopySkillDir(fs, src, target, now);
        if err.Some? {
          CopyJobsStops(t0, jobs, i + 1, now);
          return;
        }
      }
      assert jobs[..|config.agents|] == jobs;
    }

    /** remove: checks the agents, then that the skill is registered; removes every agent's
        target (a missing target is no error, a blocked one ends the command) and, when all
        are removed, unregisters the skill. */
    method Remove(skill: string) returns (err: Option<Error>)
      requires Valid()
      modifies this, fs
      ensures Valid()
      ensures EnsureSupportedAgents(old(config).agents).Some? ==>
                err == EnsureSupportedAgents(old(config).agents) && fs.tree == old(fs.tree) && config == old(config)
      ensures EnsureSupportedAgents(old(config).agents).None? && skill !in old(config).skillMap ==>
                err == Some(SkillNotRegistered(skill)) && fs.tree == old(fs.tree) && config == old(config)
      ensures EnsureSupportedAgents(old(config).agents).None? && skill in old(config).skillMap ==>
                Outcome(fs.tree, err) == RemovedEach(old(fs.tree), Targets(root, skill, old(config).skillMap[skill], old(config).agents))
                && config == if err.None? then old(config).(skillMap := old(config).skillMap - {skill}) else old(config)
    {
      err := EnsureSupportedAgents(config.agents);
      if err.Some? {
        return;
      }
      if skill !in config.skillMap {
        return Some(SkillNotRegistered(skill));
      }
      err := RemoveTargets(fs, root, skill, config.skillMap[skill], config.agents);
      if err.None? {
        config := config.(skillMap := config.skillMap - {skill});
      }
    }

    /** sync: checks the agents; with no registered skill there is nothing to do; otherwise
        visits the skills in `order`, the order Go's map iteration happens to take, and for each
        checks that its source exists and copies it to every target, stopping at the first
        failure. The configuration is not written. */
    method Sync(order: seq<string>, now: nat) returns (err: Option<Error>)
      requires Valid() && RepositoryLoadable(repository) && IterationOrder(order, config.skillMap)
      modifies fs
      ensures Valid()
      ensures EnsureSupportedAgents(config.agents).Some? ==>
                err == EnsureSupportedAgents(config.agents) && fs.tree == old(fs.tree)
      ensures EnsureSupportedAgents(config.agents).None? ==>
                Outcome(fs.tree, err) == SyncFold(old(fs.tree), root, repository, config, order, now)
    {
      err := EnsureSupportedAgents(config.agents);
      if err.Some? {
        return;
      }
      if |config.skillMap| == 0 {
        IterationOrderEmpty(order, config.skillMap);
        return None;
      }
      ghost var t0 := fs.tree;
      for k := 0 to |order|
        modifies fs
        invariant fs.Valid()
        invariant err == None
        invariant SyncFold(t0, root, repository, config, order[..k], now) == Outcome(fs.tree, err)
      {
        var skill := order[k];
        SyncFoldSnoc(t0, root, repository, config, order, k, now);
        var src := SkillSource(repository, skill);
        if src !in fs.tree {
          SyncFoldStops(t0, root, repository, config, order, k + 1, now);
          return Some(SkillNotFound(skill));
        }
        err := CopyToTargets(skill, config.skillMap[skill], now);
        if err.Some? {
          SyncFoldStops(t0, root, repository, config, order, k + 1, now);
          return;
        }
      }
      assert order[..|order|] == order;
    }
  }
}
