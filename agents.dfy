/** The agent table and where each agent keeps a project's skills: supportedAgents,
    listSupportedAgents, ensureSupportedAgents, defaultSkillDir and resolveSkillTarget. */
module Agents {
  import opened Results
  import opened Text
  import opened Paths

  /** Each supported agent and the directory, relative to the project root, that holds its
      skills. */
  const SupportedAgents: map<string, string> := map["kilo-code" := ".kilocode/skills", "codex" := ".codex/skills"]

  /** listSupportedAgents: the agent names of the table, gathered in whatever order the table
      yields them and then sorted. */
  method ListSupportedAgents() returns (agents: seq<string>)
    ensures Sorted(agents)
    ensures multiset(agents) == multiset(SupportedAgents.Keys)
  {
    var keys := SupportedAgents.Keys;
    var a := new string[|keys|];
    var rest := keys;
    var i := 0;
    while rest != {}
      invariant rest <= keys && i + |rest| == a.Length
      invariant multiset(a[..i]) + multiset(rest) == multiset(keys)
      decreases |rest|
    {
      var k :| k in rest;
      assert multiset(rest) == multiset(rest - {k}) + multiset{k};
      a[i] := k;
      assert a[..i + 1] == a[..i] + [k];
      rest := rest - {k};
      i := i + 1;
    }
    assert a[..] == a[..i];
    SortStrings(a);
    agents := a[..];
  }

  /** There is only one sorted listing of the table: codex, then kilo-code. */
  lemma SupportedAgentsListing(agents: seq<string>)
    requires Sorted(agents) && multiset(agents) == multiset(SupportedAgents.Keys)
    ensures agents == ["codex", "kilo-code"]
  {
    var keys := SupportedAgents.Keys;
    assert keys == {"kilo-code", "codex"};
    assert |multiset(agents)| == 2;
    assert |agents| == 2;
    assert agents[0] in multiset(agents) && agents[1] in multiset(agents);
    assert agents == [agents[0], agents[1]];
    assert StrLess("codex", "kilo-code");
  }

  /** ensureSupportedAgents: every listed agent is in the table; otherwise the first one that
      is not is reported. */
  function EnsureSupportedAgents(agents: seq<string>): (r: Option<Error>)
    ensures r.None? <==> forall i :: 0 <= i < |agents| ==> agents[i] in SupportedAgents
    ensures r.Some? ==>
              exists i :: 0 <= i < |agents| && r == Some(UnsupportedAgent(agents[i]))
                          && agents[i] !in SupportedAgents
                          && forall j :: 0 <= j < i ==> agents[j] in SupportedAgents
  {
    if agents == [] then None
    else if agents[0] !in SupportedAgents then Some(UnsupportedAgent(agents[0]))
    else
      var r := EnsureSupportedAgents(agents[1..]);
      if r.Some? then
        var i :| 0 <= i < |agents[1..]| && r == Some(UnsupportedAgent(agents[1..][i]))
                 && agents[1..][i] !in SupportedAgents
                 && forall j :: 0 <= j < i ==> agents[1..][j] in SupportedAgents;
        assert agents[i + 1] == agents[1..][i];
        r
      else r
  }

  /** defaultSkillDir: the agent's directory from the table. */
  function DefaultSkillDir(agent: string): (r: Result<string>)
    ensures r.Ok? <==> agent in SupportedAgents
    ensures r.Err? ==> r.error == UnsupportedAgent(agent)
    ensures r.Ok? ==> r.value == SupportedAgents[agent]
  {
    if agent in SupportedAgents then Ok(SupportedAgents[agent]) else Err(UnsupportedAgent(agent))
  }

  /** The agent has a non-empty override in the skill's override map. */
  predicate HasOverride(overrides: map<string, string>, agent: string) {
    agent in overrides && overrides[agent] != ""
  }

  /** resolveSkillTarget: a non-empty override, taken relative to the project root, wins and
      is used without looking the agent up; otherwise the skill goes into the agent's default
      directory, and an agent missing from the table is an error. */
  function ResolveSkillTarget(root: Path, skill: string, agent: string, overrides: map<string, string>): (r: Result<Path>)
    ensures HasOverride(overrides, agent) ==> r == Ok(Join(root, [overrides[agent]]))
    ensures !HasOverride(overrides, agent) ==>
              match DefaultSkillDir(agent)
              case Ok(dir) => r == Ok(Join(root, [dir, skill]))
              case Err(e) => r == Err(e)
    ensures r.Err? <==> !HasOverride(overrides, agent) && agent !in SupportedAgents
    ensures r.Ok? ==> IsClean(r.value)
  {
    if HasOverride(overrides, agent) then Ok(Join(root, [overrides[agent]]))
    else
      match DefaultSkillDir(agent)
      case Err(e) => Err(e)
      case Ok(dir) => Ok(Join(root, [dir, skill]))
  }

  lemma TwoNamesClean(a: string, b: string)
    requires IsName(a) && IsName(b)
    ensures IsClean([a, b])
  {
  }

  lemma CodexDirComponents()
    ensures Split(".codex/skills", '/') == [".codex", "skills"]
    ensures IsClean(Split(".codex/skills", '/'))
  {
    assert ".codex/skills" == ".codex" + ['/'] + "skills";
    SplitInTwo(".codex", "skills", '/');
    assert |".codex"| == 6 && |"skills"| == 6;
    TwoNamesClean(".codex", "skills");
  }

  lemma KiloCodeDirComponents()
    ensures Split(".kilocode/skills", '/') == [".kilocode", "skills"]
    ensures IsClean(Split(".kilocode/skills", '/'))
  {
    assert ".kilocode/skills" == ".kilocode" + ['/'] + "skills";
    SplitInTwo(".kilocode", "skills", '/');
    assert |".kilocode"| == 9 && |"skills"| == 6;
    TwoNamesClean(".kilocode", "skills");
  }

  /** Each directory of the table splits into clean components. */
  lemma DefaultDirComponents(agent: string)
    requires agent in SupportedAgents
    ensures IsClean(Split(SupportedAgents[agent], '/'))
  {
    if agent == "codex" {
      assert SupportedAgents[agent] == ".codex/skills";
      CodexDirComponents();
    } else {
      assert SupportedAgents[agent] == ".kilocode/skills";
      KiloCodeDirComponents();
    }
  }

  /** The default target is the skill name cleaned onto the agent's directory below the root. */
  lemma DefaultJoin(root: Path, skill: string, agent: string)
    requires IsClean(root) && agent in SupportedAgents
    ensures IsClean(root + Split(SupportedAgents[agent], '/'))
    ensures Join(root, [SupportedAgents[agent], skill])
            == CleanFrom(root + Split(SupportedAgents[agent], '/'), Split(skill, '/'))
  {
    var dirName := SupportedAgents[agent];
    DefaultDirComponents(agent);
    ComponentsPair(dirName, skill);
    CleanAfterClean(root, Split(dirName, '/'), Split(skill, '/'));
  }

  /** Without an override, and for a skill name free of "..", the target lies inside the
      agent's directory below the project root. */
  lemma DefaultTargetInsideRoot(root: Path, skill: string, agent: string, overrides: map<string, string>)
    requires IsClean(root) && agent in SupportedAgents && !HasOverride(overrides, agent)
    requires ".." !in Split(skill, '/')
    ensures ResolveSkillTarget(root, skill, agent, overrides).Ok?
    ensures root + Split(SupportedAgents[agent], '/') <= ResolveSkillTarget(root, skill, agent, overrides).value
    ensures root < ResolveSkillTarget(root, skill, agent, overrides).value
  {
    var dir := Split(SupportedAgents[agent], '/');
    DefaultJoin(root, skill, agent);
    CleanFromExtends(root + dir, Split(skill, '/'));
  }

  /** An override is neither checked against the table nor confined to the project root:
      "../x" for an agent the table does not know puts the skill next to the project. */
  lemma OverrideEscapesRoot()
    ensures "claude" !in SupportedAgents
    ensures ResolveSkillTarget(["home", "proj"], "lint", "claude", map["claude" := "../x"]) == Ok(["home", "x"])
  {
    JoinCanEscape();
  }
}
