/** The project configuration (.skills.yaml) as the commands see it once loaded, and where a
    skill lives in the central repository. */
module Config {
  import opened Paths

  /** ProjectConfig: the project's agents, and for each registered skill its map from agent
      to override directory. A missing skillMap is the empty map. */
  datatype ProjectConfig = ProjectConfig(agents: seq<string>, skillMap: map<string, map<string, string>>)

  /** The check loadProjectConfig makes: the agents list is not empty. */
  predicate ProjectLoadable(cfg: ProjectConfig) {
    cfg.agents != []
  }

  /** The check loadGlobalConfig makes: the repository path is not empty. */
  predicate RepositoryLoadable(repository: string) {
    repository != ""
  }

  /** filepath.Join(skillRepository, skillName); the repository path is taken as absolute. */
  function SkillSource(repository: string, skill: string): (p: Path)
    ensures IsClean(p)
  {
    Join([], [repository, skill])
  }
}
