# gym skill deployment — a Dafny model

gym keeps a central repository of "skills": directory trees, one per skill. It copies them
into a project, once for each coding agent the project uses, and reports when a copy in the
project no longer matches its source. This project models that engine and proves properties
of the model:

- the agent table and how a skill's target directory is resolved;
- the tree copier `copySkillDir` and its helper `copyFile`;
- the tree and file comparator `dirsEqual`, `filesEqual` and `equalBytes`;
- drift detection: `latestModTime`, `driftStatus` and `projectDriftSkills`;
- how the `add`, `remove` and `sync` commands change the project configuration and the file
  system;
- the selection parsing of `promptAgents` and `parsePositiveInt`.

The file system is a map from absolute paths to entries. A path is a sequence of components,
and `[]` is "/". Each entry is a directory, a regular file, a symbolic link or another kind of
file, and carries its permission bits and a modification time. Time is a natural number, and 0
stands for Go's zero `time.Time`. The operating-system calls the core makes (`os.RemoveAll`,
`os.MkdirAll`, `os.Symlink`, `os.OpenFile` with a write) are functions from a tree to a new
tree or an error, with Go's error conditions. A path is *blocked* when the nearest existing
path above it is not a directory. Looking it up with `os.Stat` then fails with "not a
directory" (ENOTDIR), which `os.IsNotExist` does not accept, and `os.RemoveAll` fails there
too. A `FileSystem` object holds the current tree.
The Go code that changes it step by step (`copySkillDir`, `copyFile` and the three commands)
is written as methods that update that object in loops. Each of these methods is proved equal
to a specification function of the old tree. The properties are then proved as lemmas about
those functions.

Modules, one per file:

| module | file | what it holds |
|---|---|---|
| `Results` | `results.dfy` | errors, `Option`, `Result` |
| `Orders` | `orders.dfy` | lexicographic order and least elements |
| `Text` | `text.dfy` | `strings.TrimSpace`, `strings.Split`, `sort.Strings` |
| `Paths` | `paths.dfy` | component paths, `filepath.Dir`, `filepath.Clean`, `filepath.Join` |
| `FileSystems` | `filesystem.dfy` | the tree, the OS calls, the `FileSystem` class |
| `Config` | `config.dfy` | the loaded project configuration and skill sources |
| `Agents` | `agents.dfy` | the agent table and target resolution |
| `Selection` | `selection.dfy` | `promptAgents`' selection parsing and `parsePositiveInt` |
| `Copier` | `copier.dfy` | `copySkillDir`, `copyFile` and the walk |
| `CopyProperties` | `copy_properties.dfy` | what a copy leaves, success conditions, idempotence |
| `Comparator` | `comparator.dfy` | `dirsEqual`, `filesEqual`, `equalBytes`, copy fidelity |
| `Drift` | `drift.dfy` | `latestModTime`, `driftStatus`, `projectDriftSkills` |
| `Deploy` | `deploy.dfy` | runs of several copies and removals |
| `Commands` | `commands.dfy` | `add`, `remove`, `sync` on a `Project` object |

The two central results are:

- `Comparator.CopyFidelity`: after a successful `copySkillDir` of a source that holds only
  directories, regular files and symbolic links, `dirsEqual` reports a match;
- `CopyProperties.CopyIdempotent`: copying a second time leaves the same tree and result as
  copying once, whether the first copy succeeded or failed.

Source citations below are paths in the gym repository.

## Model

| member | source | states |
|---|---|---|
| `Agents.ListSupportedAgents` | cmd/skills.go:20-27 | The agents gathered from the table and sorted in place: the result is sorted and is a permutation of the table's keys. |
| `Agents.SupportedAgentsListing` | cmd/skills.go:15-27 | The only sorted permutation of the table's keys is `["codex", "kilo-code"]`. So menu number 1 is codex and 2 is kilo-code. |
| `Agents.EnsureSupportedAgents` | cmd/skills.go:107-114 | No error exactly when every listed agent is in the table. Otherwise the error names the first agent that is not, and every agent before it is in the table. |
| `Agents.DefaultSkillDir` | cmd/skills.go:116-122 | Succeeds exactly for agents of the table and gives the table's directory. An unknown agent gives an unsupported-agent error naming it. |
| `Agents.ResolveSkillTarget` | cmd/skills.go:198-209 | A non-empty override wins: the result is root joined with the override, with no check of the agent. Otherwise it is root joined with the agent's directory and the skill name, or `defaultSkillDir`'s error. It fails exactly when there is no override and the agent is unknown. Every result is a clean path. |
| `Agents.DefaultDirComponents` | cmd/skills.go:15-18 | Each directory of the table splits at '/' into clean components. |
| `Agents.DefaultJoin` | cmd/skills.go:208 | Joining the default directory and the skill name onto the root continues cleaning from the root plus the directory's components. |
| `Agents.DefaultTargetInsideRoot` | cmd/skills.go:204-208 | Without an override, and for a skill name with no ".." component, the target resolves successfully. It lies strictly inside the project root, below the agent's directory. |
| `Agents.OverrideEscapesRoot` | cmd/skills.go:199-201 | An override is neither checked against the table nor kept inside the root. "../x" for the unknown agent "claude" in "/home/proj" resolves to "/home/x". |
| `Paths.DirOf` | cmd/skills.go:183 | `filepath.Dir`: the parent is a prefix of the path, one component shorter unless the path is the root. |
| `Paths.Join` | cmd/skills.go:201 | `filepath.Join` onto an absolute root always yields a clean path. |
| `Paths.CleanFromAppend` | cmd/skills.go:208 | Cleaning a concatenation equals cleaning the second part onto the cleaned first part. |
| `Paths.CleanIdempotent` | cmd/skills.go:208 | Cleaning leaves a clean path unchanged; so cleaning twice is cleaning once. |
| `Paths.JoinStaysInside` | cmd/skills.go:208 | Elements with no ".." component join to a path inside the root. |
| `Paths.JoinCanEscape` | cmd/skills.go:201 | "/home/proj" joined with "../x" is "/home/x", which is outside the root. |
| `Paths.PathLessIsStrictTotalOrder` | cmd/skills.go:140 | The walk order on component paths is a strict total order, so the walk visits entries in exactly one order. |
| `Orders.LexStrictTotalOrder` | cmd/skills.go:25 | Lexicographic order over a strict total order is itself irreflexive, transitive and total. |
| `Orders.PrefixLess` | cmd/skills.go:140 | A proper prefix comes first: a directory is visited before everything inside it. |
| `Orders.LeastExists` | cmd/skills.go:140 | Every non-empty finite set has a least element under a strict total order. |
| `Orders.LeastUnique` | cmd/skills.go:140 | That least element is unique. |
| `Text.TrimSpace` | cmd/skills.go:42 | `strings.TrimSpace`: the result is a slice of the input with only white space removed at both ends, and it neither starts nor ends with white space. |
| `Text.Split` | cmd/skills.go:47 | `strings.Split` at one character: at least one piece, no piece holds the separator, and joining the pieces with the separator gives the input back. |
| `Text.SplitJoin` | cmd/skills.go:47 | The other round trip: pieces free of the separator are recovered by splitting their join. |
| `Text.SplitInTwo` | cmd/skills.go:47 | A string with one separator splits into the two sides. |
| `Text.StrLessIsStrictTotalOrder` | cmd/skills.go:25 | The string order `sort.Strings` uses is a strict total order. |
| `Text.InsertAt` | cmd/skills.go:25 | One step of the in-place sort: the first `i + 1` strings end up sorted, and the array stays a permutation of itself. |
| `Text.SortStrings` | cmd/skills.go:25 | `sort.Strings` in place: the array ends sorted and is a permutation of its old contents. |
| `Selection.ScanDecimal` | cmd/skills.go:97 | `fmt.Sscanf` with "%d" into an `int`: any value read lies in the 64-bit range. Input that ends before a digit can be read is exactly the unexpected-end error: empty input, or a sign alone. |
| `Selection.ParsePositiveInt` | cmd/skills.go:95-105 | Succeeds exactly when the scan succeeds with a value of at least 1, and then returns that value. A scan error is passed on; a value of 0 or less is an error. |
| `Selection.DecimalValue` | cmd/skills.go:97 | The decimal digits written for `n` denote `n`. |
| `Selection.PositiveIntRoundTrip` | cmd/skills.go:95-105 | A number from 1 to the largest 64-bit value, written in decimal and followed by text that does not start with a digit, parses back to itself. |
| `Selection.ReadLine` | cmd/skills.go:37-41 | `ReadString('\n')`: a prefix of the input that ends at the first newline, or the whole input when there is none. |
| `Selection.PicksStep` | cmd/skills.go:50-67 | The parts are handled left to right: the picks of the first `i + 1` parts are those of the first `i`, extended by part `i`. |
| `Selection.PicksStops` | cmd/skills.go:55-61 | The first bad part decides the result, whatever parts follow. |
| `Selection.PicksStopAt` | cmd/skills.go:55-61 | A part that is not a number in range ends the parse with its own error. |
| `Selection.PicksFromAgents` | cmd/skills.go:62 | Every agent picked is one of the listed agents. |
| `Selection.KeepFirst` | cmd/skills.go:63-66 | The `seen` map keeps step with the selection. An agent already seen leaves the selection as is. A new agent is appended to it and added to `seen`. |
| `Selection.DedupMembers` | cmd/skills.go:63-66 | The selection without repeats holds exactly the agents picked. |
| `Selection.DedupDistinct` | cmd/skills.go:63-66 | The selection without repeats holds no agent twice. |
| `Selection.DedupOrdered` | cmd/skills.go:63-66 | The selection keeps the agents in the order of their first pick. |
| `Selection.DedupSpec` | cmd/skills.go:63-66 | All three together: the same agents, each once, ordered by first pick. |
| `Selection.SelectionProperties` | cmd/skills.go:42-71 | A successful selection is non-empty and free of duplicates, and every element is a listed agent. |
| `Selection.SelectParts` | cmd/skills.go:50-67 | The loop with `selected` and `seen`: it returns the error of the first bad part, or else the picks with repeats removed, in first-pick order. |
| `Selection.ParseSelection` | cmd/skills.go:37-71 | The selection step, with the outcomes above. A blank line is an error. The parts between commas are trimmed, and blank parts are skipped. A selection left empty is an error. |
| `Selection.PromptAgents` | cmd/skills.go:29-71 | `promptAgents` after the menu: it parses the line against the sorted agents `["codex", "kilo-code"]`. |
| `FileSystems.AncestorsAreDirs` | cmd/skills.go:183 | In a well-formed tree every directory above an entry exists and is a directory. |
| `FileSystems.RemoveAll` | cmd/skills.go:133 | `os.RemoveAll`: the path and everything below it are gone, and every other entry is kept unchanged. A missing path is no error. It keeps the tree well-formed. |
| `FileSystems.MkdirAll` | cmd/skills.go:136 | `os.MkdirAll`: on success the path is a directory. Existing entries are kept, and each new entry is a directory on the way to the path, with the given mode. On failure the error names an existing non-directory on the way. |
| `FileSystems.MkdirAllFails` | cmd/skills.go:136-138 | `os.MkdirAll` fails exactly when something on the way to the path, or the path itself, exists and is not a directory. |
| `FileSystems.Missing` | cmd/drift.go:300-305 | The error `os.Stat` gives for a path not in the tree names that path. It is "not a directory" exactly when the path is blocked; otherwise it is "does not exist". |
| `FileSystems.BlockedIff` | cmd/drift.go:128-134 | In a well-formed tree a path is blocked exactly when something that exists on the way to it is not a directory. |
| `FileSystems.PresentNotBlocked` | cmd/drift.go:121-124 | An entry of a well-formed tree is never blocked, so looking it up succeeds. |
| `FileSystems.BlockedFrame` | cmd/skills.go:133-136 | Whether a path is blocked depends only on the paths above it. |
| `FileSystems.MkdirAllBlocked` | cmd/skills.go:136-138 | `os.MkdirAll` of a path that does not exist fails exactly when the path is blocked. |
| `FileSystems.MakeSymlink` | cmd/skills.go:166 | `os.Symlink` succeeds exactly when the path is free and its parent is a directory. It then adds a link holding the target text unresolved. |
| `FileSystems.WriteFile` | cmd/skills.go:186-194 | Create, truncate and write. An existing regular file keeps its mode and gets the new bytes; a new file gets the given mode. A directory, a link, a special file or a missing parent is an error. |
| `Copier.WalkOrder` | cmd/skills.go:140 | The entries below the source in walk order: each entry exactly once, strictly ascending. |
| `Copier.SortedEntries` | cmd/skills.go:140 | The walk's listing, built by repeatedly taking the least unvisited entry, is exactly the walk order. Every element is an existing entry below the source. |
| `Copier.EntryVisited` | cmd/skills.go:140 | The walk reaches every entry below the source. |
| `Copier.WalkStops` | cmd/skills.go:140-173 | The walk stops at its first error: later entries are never visited. |
| `Copier.Written` | cmd/skills.go:183-194 | `copyFile`'s writing half keeps the tree well-formed and changes nothing away from the destination's line. |
| `Copier.FileCopied` | cmd/skills.go:176-196 | `copyFile` keeps the tree well-formed and changes nothing away from the destination's line. |
| `Copier.Visited` | cmd/skills.go:152-172 | The walk's callback keeps the tree well-formed and changes nothing away from the entry's copy. |
| `Copier.CopyFile` | cmd/skills.go:176-196 | The method's new tree and error are those of the `copyFile` specification. A missing source or a link cannot be opened. A directory source leaves an empty destination file and an error. File bytes are written with the given mode. |
| `Copier.VisitEntry` | cmd/skills.go:152-172 | The method's new tree and error are those of the callback's specification. A directory is recreated with its mode. A link is recreated with the same target. Anything else goes through `copyFile`. |
| `Copier.WalkEntries` | cmd/skills.go:140-173 | The method's loop leaves the tree and error of the walk over the snapshot in walk order. |
| `Copier.PrepareFails` | cmd/skills.go:133-138 | Removing and recreating the destination fails exactly when the destination is blocked. |
| `Copier.CopySkillDir` | cmd/skills.go:124-174 | The method's new tree and error are those of the specification. A missing or non-directory source is an error and changes nothing; a blocked source is reported as not a directory. A blocked destination, where `os.RemoveAll` fails, is an error and changes nothing. Otherwise the destination is removed and recreated with the source's mode, then the walk runs. |
| `CopyProperties.EmptyDestination` | cmd/skills.go:133-138 | Removing and recreating the destination leaves it an empty directory with the source's mode. Entries off its line are unchanged, and new directories appear only above it. |
| `CopyProperties.ParentCopied` | cmd/skills.go:157-172 | When an entry is visited, its parent directory already exists in the copy. |
| `CopyProperties.MirrorsExtend` | cmd/skills.go:157-172 | Adding one entry's copy extends the mirror by exactly that entry. |
| `CopyProperties.VisitSucceeds` | cmd/skills.go:157-172 | Visiting an entry whose copy is missing and whose parent copy exists succeeds and adds exactly that copy. |
| `CopyProperties.VisitStep` | cmd/skills.go:157-172 | Once every enclosing entry has been copied, visiting the next entry succeeds, adds exactly its copy, and keeps the mirror invariant. |
| `CopyProperties.EnclosingVisitedFirst` | cmd/skills.go:140 | Every directory enclosing an entry comes earlier in the walk. |
| `CopyProperties.VisitedOnce` | cmd/skills.go:140 | No entry is visited twice. |
| `CopyProperties.WalkMirrors` | cmd/skills.go:140-173 | Every prefix of the walk succeeds and leaves exactly one copy of each entry visited, outside the destination nothing changes. |
| `CopyProperties.TreeCopiedWalk` | cmd/skills.go:124-173 | Once the destination is ready, the copy is the walk over the source's entries. |
| `CopyProperties.CopyApart` | cmd/skills.go:124-173 | With source and destination apart, the copy succeeds and mirrors the source. |
| `CopyProperties.CopyOntoItself` | cmd/skills.go:124-173 | Copying a directory onto itself removes it and leaves an empty directory with its mode. |
| `CopyProperties.CopyWalk` | cmd/skills.go:124-173 | A prepared copy succeeds. It leaves the ready destination's surroundings as they were, and mirrors the source when the two paths differ. |
| `CopyProperties.CopyShape` | cmd/skills.go:124-173 | The whole tree after a successful copy. Entries off the destination's line are unchanged. Directories above it exist. The destination is a directory with the source's mode. Below it sits one copy of each source entry, stamped with the copy time. |
| `CopyProperties.CopySucceedsIff` | cmd/skills.go:124-138 | Unless the destination lies inside the source, a copy succeeds exactly when three things hold. The source is a directory. The destination is not above the source. Everything that exists on the way to the destination is a directory. |
| `CopyProperties.RebuildEmptyDir` | cmd/skills.go:133-136 | Removing and recreating an empty destination directory gives the same tree back. |
| `CopyProperties.RemoveAllAgreeing` | cmd/skills.go:133 | Removing a path from two trees that agree outside it gives the same tree. |
| `CopyProperties.CopyIdempotent` | cmd/skills.go:124-173 | Copying twice with the same arguments leaves the same tree and result as copying once, whether the first copy succeeded or failed. |
| `CopyProperties.SuccessfulCopyIdempotent` | cmd/skills.go:133-173 | The same, after a successful first copy: the destination is removed and rebuilt from an unchanged source. |
| `CopyProperties.WalkAwayFrom` | cmd/skills.go:140-173 | Whatever the outcome, the walk changes nothing away from the destination's line. |
| `CopyProperties.CopyAwayFrom` | cmd/skills.go:124-173 | Whatever the outcome, even a partial copy, nothing off the destination's line changes. |
| `CopyProperties.WalkWellFormed` | cmd/skills.go:140-173 | The walk keeps the tree well-formed. |
| `CopyProperties.CopyWellFormed` | cmd/skills.go:124-173 | A copy, successful or not, keeps the tree well-formed. |
| `Comparator.EqualBytes` | cmd/drift.go:287-297 | True exactly when the two byte sequences are equal. |
| `Comparator.FilesEqual` | cmd/drift.go:236-285 | A missing file is an error naming the first missing one. Otherwise the chunked, lock-step reads return true exactly when the two contents are equal. |
| `Comparator.CompareEntry` | cmd/drift.go:151-199 | The check for one source entry. A link matches a link with the same target text. A directory matches any directory, so its mode is not compared. A regular file matches a regular file with the same permission bits and bytes. Any other kind never matches. A missing copy does not match. |
| `Comparator.AllMatchedEach` | cmd/drift.go:139-205 | Every entry of a matched run exists and matches. |
| `Comparator.WalkCovers` | cmd/drift.go:139-205 | Matching each entry of the walk over the source covers every entry below the source. |
| `Comparator.WalkFindsNothingExtra` | cmd/drift.go:207-231 | Finding a counterpart for each entry of the walk over the destination leaves nothing extra. |
| `Comparator.SourceWalk` | cmd/drift.go:139-205 | The first walk returns true exactly when every entry below the source matches its counterpart. |
| `Comparator.TargetWalk` | cmd/drift.go:207-231 | The second walk returns true exactly when every entry below the destination has a counterpart below the source. |
| `Comparator.DirsEqual` | cmd/drift.go:120-234 | A missing or non-directory source is an error; a blocked source is reported as not a directory. A destination that does not exist, or is not a directory, is `false`, not an error. A blocked destination is an error, since only `os.IsNotExist` counts as missing. Otherwise the result is true exactly when both walks pass. |
| `Comparator.EqualTreesSamePaths` | cmd/drift.go:207-233 | Matching trees hold entries at exactly the same relative paths. |
| `Comparator.EqualTreesSymmetric` | cmd/drift.go:120-234 | Matching is symmetric. |
| `Comparator.EqualTreesReflexive` | cmd/drift.go:186-188 | A directory matches itself exactly when nothing below it is a special file. |
| `Comparator.CopyApartMatches` | cmd/skills.go:124-173 | A copy to a destination apart from the source matches the source, when the source holds no special file. |
| `Comparator.CopyFidelity` | cmd/skills.go:124-174 | After a successful `copySkillDir` of a source without special files, `dirsEqual` of source and destination is true. |
| `Comparator.CopySpecialFileNeverMatches` | cmd/drift.go:186-188 | A special file below the source is copied as a regular file, which `dirsEqual` rejects. So after every successful copy such a skill does not match. |
| `Comparator.TreesEqualFrame` | cmd/drift.go:120-234 | When the source and the destination exist, `dirsEqual` depends only on them and on what lies below them. |
| `Drift.SetMax` | cmd/drift.go:319-321 | The largest element of a finite non-empty set of times is in the set and bounds it. |
| `Drift.LatestTime` | cmd/drift.go:299-327 | `latestModTime`'s value when it succeeds. A path that does not exist gives the zero time. A file or link gives its own time. A directory gives the largest time of itself and everything below it. |
| `Drift.LatestUnique` | cmd/drift.go:299-327 | That specification defines a single value. |
| `Drift.LatestBounds` | cmd/drift.go:310-321 | A directory's latest time is no earlier than its own time or the time of anything below it. |
| `Drift.LatestModTime` | cmd/drift.go:299-327 | It fails exactly when the path is blocked, with "not a directory" for that path. Otherwise the method, with a loop over the walk, returns that latest time. |
| `Drift.WalkedLatest` | cmd/drift.go:310-326 | The largest time over the directory and its walked entries is its latest time. |
| `Drift.DriftStatus` | cmd/drift.go:336-347 | Each of the four verdicts holds exactly under its condition. Project missing: project time is zero and repository time is not. Repository newer: both times are set and the repository's is later. Project newer: project time is later. In sync: the times are equal, including both zero. |
| `Drift.ProjectTimeIsMax` | cmd/drift.go:85-98 | The project time is at least the latest time of every agent's target, and equals one of them. With no agents it is zero. |
| `Drift.DriftsStep` | cmd/drift.go:87-106 | One more agent: drift is the old drift or this target's mismatch. The project time becomes the later of the two times. |
| `Drift.TargetsFailureIff` | cmd/drift.go:85-103 | The agents' targets fail exactly when one of them fails, and then with that target's failure. One target fails when it is blocked (`latestModTime` fails) or, failing that, when the source is not a directory (`dirsEqual` fails). |
| `Drift.NoFailureCompares` | cmd/drift.go:92-102 | With no target failing, `dirsEqual` of the source and each target gives a verdict, not an error. |
| `Drift.FailureStep` | cmd/drift.go:85-103 | The agents are checked in order: the failure over the first `i + 1` targets is that of the first `i`, or else that of target `i`. |
| `Drift.FailureStops` | cmd/drift.go:92-102 | Once a target fails, no later agent changes the failure. |
| `Drift.CompareTargets` | cmd/drift.go:85-106 | The inner loop over the agents. It fails exactly with the first failing target's error: a blocked target, then a non-directory source. Otherwise it returns the project time, and whether some target mismatches. |
| `Drift.CheckSkill` | cmd/drift.go:77-115 | One skill. A source missing from the repository is an error. So is a blocked target or a non-directory source, where Go gives up. Otherwise it reports the skill exactly when it drifts, with its repository time, project time and status. |
| `Drift.ProgressStep` | cmd/drift.go:76-116 | Checking one more skill keeps the report in step: it holds each drifting checked skill, once. |
| `Drift.ProjectDriftSkills` | cmd/drift.go:64-118 | Unsupported agents are an error. Otherwise the call fails exactly when some registered skill fails (missing source, blocked target, or non-directory source), with that skill's error. Success returns one record for each drifting skill, nothing else and no skill twice; with no skills the result is empty. |
| `Drift.NothingReported` | cmd/drift.go:72-117 | When no registered skill drifts, the only possible report is the empty one. |
| `Config.SkillSource` | cmd/commands.go:146 | A skill's source, the repository joined with the skill name, is a clean path. |
| `Deploy.DisjointBelow` | cmd/commands.go:158-167 | What lies below one of two paths that are apart is apart from the other. |
| `Deploy.CopyKeepsApart` | cmd/commands.go:158-167 | A copy leaves everything below a path apart from its target unchanged. |
| `Deploy.LastJobMatches` | cmd/commands.go:158-167 | The last copy of a run matches its source, when that source is unchanged since the start. |
| `Deploy.EarlierJobSurvives` | cmd/commands.go:158-167 | A matching earlier copy still matches after a later copy to a target apart from it. |
| `Deploy.CopyJobsLast` | cmd/commands.go:158-167 | A successful run is the run without its last copy, followed by that copy. |
| `Deploy.CopyJobsKeepApart` | cmd/commands.go:158-167 | A run of copies leaves everything below a path apart from all targets unchanged. |
| `Deploy.LastCopiesMatchStep` | cmd/commands.go:249-264 | One more copy keeps every target matching the source of the last copy that wrote it. |
| `Deploy.EarlierLastWriter` | cmd/commands.go:249-264 | A copy that no later copy overwrites still matched before the last copy, and lies apart from the last target. |
| `Deploy.JobsFidelity` | cmd/commands.go:249-264 | When every copy succeeds, no copy writes into a source, and targets are equal or apart: the tree stays well-formed, every source is unchanged, and each target matches the source of its last copy. |
| `Deploy.CopyJobsAppend` | cmd/commands.go:249-264 | Running two lists of copies one after the other is running their concatenation. |
| `Deploy.CopyJobsSnoc` | cmd/commands.go:158-167 | The first `i + 1` copies are the first `i`, then copy `i` if all succeeded. |
| `Deploy.CopyJobsStops` | cmd/commands.go:163-165 | Once a copy fails, no later copy runs. |
| `Deploy.LastWriterOf` | cmd/commands.go:249-264 | Every target has a last copy that writes it. |
| `Deploy.AllJobsMatch` | cmd/commands.go:249-264 | When copies to the same target share a source, every target matches its source after the run. |
| `Deploy.BelowNoneSnoc` | cmd/commands.go:204-213 | A path is below none of the targets exactly when it is below none of the earlier targets and not below the last. |
| `Deploy.RemoveEach` | cmd/commands.go:204-213 | Removing each target in turn leaves exactly the entries below none of them, unchanged. It keeps the tree well-formed. |
| `Deploy.RemoveEachSnoc` | cmd/commands.go:204-213 | Removing the first `i + 1` targets is removing the first `i`, then target `i`. |
| `Deploy.RemovedEach` | cmd/commands.go:204-213 | `remove`'s loop, which stops at a blocked target. When no removal fails, the tree is that of removing each target in turn. |
| `Deploy.RemovedEachFailure` | cmd/commands.go:209-211 | A failed run names a target that is blocked once the earlier targets are removed, and leaves the tree those removals left. |
| `Deploy.RemovedEachSucceedsIff` | cmd/commands.go:204-213 | In a well-formed tree every removal succeeds exactly when, for each target, whatever the earlier removals leave on the way to it is a directory. |
| `Deploy.ReachableAfter` | cmd/commands.go:209 | A target is blocked after the earlier removals exactly when something they leave on the way to it is not a directory. |
| `Deploy.RemovedEachSnoc` | cmd/commands.go:204-213 | The first `i + 1` removals are the first `i`, then target `i` unless one failed: a blocked target fails, otherwise it is removed. |
| `Deploy.RemovedEachNext` | cmd/commands.go:209-212 | A target that is not blocked is removed and the run goes on. |
| `Deploy.RemovedEachBlocked` | cmd/commands.go:209-211 | A blocked target ends the run with its error and the tree as it was. |
| `Deploy.RemovedEachStops` | cmd/commands.go:209-211 | Once a removal fails, no later target is removed. |
| `Commands.SkillJobsAt` | cmd/commands.go:158-163 | The `i`-th copy for a skill goes from its source to the target resolved for agent `i`. |
| `Commands.SyncFoldSnoc` | cmd/commands.go:249-264 | Sync over `k + 1` skills is sync over `k`, then skill `k`. A skill missing from the repository stops sync with its error. Otherwise the skill is copied to every target. |
| `Commands.SyncFoldStops` | cmd/commands.go:251-261 | Once a skill fails, sync handles no later skill. |
| `Commands.SyncIsCopyJobs` | cmd/commands.go:249-264 | A successful sync makes exactly the copies of all skills' jobs, in order. |
| `Commands.IterationOrderEmpty` | cmd/commands.go:244-247 | The range over the skill map visits nothing exactly when no skill is registered. |
| `Commands.SyncJobsContain` | cmd/commands.go:249-264 | Each registered skill's copy to each agent's target is among sync's copies. |
| `Commands.SyncSourcesListed` | cmd/commands.go:249-264 | Every copy sync makes starts from a registered skill's source. |
| `Commands.AddLeavesNoDrift` | cmd/commands.go:146-171 | When every copy of add succeeds and the copies are separate, the skill matches at every agent's target. The drift report then leaves it out. |
| `Commands.SyncTargetsMatch` | cmd/commands.go:249-264 | After a successful sync with separate, consistent copies, every registered skill matches its source at every agent's target. |
| `Commands.SyncLeavesNoDrift` | cmd/commands.go:249-264 | Under the same conditions, the drift report after the sync is empty. |
| `Commands.RemoveTargets` | cmd/commands.go:204-213 | The agent loop of `remove`: the tree and error are those of removing each agent's target in agent order, stopping at the first blocked one. |
| `Commands.Project.constructor` | cmd/config.go:54-56 | A project is built only from a configuration that passed `loadProjectConfig`: a non-empty agent list. Add and sync also require the repository path that `loadGlobalConfig` checks (cmd/config.go:38-40). |
| `Commands.Project.Add` | cmd/commands.go:128-172 | Unsupported agents are an error and change nothing. So does a source missing from the repository. Otherwise the skill is copied to every agent's target in agent order, stopping at the first failure. The configuration registers the skill only when all copies succeeded. An existing skill keeps its overrides; a new one gets none. |
| `Commands.Project.CopyToTargets` | cmd/commands.go:158-167 | The agent loop: the tree and error are those of the skill's copies in agent order, stopping at the first failure. |
| `Commands.Project.Remove` | cmd/commands.go:182-219 | Unsupported agents are an error and change nothing. So does an unregistered skill. Otherwise the agents' targets are removed in agent order. A blocked target, where `os.RemoveAll` fails, ends the command with its error and the configuration unchanged. When every target is removed, exactly that skill's key is deleted from the configuration. The repository is never needed. |
| `Commands.Project.Sync` | cmd/commands.go:228-266 | Unsupported agents are an error and change nothing. Otherwise the tree and error are those of the fold over the skills in the map's iteration order. With no registered skill nothing changes. |

## Left out

- The core's I/O through the operating system is the `FileSystems` module. Other I/O failures are not modelled. `os.Stat` and `os.RemoveAll` fail only on a missing or blocked path, as above. `d.Info()` and `os.Readlink` never fail, and reads never fail part way. Short reads are modelled as full chunks.
- `FileSystems.MakeSymlink` and `FileSystems.WriteFile` report "does not exist" for a missing parent even when something higher up is not a directory, where Go reports ENOTDIR. Only the kind of error differs.
- Symbolic links are never followed: `os.Stat` and `os.Lstat` see the same entry, and a link at the root of a walk is not resolved.
- The umask is not modelled. A created entry gets exactly the mode passed to the call.
- A directory's modification time does not change when entries are added to it. A whole command runs at a single time `now`.
- Copying a source into a destination inside it is not modelled. `CopyProperties.CopySucceedsIff`, `CopyProperties.CopyIdempotent`, `Comparator.CopyFidelity` and the lemmas built on them require that the destination does not lie inside the source. In Go that walk would see its own writes.
- Paths are absolute component sequences. A relative repository path is taken as if it were absolute. `filepath.Rel` is implicit in the use of relative component paths.
- Error messages are not modelled. Each error keeps its kind and the path, agent or text it names. The `fmt.Errorf` wrapping is dropped.
- `Selection.ScanDecimal` does not skip leading white space as `fmt.Sscanf` does. Its only caller trims the part first. It also reads only a sign followed by decimal digits.
- `Comparator.FilesEqual` is modelled only on entries that hold bytes, that is regular and special files. `dirsEqual` never calls it on anything else.
- `Copier.CopyFile` treats a special file as a byte stream. A device that blocks or never ends is out of scope.
- Go's map iteration order is nondeterministic. `Commands.Project.Sync` takes the order as a parameter, constrained to visit each registered skill once. `Drift.ProjectDriftSkills` picks skills in an unspecified order. Which skills were processed before an error, and the order of the report, are not stated.
- `Drift.CompareTargets` requires every agent to be in the table. `projectDriftSkills` checks this with `ensureSupportedAgents` before the loop, so the resolve error at cmd/drift.go:88-91 cannot occur and is not modelled.
- `Deploy.JobsFidelity`, `Commands.AddLeavesNoDrift`, `Commands.SyncTargetsMatch` and `Commands.SyncLeavesNoDrift` hold only under two hypotheses. No copy may write into a source, and two targets must be equal or lie apart. The sync lemmas also need copies to the same target to come from the same source. An override can break these hypotheses, and then the last copy wins.
- `sort.Strings` is modelled as an insertion sort. Only its result, sorted and a permutation, is claimed.
- The loading of `.skills.yaml` and `.gym.yaml` (YAML through gopkg.in/yaml.v3, file reads) is left out. Only their checks are kept. The `Project` class invariant says the agent list is not empty. `Commands.Project.Add` and `Commands.Project.Sync` also require a non-empty repository path. `remove` never loads the global configuration, and its `if err != nil` at cmd/commands.go:189-191 tests an error already handled.
- `writeProjectConfig` is left out: the `config` field stands for the configuration as written. `os.Getwd` and `os.UserHomeDir` are left out: the project root and repository are fields.
- The printing of the menu, prompts and progress lines is left out.
- `promptSkillRepository`, `initCmd`, `listCmd`, `driftCmd`, its sort of the report by skill name, and `formatModTime` are left out. They are user-interface code or depend on code not included here.
- No concurrency, and no rollback. A failed copy leaves a partial destination. `CopyProperties.CopyAwayFrom` bounds what it can touch.
