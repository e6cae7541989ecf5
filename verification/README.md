# Verification of ubiqo's artifact plane

Ubiqo keeps the shared artifacts of a project in one bare git repository per project and projects proposals and
releases into Postgres. Calls change git first and the tables second, database errors on the way are often ignored,
and locks cover single git calls rather than service calls. This project models that machinery in Dafny and proves
what holds over every run of it: what interleaved and cut-off calls keep, what they can lose, and exactly when.

A repository is a growing history of commits (a commit names its parents and its tree of files), a map of branch heads
and a map of tags. How git merges the lines of one file, and what it appends to the name of a file that is in the way
of a directory, are arbitrary functions, so every theorem holds for any of them. Text is `seq<char>` with one
character a byte.

## The three grains

| grain | modules | what one step is |
|---|---|---|
| fine | `RepoLock` | mutex lookup, lock, clone, second clone from main after a clone that failed for any reason, local commit or merge, push, unlock; any thread, any order, any failure, restart at any point |
| git-atomic | `Service`, `Invariants`, `Interleaving`, `Limits`, `Strays` | one gitstore call or one table statement; calls interleave freely and may die between any two steps |
| serial, with crashes | `SerialRuns`, `Fsck`, `Core` | as above, but the steps of two calls on a project do not mix |

`RepoLock.Linearizable` joins the first two: whatever the threads do, the repositories are those of the completed
calls run one after another, which are the git steps of the second grain, and `RepoLock.EveryRepositoryIsSound`
carries the invariant of the second grain over. A write is one of two such steps: on the head of its branch, or, when
the clone of the branch failed, on the head of main. Git then refuses the push exactly when main lacks what the branch
has (`RepoLock.PushRefusedExactly`), which is why no commit drops out of a branch (`RepoLock.NothingDrops`).
`GitStores`, `Stores` and `Core` are the calls as they are written, with mutable state and loops, each proved to end
in the state its steps lead to, also when the process dies part-way. `Core.MergeProposal` and `Core.ReleaseArtifact`
take the point of death as a parameter.

## Which grain a property needs

- Any interleaving: one merge base per proposal, merges confined to one artifact, main never losing a path,
  immutable tags, one release per version, rows that have tags and belong to the call that made them, main and tags
  moved by maintainers only.
- Serial runs only: no work lost, releases going up, merged rows staying merged. For each of these `Limits` has a run
  from the empty project that breaks it when calls interleave, and a theorem that says exactly which runs keep it:
  `WorkIsKeptExactly`, `ReleasesGoUpExactly`, `MergedStaysThroughout`.
- Serial runs without gaps: the youngest release row being the highest release. `RowsCanCross` breaks it by
  interleaving, `RepairCanHideTheLatest` by a crash and a repair; `NewestRowIsLatestExactly` and
  `NewestIsLatestAfterFsckExactly` say when it holds in serial runs, before and after the first fsck.

Three properties fail at every grain for some input.

- Merging a proposal changes only the artifact of its row. `ProposeMerge` checks neither the artifact name nor that the
  branch is there, and in `origin/u/x/NAME` without such a branch git may read any commit: the one before the tip of
  `u/x/doc` in `doc~1`, that tip itself in `doc^{}`, or, in the slug `foo-g1a2b3c4`, the commit with that abbreviated
  hash. Which commit it reads, or none, is a parameter of the merge, and no theorem restricts it. `ConfinedExactly`: the
  merge stays inside the row's artifact if and only if the row's branch exists when it is merged. Whatever is read, the
  merge changes one artifact only and has one merge base (`NeverCrissCross`).
- After fsck the release rows of an artifact on main are its releases. `ReleaseArtifact` takes any name and
  `git tag -l artifacts/doc/*` also lists the tags of `doc/sub`, so `doc` gets a row for `sub/v0.0.1` (`FsckCanMix`).
  `RowsAreReleasesExactly`: it holds if and only if no released name goes on after `doc/`.
- A written file reads back. The path `.` passes the check and joins to the artifact's own directory, so the write makes
  a file of that name; the read asks git for `shared/doc/.`, which git never finds. `WrittenMergedTaggedReads`: every
  accepted path other than `.` reads back, and `.` does not.

## Where the code and its documentation differ

- `docs/adr/0004-git-source-of-truth.md` calls proposal and release rows rebuildable projections. `cmdFsck` rebuilds
  release rows only, only for artifacts present on main, and stamps them with the time of the repair, so that
  `LatestReleases`, which goes by age, may then report a lower release (`RepairCanHideTheLatest`). The model follows the
  code.
- The comment on `Frame` says the closing tag is neutralised inside the payload. The quoted source is not covered: the
  envelope closes exactly once if and only if the source text does not hold the tag (`ClosesOnceExactly`).
- The comment on `Compile` says callers cannot affect the hash by ordering. That holds exactly for lists in which
  the sort key determines the entry, as unique usernames and directory names do (`OneSortingExactly`).
- `String` and `Parse` are inverse, and `Bump` goes up, only inside the range of Go's `int`: text beyond it saturates and
  the last version wraps. `ParseString`, `BumpIncreases` and `NextOverflows` give the exact ranges.

## Files

`semver.dfy`, `paths.dfy`, `file_tree.dfy`, `dag.dfy`, `repo.dfy`, `sorts.dfy`, `authz.dfy` and `tables.dfy` hold the
values; `gitstore.dfy`, `store.dfy` and `core.dfy` the stateful code; `repo_lock.dfy`, `service.dfy`, `invariants.dfy`,
`interleaving.dfy`, `serial.dfy`, `limits.dfy` and `strays.dfy` the machines and their theorems; `fsck.dfy`, `frame.dfy`,
`compile.dfy` and `migrate.dfy` the reconciler, the envelope, the context bundle and the migration runner.
`dafny verify dfyconfig.toml` checks everything.

## Model

| member | source | states |
|---|---|---|
| Semver.ParseAcceptsMatches | internal/semver/semver.go:11-26 | every text of the form v, digits, dot, digits, dot, digits parses to the three numbers, each cut off at the int maximum |
| Semver.ParseOnlyMatches | internal/semver/semver.go:11-26 | whatever parses has that form, with no character before or after |
| Semver.ParseString | internal/semver/semver.go:11-26 | parsing the text of a version gives it back if and only if no component is negative |
| Semver.PlaceValue | internal/semver/semver.go:11-26 | a group counts in decimal, its first digit in units of the power of ten that its place calls for |
| Semver.NoLeadingZero | internal/semver/semver.go:15 | numbers are written without leading zeros |
| Semver.CompareLoop | internal/semver/semver.go:29-39 | the early-return loop computes the sign of the first difference, wrap-around of the subtraction included |
| Semver.CompareIsPrecedence | internal/semver/semver.go:29-39 | for versions whose deciding difference fits an int, the result is negative, zero or positive exactly when the first precedes, equals or follows the second |
| Semver.LessIsStrictTotalOrder | internal/semver/semver.go:28-39 | precedence is irreflexive, transitive and total, with equality only for equal versions (item 11 of Semantic Versioning 2.0.0) |
| Semver.BumpIncreases | internal/semver/semver.go:42-52 | a bump leads strictly upwards, and to a version without negative components, if and only if the bumped component is below the int maximum |
| Semver.BumpFollows | internal/semver/semver.go:42-52 | the texts major, minor and patch, and no other, add one to the component they name, past the int maximum with wrap-around, and zero the lower ones |
| Semver.BumpIsLeast | internal/semver/semver.go:42-52 | a bump gives the least version above the current one whose lower components are zero (items 6 to 8 of Semantic Versioning 2.0.0) |
| Semver.LatestLoop | internal/semver/semver.go:57-70 | the loop over the list returns the function Latest of it, and its flag says whether anything parsed |
| Semver.LatestIsMaximum | internal/semver/semver.go:57-70 | the result is a parsable entry that no parsable entry exceeds, and there is none exactly when nothing parses |
| Semver.LatestDependsOnParsedSet | internal/semver/semver.go:57-70 | order, duplicates and unparsable entries of the list make no difference |
| Semver.NextIsFresh | internal/core/core.go:486-497 | with room below the int maximum, the next version is above every parsable entry of the list, its text is in none of them and it parses back |
| Semver.NextOverflows | internal/core/core.go:486-497 | without that room the next version is below the newest entry |
| Paths.ProposalBranchInjective | internal/gitstore/gitstore.go:178-180 | a branch name determines its user and its artifact for user names without a slash, and is never main |
| Paths.TagNameInjective | internal/gitstore/gitstore.go:400 | a tag name determines its artifact and its version for versions without a slash, although artifacts may hold slashes |
| Paths.CleanFixes | internal/gitstore/gitstore.go:165-168 | filepath.Clean leaves a relative path without ".." unchanged exactly when it is "." or has no empty and no "." component |
| Paths.ValidRelPathExactly | internal/gitstore/gitstore.go:158-175 | a path is accepted exactly when it has 1 to 300 bytes, no backslash, NUL, CR or LF, and is "." or has only components that are none of empty, ".", "..", ".git" |
| Paths.FullPathStaysUnder | internal/gitstore/gitstore.go:214-216 | joining an accepted path to shared/artifact and cleaning gives exactly the entry or an entry below it |
| Paths.RefusedPathsClimb | internal/gitstore/gitstore.go:165-216 | without the check a path such as ../x would be joined to shared/x, outside the artifact |
| FileTree.PlaceAllConfined | internal/gitstore/gitstore.go:190-230 | writing files whose names pass the checks keeps every path, changes nothing outside shared/artifact and never makes a name both file and directory |
| FileTree.PlaceAllWrites | internal/gitstore/gitstore.go:215-228 | afterwards each file has the content of the last entry of the call that names it |
| FileTree.PlaceAllSucceedsExactly | internal/gitstore/gitstore.go:214-228 | writing succeeds if and only if no file of the call is in the way of another or of what is there, nor that in its way, and leaves exactly the old paths and those of the call |
| FileTree.MergeKeepsOurs | internal/gitstore/gitstore.go:287 | where their side equals the base outside an artifact, a three-way merge leaves our side as it is there |
| FileTree.MergeKeepsPaths | internal/gitstore/gitstore.go:287-295 | a merge without conflicts of two trees that kept the base's paths has every path of both and stays a proper tree |
| FileTree.ThreeWayMerge | internal/gitstore/gitstore.go:287-295 | a merge reports exactly the files that both sides changed differently and git cannot merge, and the files where the other side has a directory; without any, each path has the content of the side that alone changed it, or what git made of both |
| FileTree.ConflictsConfined | internal/gitstore/gitstore.go:287-293 | the paths reported as conflicts lie in the artifact their side changed; a file in the way of a directory is reported under its name with the suffix git gives it, which for an artifact that is itself that file is the artifact's name and the suffix |
| FileTree.UncontendedMerge | internal/gitstore/gitstore.go:287-295 | when only their side changed an artifact, and changed nothing else, the merge has no conflict and ends with their files inside it and ours outside |
| Dag.ChainHasOneMergeBase | internal/gitstore/gitstore.go:287 | a chain of single-parent commits rooted in main's history has exactly one best common ancestor with main, its root |
| Dag.AncestorsHaveFewerPaths | internal/gitstore/gitstore.go:214-230 | when no commit drops a path of a parent, no ancestor has a path its descendant lacks |
| Dag.AncestorsOnChain | internal/gitstore/gitstore.go:287 | a commit in the history of a chain lies on the chain, confined to the same artifact, or in main's history |
| Repos.WriteKeepsSound | internal/gitstore/gitstore.go:207-247 | a write to main or to a branch of its artifact, from a clone of the branch or from one of main after the first failed, keeps every commit of the history, lost ones included, on a chain confined to one artifact, branches disjoint outside main and tags in main's history, and only extends the repository |
| Repos.CheckedExactly | internal/gitstore/gitstore.go:158-203 | the checks in front of a write accept exactly a slug of 1 to 40 characters with 1 to 200 files of at most 1 MiB, each at a relative path of ordinary components or at "." |
| Repos.WriteMeans | internal/gitstore/gitstore.go:139-247 | a write goes through if and only if its call passes the checks, no file is in the way of another or of what is there, and after a failed clone main has the branch; it then adds one commit on the head of the branch, or of main for want of one, that differs by the files of the call, each at its cleaned path inside the artifact with the last content given for it, and moves that branch only |
| Repos.FirstWriteGoesThrough | internal/gitstore/gitstore.go:190-247 | on an empty project every call that passes the checks goes through unless one of its files is in the way of another |
| Repos.WriteDropsNothing | internal/gitstore/gitstore.go:243-246 | such a write moves its branch forward or not at all and no other ref, so no commit drops out of the history of any branch |
| Repos.FallbackAcceptedExactly | internal/gitstore/gitstore.go:139-152 | a write from a clone of main, made because cloning the branch failed, goes through if and only if there is no such branch or main's history has its tip |
| Repos.FallbackIsPlainExactly | internal/gitstore/gitstore.go:139-152 | where it goes through it does what the write on the branch would have done if and only if there is no such branch or it is at main's head |
| Repos.MergeKeepsSound | internal/gitstore/gitstore.go:271-305 | so does a merge of any commit, under whatever name and whatever its outcome |
| Repos.MergeIsThreeWay | internal/gitstore/gitstore.go:271-305 | merging a commit main lacks either reports exactly the paths in conflict and changes nothing, or adds to main one commit with both parents in which every path has the content of the side that alone changed it, or what git made of both; merging a commit main has changes nothing |
| Repos.DeleteKeepsSound | internal/gitstore/gitstore.go:308-318 | so does the deletion of a branch |
| Repos.TagKeepsSound | internal/gitstore/gitstore.go:392-408 | so does a tag |
| Repos.OneMergeBase | internal/gitstore/gitstore.go:287 | in a sound repository any commit that git may read in a name has one best common ancestor with main, the one the merge uses |
| Repos.MergeStaysInOneArtifact | internal/gitstore/gitstore.go:271-305 | whatever commit git reads in a name, merging it changes main only inside one artifact with a slug for its name, or reports conflicts for that artifact only |
| Repos.AncestorMergesInside | internal/gitstore/gitstore.go:287 | that artifact is the one of any branch that has the commit in its history |
| Repos.MergeConfined | internal/gitstore/gitstore.go:271-305 | a proposal whose branch exists is merged inside its own artifact, or reports conflicts for that artifact only, whatever else git could read in its name; conflicts are never empty and change nothing |
| Repos.UncontendedProposalLands | internal/gitstore/gitstore.go:271-305 | a branch whose artifact did not change on main since it was cut always merges, and main then has the artifact exactly as the branch has it |
| Repos.MainPathsGrow | internal/gitstore/gitstore.go:374-389 | a repository that extends another has all its paths on main and lists all its artifacts |
| Repos.TagReadsForever | internal/gitstore/gitstore.go:321-371 | a read at a tag gives the same answer in every extension, and the tagged commit stays in main's history |
| Repos.WrittenMergedTaggedReads | internal/gitstore/gitstore.go:185-337 | files written to a new branch, merged, and tagged read back from main and from the tag with the contents written, all but a file at the path ".", which never reads back |
| Authz.ProjectCtx | internal/core/core.go:55-71 | an unknown slug is reported as such; for a known one the role is that of the actor's own row, or maintainer for org admins and owners without one, or none |
| Authz.WhoAmI | internal/core/core.go:99-121 | lists exactly the projects on which that rule gives the actor a role, each with that role, and nothing else |
| Authz.GateExactly | internal/authz/authz.go:42-99 | the rule gives one role; writing and proposing is open to contributors and maintainers by the rule, merging and releasing to maintainers only |
| Tables.LatestReleases | internal/store/store.go:535-553 | the map built in the loop holds, for every artifact with a row, the row the query puts first |
| Tables.NewestRowIsNewest | internal/store/store.go:537-539 | that row is of the artifact and no row of it is younger; it is absent only when the artifact has none |
| GitStores.GitStore.RepoLock | internal/gitstore/gitstore.go:49-58 | returns the one mutex of the path, making it on first use; no mutex is ever replaced or shared between paths |
| GitStores.GitStore.CheckFiles | internal/gitstore/gitstore.go:190-203 | the loop accepts exactly a slug with 1 to 200 files of at most 1 MiB, each at a relative path of ordinary components or at "." |
| GitStores.GitStore.WriteInto | internal/gitstore/gitstore.go:214-228 | the loop leaves the tree with all files placed in order, or fails at the first that cannot be placed |
| GitStores.GitStore.WriteFiles | internal/gitstore/gitstore.go:185-247 | the repository at the path, and no other, becomes what one atomic write makes of it, also when the clone of the branch fails and main is cloned instead; a sha comes back only for a call that passes the checks, is the new head of the branch, and its tree is the old one with the files of the call; without a sha nothing changes |
| GitStores.GitStore.Merge | internal/gitstore/gitstore.go:271-305 | likewise for a merge, whose outcome MergeIsThreeWay describes path by path: missing branch, up to date, conflicts and a merge commit |
| GitStores.GitStore.DeleteBranch | internal/gitstore/gitstore.go:308-318 | the branch is gone and nothing else changed, or it was not there |
| GitStores.GitStore.Tag | internal/gitstore/gitstore.go:392-408 | a free and legal tag name denotes main's head afterwards; a taken one is refused and nothing changes |
| GitStores.GitStore.Versions | internal/gitstore/gitstore.go:411-425 | lists the version text of every tag of the artifact once, and nothing else |
| GitStores.GitStore.Branches | internal/gitstore/gitstore.go:448-458 | lists the branches below u/, each once, and nothing else |
| GitStores.GitStore.ListArtifacts | internal/gitstore/gitstore.go:374-389 | lists the names below shared/ on main, each once, sorted |
| Stores.Store.CreateProposal | internal/store/store.go:476-483 | adds one open row under a fresh key |
| Stores.Store.OpenProposals | internal/store/store.go:498-516 | lists exactly the rows with status open, each once, the oldest first |
| Stores.Store.ResolveProposal | internal/store/store.go:518-526 | sets status and conflicts of the row, whatever they were |
| Stores.Store.CreateRelease | internal/store/store.go:528-533 | adds the youngest row, or fails on the unique constraint and changes nothing |
| Stores.Store.EnsureRelease | internal/store/store.go:584-594 | inserts only what is missing and says whether it did |
| Service.LatestIsCurrent | internal/core/core.go:486-493 | whatever list of the artifact's tags a release reads, it starts from the highest version that a tag of the artifact parses to, or from 0.0.0 |
| Service.ReleaseOpens | internal/core/core.go:478-497 | a release call gets past its checks exactly for maintainers by the rule and one of the three texts, and goes for the version that follows the current one in that component |
| Core.MergeCallMeans | internal/core/core.go:429-468 | a merge call on its own, for every outcome of git, every point of death and a failing bookkeeping statement |
| Core.ReleaseEndsAs | internal/core/core.go:478-508 | a release call ends in the same repository and rows whatever order git listed the tags in |
| Core.SlugReleasesGoThrough | internal/core/core.go:486-500 | for a slug, as long as the component to bump has room, the computed release has a free and legal tag name |
| Core.Core.WriteArtifact | internal/core/core.go:323-346 | refused exactly to those who are neither contributor nor maintainer by the rule; goes to main on a solo project and to u/username/artifact elsewhere, leaving main alone; moves no other ref, names that branch and its new head, and every file but one called "." reads back; leads where the write step leads |
| Core.Core.ProposeMerge | internal/core/core.go:357-379 | refused by the same rule and in solo mode, adding no row; else one open row with the artifact, the caller's own branch and name, which is the branch returned |
| Core.Core.MergeProposal | internal/core/core.go:429-468 | answer, repository and rows for each case in the order of the checks: refused to all but maintainers by the rule, unknown, already merged, failed in git, conflicts booked with their paths, merged with main's head returned, the row booked and the branch gone; wherever the call is cut off and whether or not the bookkeeping fails |
| Core.Core.ReleaseArtifact | internal/core/core.go:478-508 | likewise: refused to all but maintainers by the rule, a text other than major, minor and patch refused, and else the version that follows the artifact's highest tag in that component, tagged on main and recorded, or refused because its tag is taken or illegal, or left without a row |
| RepoLock.PushIsAtomic | internal/gitstore/gitstore.go:243-246 | a push from a clone equal to the remote lands exactly the atomic call with its outcome, or is refused, and then the atomic call has no effect and no sha either |
| RepoLock.MoveInside | internal/gitstore/gitstore.go:205-211 | a thread inside its call may change its own repository without invalidating any other thread's clone |
| RepoLock.StepRefines | internal/gitstore/gitstore.go:139-318 | each fine step, failures, fall-throughs to main and restarts included, keeps the invariant and is for the repositories one atomic call of that thread or nothing |
| RepoLock.OneInside | internal/gitstore/gitstore.go:49-58 | in every reachable state at most one thread is between Lock and Unlock of a repository |
| RepoLock.PushRefusedExactly | internal/gitstore/gitstore.go:139-246 | in every reachable state a thread about to push holds a current clone, and git refuses its push if and only if cloning its branch had failed although the branch is there and main's history lacks its tip; an accepted push lands the atomic call |
| RepoLock.NothingDrops | internal/gitstore/gitstore.go:243-318 | from any reachable state no step of any thread takes a commit out of the history of a branch, except a deletion of that branch |
| RepoLock.Linearizable | internal/gitstore/gitstore.go:139-408 | in every reachable state the repositories and all outcomes are those of the calls run one after another in the order they took effect, where a write whose clone of the branch failed is the one cut from main |
| RepoLock.ResultsAreExplained | internal/gitstore/gitstore.go:139-408 | a result handed to a caller is the one its call has in that order |
| RepoLock.EveryRepositoryIsSound | internal/gitstore/gitstore.go:139-408 | when writes go to main or to a branch of their artifact, in every reachable state of the threads, after any failure, every repository is sound and extends what it was at the start |
| Invariants.StepKeeps | internal/core/core.go:323-508 | every step of every call, and of fsck, keeps the invariant that ties history, branches, tags, rows and calls in progress together |
| Invariants.RunKeeps | internal/core/core.go:323-508 | so the invariant holds in every state of every run |
| Invariants.NextOfRun | internal/core/core.go:486-501 | in a run shorter than 2^63 steps a release computed from any listing is above all releases of the artifact and has a free tag name |
| Invariants.RecorderHasTag | internal/core/core.go:497-504 | a call about to insert its row owns the tag, and any row already there was rebuilt by fsck |
| Interleaving.RunExtends | internal/gitstore/gitstore.go:271-301 | along any run commits stay, main only moves to descendants and no tag moves |
| Interleaving.NeverCrissCross | internal/gitstore/gitstore.go:127-154 | in every reachable state any commit git may read in a name has one best common ancestor with main, and merging it stays inside one artifact |
| Interleaving.MergesAreThreeWay | internal/gitstore/gitstore.go:271-305 | so in every reachable state a merge reports exactly the paths in conflict, or gives each path on main the content of the side that alone changed it or what git made of both |
| Interleaving.ProposalsStayInside | internal/core/core.go:445-449 | in every reachable state merging a proposal whose branch exists stays inside the artifact of the row |
| Interleaving.UncontendedProposalsLand | internal/gitstore/gitstore.go:271-305 | in every reachable state an uncontended proposal merges and its artifact lands on main as the branch has it |
| Interleaving.MainNeverShrinks | cmd/ubiqo/ops.go:168-173 | paths and artifact names on main only grow along any run |
| Interleaving.ReleasesAreImmutable | internal/gitstore/gitstore.go:321-371 | a release tag denotes one commit forever, in main's history, and every file reads the same at it in all later states (item 3 of Semantic Versioning 2.0.0) |
| Interleaving.MergedMeansMerged | internal/core/core.go:445-461 | a row resolved as merged stands for a commit that git read in its name when an earlier step merged it into main, and which is in main's history in all later states |
| Interleaving.ConflictChangesNothing | internal/core/core.go:449-459 | a conflicting merge names at least one path, all for one artifact, that of the row when its branch exists, with git's suffix on a file in the way of a directory, and moves no ref |
| Interleaving.WorkIsKeptExactly | internal/core/core.go:335-463 | every commit that a write of the run returned stays reachable from main or from its branch in all later states if and only if no branch deletion of the run meets a branch written after its tip was last merged |
| Interleaving.LogIsReturns | internal/core/core.go:335-339 | the log of writes that the invariants speak of holds exactly what the permitted writes of the run returned, with the branch the mode calls for |
| Interleaving.MainMovesByMaintainers | internal/core/core.go:429-449 | on a team project every move of main is the merge of a call opened once, under a free number, by an actor whose own row then said maintainer, or who had none and was admin or owner of the org, on the very row merged now, and unchanged ever since |
| Interleaving.TagsComeFromMaintainers | internal/core/core.go:478-500 | the tags only ever change by one new tag on main's head, made by a call that such an actor opened and whose version followed the artifact's highest one then in the component asked for |
| Interleaving.BranchesMoveByTheirOwners | internal/core/core.go:328-335 | a proposal branch is created or moved only by a write of its own user, contributor or maintainer by the rule, to its own artifact |
| Interleaving.OthersChangeNothing | internal/core/core.go:323-482 | writes and proposals by anyone else, and merges and releases by anyone but maintainers by the rule, change nothing at all |
| Interleaving.SoloStaysOnMain | internal/core/core.go:331-335 | on a solo project main is the only branch in every state of every run, there are no proposals, and every commit a write returned is in main's history |
| Interleaving.OneReleasePerVersion | internal/store/migrations/0001_init.sql:121-132 | however releases interleave, each version is tagged once, each row is unique and has its tag, and the unique constraint is hit exactly when fsck inserted that row first |
| Interleaving.LoserWritesNoRow | internal/core/core.go:497-500 | after a call found its tag taken, no call of its number exists and none can record until someone opens one under that number again; git and the tables are as before |
| Interleaving.RowsBelongToWinners | internal/core/core.go:497-504 | in every reachable state each row that fsck did not rebuild was inserted by the very call that had created its tag while the name was free |
| Interleaving.UniqueNeverHitWithoutFsck | internal/core/core.go:501-504 | as long as fsck did not run the unique constraint is never hit |
| SerialRuns.NoWorkIsLost | internal/core/core.go:335-463 | in a serial run with crashes every commit a write returned stays reachable from main or from its branch |
| SerialRuns.ReleasesGoUp | internal/core/core.go:486-501 | in such a run the tags of an artifact strictly increase in creation order, and a new release goes above them under a free name |
| SerialRuns.MergedIsFinal | internal/store/store.go:518-526 | in such a run a merged row stays merged although the update has no guard |
| SerialRuns.NewestRowIsLatestExactly | internal/store/store.go:535-553 | in a serial run with crashes and failed inserts that fsck has not touched, the youngest row of an artifact is its highest tagged release if and only if that release has a row, and there is none without a release |
| SerialRuns.NewestRowIsLatest | internal/store/store.go:535-553 | so when no release is cut between tag and row it always is |
| SerialRuns.CutLeavesAlreadyMerged | internal/core/core.go:449-461 | a merge call cut before its bookkeeping leaves an unresolved row in whose name git still reads the same commit, which main has |
| SerialRuns.RetryConverges | internal/core/core.go:445-467 | in any reachable state a merge call on an unresolved row whose commit main has adds no commit, moves no other ref, resolves the row and removes the branch |
| SerialRuns.NoRetryOnceResolved | internal/core/core.go:445-447 | once the row says merged, a merge call on it changes nothing in any later state of a serial run, so a branch left by a crash before its deletion stays |
| Limits.ReleasesCanGoDown | internal/core/core.go:486-497 | a run from the empty project in which two releases are tagged in descending order |
| Limits.ReleasesGoUpExactly | internal/core/core.go:486-500 | the releases of every artifact go up throughout a run if and only if no call tags after it was overtaken, that is after another call tagged the same artifact at a version not below since this one read the list |
| Limits.RowsCanCross | internal/core/core.go:497-504 | a run in which tags are made in ascending order and their rows land in the opposite one, so that the youngest row is the lower release |
| Limits.RepairCanHideTheLatest | cmd/ubiqo/ops.go:178-188 | a serial run with a release cut between tag and row, a higher one that completes, and fsck, after which the youngest row is the lower release |
| Limits.FsckCanBeFaster | internal/core/core.go:497-502 | a run in which fsck inserts the row between tag and row, so that the release call hits the unique constraint |
| Limits.WorkCanBeLost | internal/core/core.go:449-463 | a run from the empty project in which a write between merge and deletion of its branch is lost |
| Limits.MergedRowCanReopen | internal/store/store.go:518-526 | for two writers and contents that clash, a run that reaches a merged row and whose next step makes it conflicted again |
| Limits.MergedStaysExactly | internal/store/store.go:518-526 | a merged row stays merged through a step if and only if the step is not the bookkeeping of a conflicting merge of that row |
| Limits.MergedStaysThroughout | internal/core/core.go:445-461 | merged rows stay merged throughout a run if and only if no call is overruled: no call books conflicts for a row that another call booked as merged between this one's read of the row and its bookkeeping |
| Strays.ConfinedExactly | internal/core/core.go:368-449 | for any artifact name, merging the proposal stays inside the row's own artifact, in every history and whatever commit git may read in the name, if and only if the row's branch exists when it is merged |
| Strays.RowsCanStray | internal/core/core.go:368-449 | for every artifact name a serial run from the empty project with a row that has no branch, in whose name git reads the tip of another artifact's branch, and whose merge changes main outside the row's artifact |
| Strays.DocTildeOneStrays | internal/core/core.go:368-369 | such a run for the name doc~1, with two writes to doc, where the commit read is the parent of the tip |
| Strays.SlugStrays | internal/core/core.go:368-369 | such a run for the slug foo-g1a2b3c4, which has the form of an abbreviated hash |
| Fsck.RepairArtifact | cmd/ubiqo/ops.go:178-188 | the loop over versions inserts the missing rows in order and counts them, up to the first insert that fails, and succeeds exactly when none does |
| Fsck.RepairProject | cmd/ubiqo/ops.go:173-188 | the loop over artifacts adds exactly the rows the readable tags call for, keeps all others in place and counts the new ones; when cut short it added some of them and did nothing else |
| Fsck.ReportOrphans | cmd/ubiqo/ops.go:189-206 | reports exactly the open proposals without a proposal branch, each once |
| Fsck.FsckProject | cmd/ubiqo/ops.go:168-206 | one project: rows, counts and orphans, with the git failures that are skipped and the database failures that end the run |
| Fsck.CmdFsck | cmd/ubiqo/ops.go:155-212 | all projects of all orgs are reconciled, nothing else changes, and both totals are the sums over the projects as they were before; a failed statement, be it the read of the orgs, of the projects of an org or of the open rows, or an insert, ends the run with some wanted rows added and nothing else done |
| Fsck.RepeatCompletes | cmd/ubiqo/ops.go:179-186 | after a run that ended early the next complete one leaves what a single complete one would have |
| Fsck.SecondRunRepairsNothing | cmd/ubiqo/ops.go:179-186 | a second run on the same tags inserts nothing and leaves the tables as they are |
| Fsck.RowsEqualTags | cmd/ubiqo/ops.go:168-206 | after any run of the service one fsck makes the release rows of every artifact on main equal to the tags under its prefix, keeps all rows, and its orphans are the open rows whose branch is absent |
| Fsck.RowsAreReleasesExactly | cmd/ubiqo/ops.go:173-188 | the rows of an artifact on main are then exactly the releases of that artifact if and only if no released artifact name starts with it and a slash |
| Fsck.FsckCanMix | cmd/ubiqo/ops.go:173-188 | a serial run from the empty project that puts an artifact on main, never releases it and releases a nested name, after which fsck gives the artifact a row |
| Fsck.NewestAfterRepair | internal/store/store.go:584-594 | after a repair the youngest row of the artifact is the last missing version of the list, or the old one when none was missing |
| Fsck.NewestIsLatestAfterFsckExactly | internal/store/store.go:535-553 | after a serial run with crashes and one fsck the youngest row of an artifact is its highest release if and only if no row was missing or the missing version listed last is the highest one |
| Frames.FrameReads | internal/compiler/compiler.go:157-160 | the envelope is the opening with the quoted source, the notice, the content cut at every closing tag with the neutral form in between, and the closing tag |
| Frames.QuoteReadsBack | internal/compiler/compiler.go:159 | by the rules for Go string literals the quoted source reads back as the source, bytes as bytes and unprintable runes by their code, and no quote inside ends it early |
| Frames.NoTagLeft | internal/compiler/compiler.go:158 | replacement from the left leaves no closing tag, not even one formed at a seam |
| Frames.UnchangedExactly | internal/compiler/compiler.go:158 | content goes through unchanged if and only if it holds no closing tag |
| Frames.QuoteKeepsTags | internal/compiler/compiler.go:159 | quoting the source neither makes nor breaks a closing tag, for any bytes |
| Frames.ClosesOnceExactly | internal/compiler/compiler.go:157-160 | for every content the envelope holds the closing tag once, at its end, if and only if the source does not hold it |
| Frames.TagIsAPath | internal/gitstore/gitstore.go:158-175 | the closing tag is itself an accepted file path |
| Frames.SourceCanClose | internal/core/core.go:312 | the source ReadArtifact names for an accepted path is one for which the envelope closes more than once |
| Sorts.SortSlice | internal/compiler/compiler.go:52-53 | sorts the slice in place by its key and keeps its entries |
| Sorts.LeqIsByteOrder | internal/compiler/compiler.go:52-53 | one key comes before another if and only if it is a prefix of it or has the smaller byte where they first differ |
| Sorts.OneSortingExactly | internal/compiler/compiler.go:49-53 | a list has one sorted form if and only if its keys determine its entries |
| Compiler.BodyHasEveryRow | internal/compiler/compiler.go:68-126 | the body holds one row per artifact and one per member, without gaps, in list order, the artifacts first |
| Compiler.IndexHasEveryRow | internal/compiler/compiler.go:128-144 | the index holds one line per artifact, without gaps, in list order |
| Compiler.BodyOpens | internal/compiler/compiler.go:68-126 | the body opens with the protocol of the project's mode and the instructions that are not blank, shows the map or the first steps, the members if any, and ends with the footer |
| Compiler.EveryEntryShows | internal/compiler/compiler.go:51-144 | whatever lists come in, the bundle shows the name, release and open proposals of every artifact, the name and role of every member and the rules of the project's mode, and its version is the hash of its body |
| Compiler.Compile | internal/compiler/compiler.go:51-66 | leaves members sorted by username and artifacts by name and returns the bundle of the sorted lists |
| Compiler.OrderDoesNotShow | internal/compiler/compiler.go:51-66 | permuting members and artifacts changes no part of the bundle when names determine entries |
| Migrations.Database.Migrate | internal/store/store.go:49-94 | an attempt over a directory runs exactly the entries that end in .sql, in byte order, with the faults it meets, whatever order they were listed in |
| Migrations.Database.Run | internal/store/store.go:66-93 | the loop and its early returns leave the database as the attempt function says |
| Migrations.AttemptAppends | internal/store/store.go:66-93 | from any database an attempt commits the missing files in order up to some point, and all of them if it reports success |
| Migrations.AttemptStopsAt | internal/store/store.go:66-93 | an attempt ends without success at the first file it does not get past, with exactly what was missing before it committed, and the file itself if its transaction took before the reply was lost |
| Migrations.AlwaysAPrefix | internal/store/store.go:47-94 | after any sequence of attempts cut off anywhere, the committed files are a prefix of the sorted ones, each once, and the tracking table says exactly that |
| Migrations.SuccessMeansComplete | internal/store/store.go:66-94 | an attempt reports success only when every file is committed, and one that meets no fault does |
| Migrations.CompleteIsFinal | internal/store/store.go:67-74 | once every file is committed no attempt changes anything |

## Left out

- The git program, Postgres, the file system and subprocesses: git is a commit history with refs, tables are maps and sequences kept per project, since every query filters by project.
- Commit hashes: a commit is named by its position, so identical commits never collide and a new commit is always new.
- How git reads a name that is no branch (`doc~1`, `doc^{}`, `doc@{0}`, an abbreviated hash): the commit it reads, or none, is a parameter of the merge, so no form is excluded and none is decoded.
- Artifact names holding wildcard characters in `git tag -l` patterns: the model lists by literal prefix; such names cannot be tagged.
- Ref names git refuses beyond single characters (`..`, `.lock`, a name that is a directory of another): a tag or branch the model accepts may be refused, which then reads as a failed call.
- Rename detection, `.gitignore`, `.gitattributes`, symlinks and file modes: trees map paths to contents.
- Recursive merging over several bases: never needed, by `Interleaving.NeverCrissCross`.
- The order in which git lists tags and branches: lists name each element once in any order. Conflicts are a set.
- Projects switching between solo and team mode, and proposals with status rejected: no call of the core does either.
- Runs of 2^63 steps and more: `Invariants.RunKeeps` bounds a run so that version components stay in range.
- Clocks: rows are stamped in insertion order.
- UTF-8 decoding of the quoted source: `Frames` takes it as given as a list of ASCII bytes, longer runes and stray bytes, with the printable ones marked.
- The fixed wording of the bundle, `strings.TrimSpace` and the hash: parameters of `Compiler`.
- The sorting algorithm of `sort.Slice`: `Sorts.SortSlice` is an insertion sort, and no theorem uses its stability.
- The statement that creates the tracking table: `Migrations` starts after it.
- `EnsureRepo`, backup bundles, several server processes, HTTP, MCP, command-line parsing, tokens, memories, events, digests and search.
