/** Theorems about every interleaving of service calls, each gitstore call being one step. */
module Interleaving {
  import opened Wrappers
  import opened Paths
  import opened FileTree
  import opened Dag
  import opened Repos
  import opened Semver
  import opened Authz
  import opened Tables
  import opened Service
  import opened Invariants

  // History only grows

  /** Only four steps reach git. */
  lemma OtherStepsKeepRepo(s: Sys, step: Step, lines: LineMerge)
    requires !step.Write? && !step.RunMerge? && !step.Drop? && !step.RunTag?
    ensures Apply(s, step, lines).repo == s.repo
  {
  }

  /** What they do there. */
  lemma StepOnRepo(s: Sys, step: Step, lines: LineMerge)
    ensures var t := Apply(s, step, lines).repo;
            t == s.repo ||
            match step
            case Write(actor, artifact, files, fallback) =>
              t == GitWrite(s.repo, WriteBranch(s, actor, artifact), artifact, files, fallback).0
            case RunMerge(call, other) =>
              call in s.calls && s.calls[call].ToMerge? &&
              t == GitMerge(s.repo, s.calls[call].row.branch, other, lines).0
            case Drop(call) =>
              call in s.calls && s.calls[call].ToDrop? && t == GitDelete(s.repo, s.calls[call].row.branch).0
            case RunTag(call) =>
              call in s.calls && s.calls[call].ToTag? &&
              t == GitTag(s.repo, s.calls[call].artifact, String(s.calls[call].next)).0
            case _ => false
  {
    hide GitWrite, GitMerge, GitDelete, GitTag, LookUp, Included, Can, EffectiveRole, WriteBranch, String;
    match step
    case Write(_, _, _, _) =>
    case RunMerge(_, _) =>
    case Drop(_) =>
    case RunTag(_) =>
    case _ => OtherStepsKeepRepo(s, step, lines);
  }

  lemma StepExtends(s: Sys, step: Step, lines: LineMerge)
    requires TreesGrow(s.repo.commits)
    ensures Extends(s.repo, Apply(s, step, lines).repo) && TreesGrow(Apply(s, step, lines).repo.commits)
  {
    hide TreesGrow, GitWrite, GitMerge, Apply, Extends, WriteBranch, String;
    StepOnRepo(s, step, lines);
    SelfExtends(s.repo);
    match step
    case Write(actor, artifact, files, fallback) =>
      WriteExtends(s.repo, WriteBranch(s, actor, artifact), artifact, files, fallback);
    case RunMerge(call, other) =>
      if call in s.calls && s.calls[call].ToMerge? {
        MergeExtends(s.repo, s.calls[call].row.branch, other, lines);
      }
    case Drop(call) =>
      if call in s.calls && s.calls[call].ToDrop? {
        DeleteExtends(s.repo, s.calls[call].row.branch);
      }
    case RunTag(call) =>
      if call in s.calls && s.calls[call].ToTag? {
        TagExtends(s.repo, s.calls[call].artifact, String(s.calls[call].next));
      }
    case _ =>
  }

  lemma SelfExtends(r: Repo)
    ensures Extends(r, r)
  {
  }

  lemma DeleteExtends(r: Repo, branch: string)
    ensures Extends(r, GitDelete(r, branch).0) && GitDelete(r, branch).0.commits == r.commits
  {
  }

  lemma TagExtends(r: Repo, artifact: string, version: string)
    ensures Extends(r, GitTag(r, artifact, version).0) && GitTag(r, artifact, version).0.commits == r.commits
  {
  }

  lemma {:induction false} RunTreesGrow(run: Run, k: nat)
    requires run.Valid() && k < |run.states|
    ensures TreesGrow(run.states[k].repo.commits)
  {
    hide Apply;
    if k > 0 {
      RunTreesGrow(run, k - 1);
      assert run.Stepped(k - 1);
      StepExtends(run.states[k - 1], run.steps[k - 1], run.lines);
    }
  }

  /** In any run the later repository extends the earlier one. */
  lemma {:induction false} RunExtends(run: Run, j: nat, k: nat)
    requires run.Valid() && j <= k < |run.states|
    ensures Extends(run.states[j].repo, run.states[k].repo)
  {
    hide Apply, TreesGrow;
    if j < k {
      RunExtends(run, j, k - 1);
      RunTreesGrow(run, k - 1);
      assert run.Stepped(k - 1);
      StepExtends(run.states[k - 1], run.steps[k - 1], run.lines);
      ExtendsTransitive(run.states[j].repo, run.states[k - 1].repo, run.states[k].repo);
    }
  }

  /** Through merges, deletes, re-creations, lost commits and crashes: whatever commit of the history git reads in a
      name, it and main always have exactly one best common ancestor, and merging it stays inside one artifact. */
  lemma NeverCrissCross(run: Run, k: nat, name: string, other: Option<nat>)
    requires run.Valid() && k < |run.states| && LookUp(run.states[k].repo, name, other).Some?
    ensures var r := run.states[k].repo;
            var c := LookUp(r, name, other).value;
            && (forall d :: IsMergeBase(r.commits, r.heads[MAIN], c, d) <==>
                  d == MergeBase(r.commits, r.heads[MAIN], c))
            && exists artifact :: IsSlug(artifact) && MergesInside(r, name, other, run.lines, artifact)
  {
    hide Inv, Sound, LookUp, MergesInside, IsMergeBase, MergeBase, IsSlug;
    RunSound(run, k);
    OneMergeBase(run.states[k].repo, name, other);
    MergeStaysInOneArtifact(run.states[k].repo, name, other, run.lines);
  }

  /** A proposal whose branch exists when it is merged changes main inside its own artifact, in every reachable
      state. */
  lemma ProposalsStayInside(run: Run, k: nat, username: Username, artifact: string, other: Option<nat>)
    requires run.Valid() && k < |run.states|
    requires ProposalBranch(username, artifact) in run.states[k].repo.heads
    ensures MergesInside(run.states[k].repo, ProposalBranch(username, artifact), other, run.lines, artifact)
  {
    hide Inv, Sound, MergesInside;
    RunSound(run, k);
    UsernameIsPlain(username);
    MergeConfined(run.states[k].repo, username, artifact, other, run.lines);
  }

  /** In every reachable state a merge reports exactly the paths in conflict, or gives every path on main what it must
      have: the content of the side that alone changed it, or what git made of both. */
  lemma MergesAreThreeWay(run: Run, k: nat, name: string, other: Option<nat>)
    requires run.Valid() && k < |run.states|
    ensures var r := run.states[k].repo;
            var (s, result) := GitMerge(r, name, other, run.lines);
            match LookUp(r, name, other)
            case None => s == r && result == MergeFailed
            case Some(c) => MergesPathByPath(r, c, name, run.lines, s, result)
  {
    hide Inv, GitMerge, LookUp, MergesPathByPath;
    RunSound(run, k);
    MergeIsThreeWay(run.states[k].repo, name, other, run.lines);
  }

  /** In every reachable state a proposal merges, and main gets its artifact exactly as the branch has it, unless
      the artifact changed on main since the branch left it. */
  lemma UncontendedProposalsLand(run: Run, k: nat, username: Username, artifact: string, other: Option<nat>)
    requires run.Valid() && k < |run.states|
    requires ProposalBranch(username, artifact) in run.states[k].repo.heads
    requires var r, branch := run.states[k].repo, ProposalBranch(username, artifact);
             SameInside(r.commits[MergeBase(r.commits, r.heads[MAIN], r.heads[branch])].tree, MainTree(r), artifact)
    ensures var r, branch := run.states[k].repo, ProposalBranch(username, artifact);
            var (s, result) := GitMerge(r, branch, other, run.lines);
            result.MergedAt? && SameInside(r.commits[r.heads[branch]].tree, MainTree(s), artifact)
  {
    hide SameInside, SameOutside, Inv, GitMerge;
    RunSound(run, k);
    UsernameIsPlain(username);
    assert IsBranchOf(ProposalBranch(username, artifact), artifact);
    UncontendedProposalLands(run.states[k].repo, ProposalBranch(username, artifact), artifact, other, run.lines);
  }

  lemma RunSound(run: Run, k: nat)
    requires run.Valid() && k < |run.states|
    ensures Sound(run.states[k].repo)
  {
    RunKeeps(run, k);
  }

  /** Main never loses a path, so fsck keeps reaching every artifact it ever reached. */
  lemma MainNeverShrinks(run: Run, j: nat, k: nat)
    requires run.Valid() && j <= k < |run.states|
    ensures MainTree(run.states[j].repo).Keys <= MainTree(run.states[k].repo).Keys
    ensures ArtifactNames(run.states[j].repo) <= ArtifactNames(run.states[k].repo)
  {
    RunExtends(run, j, k);
    RunTreesGrow(run, k);
    MainPathsGrow(run.states[j].repo, run.states[k].repo);
  }

  /** A release tag denotes one commit forever, that commit stays in main's history, and every file read at
      the tag has the same content in every later state. */
  lemma ReleasesAreImmutable(run: Run, j: nat, k: nat, tag: string, artifact: string, rel: string)
    requires run.Valid() && j <= k < |run.states| && tag in run.states[j].repo.tags
    ensures var r, s := run.states[j].repo, run.states[k].repo;
            && tag in s.tags && s.tags[tag] == r.tags[tag] && s.tags[tag] in Trunk(s)
            && Show(s, s.tags[tag], artifact, rel) == Show(r, r.tags[tag], artifact, rel)
  {
    RunExtends(run, j, k);
    RunKeeps(run, j);
    TagReadsForever(run.states[j].repo, run.states[k].repo, tag, artifact, rel);
  }

  ghost predicate HasMerged(s: Sys, id: nat) {
    id in s.db.proposals && s.db.proposals[id].status == Merged
  }

  /** The step is the bookkeeping of a call on row id whose merge went through. */
  ghost predicate Merges(s: Sys, step: Step, id: nat) {
    && step.Resolve? && step.dbOk && step.call in s.calls && s.calls[step.call].ToResolve?
    && s.calls[step.call].id == id && !s.calls[step.call].result.Conflicted? && id in s.db.proposals
  }

  lemma OtherStepsKeepRows(s: Sys, step: Step, lines: LineMerge)
    requires !step.Resolve? && !step.Propose?
    ensures Apply(s, step, lines).db.proposals == s.db.proposals && Apply(s, step, lines).log.taken == s.log.taken
  {
    hide GitWrite, GitMerge, GitDelete, GitTag, Lists, Can, EffectiveRole, String, Latest, Bump, HasRelease;
  }

  /** A row becomes merged by the bookkeeping of a clean merge. */
  lemma MergingStep(s: Sys, step: Step, id: nat, lines: LineMerge)
    requires !HasMerged(s, id)
    ensures HasMerged(Apply(s, step, lines), id) <==> Merges(s, step, id)
  {
    hide GitWrite, GitMerge, GitDelete, GitTag, Lists, Can, EffectiveRole, String, Latest, Bump, HasRelease, LookUp;
    if !step.Resolve? && !step.Propose? {
      OtherStepsKeepRows(s, step, lines);
    }
  }

  /** A call that is to book a merge got there by its git step. */
  lemma ResolvingCall(s: Sys, step: Step, call: nat, lines: LineMerge)
    requires var t := Apply(s, step, lines); call in t.calls && t.calls[call].ToResolve?
    ensures var c := Apply(s, step, lines).calls[call];
            || (call in s.calls && s.calls[call] == c)
            || (step.RunMerge? && step.call == call && Took(s, step, lines, c))
  {
    hide GitWrite, GitMerge, GitDelete, GitTag, CreateReleaseRow, EnsureReleaseRow, ResolveRow, Included;
    hide Lists, VersionTexts, Latest, Bump, String, ProposalBranch, TagName, LookUp, Can, EffectiveRole;
    if step.RunMerge? && step.call in s.calls && s.calls[step.call].ToMerge? {
      MergeNames(s.repo, s.calls[step.call].row.branch, step.other, lines);
    }
  }

  /** The step merges, or fails to merge, the commit that git reads in the name of the row, for this call. */
  ghost predicate Took(s: Sys, step: Step, lines: LineMerge, c: Call) {
    && c.ToResolve? && step.RunMerge? && step.call in s.calls && s.calls[step.call].ToMerge?
    && s.calls[step.call].id == c.id && s.calls[step.call].row == c.row
    && c.result == GitMerge(s.repo, c.row.branch, step.other, lines).1
    && LookUp(s.repo, c.row.branch, step.other) == Some(c.tip)
  }

  lemma {:induction false} ResolverTook(run: Run, m: nat, call: nat) returns (l: nat)
    requires run.Valid() && m < |run.states| && call in run.states[m].calls && run.states[m].calls[call].ToResolve?
    ensures l < m && Took(run.states[l], run.steps[l], run.lines, run.states[m].calls[call])
  {
    hide Apply, Took;
    assert m > 0;
    assert run.Stepped(m - 1);
    ResolvingCall(run.states[m - 1], run.steps[m - 1], call, run.lines);
    if call in run.states[m - 1].calls && run.states[m - 1].calls[call] == run.states[m].calls[call] {
      l := ResolverTook(run, m - 1, call);
    } else {
      l := m - 1;
    }
  }

  /** Step l took this commit, which git read in the name of row id, into main, and main's history has it at k. */
  ghost predicate TookIntoMain(run: Run, l: nat, k: nat, id: nat, tip: nat)
    requires run.Valid() && l < |run.steps| && k < |run.states|
  {
    && tip in Trunk(run.states[k].repo)
    && exists c: Call :: Took(run.states[l], run.steps[l], run.lines, c) && c.id == id && c.tip == tip &&
                         c.result.MergedAt?
  }

  lemma TakenStays(run: Run, l: nat, k: nat, c: Call)
    requires run.Valid() && l < k < |run.states| && Took(run.states[l], run.steps[l], run.lines, c)
    requires c.result.MergedAt?
    ensures c.tip in Trunk(run.states[k].repo)
  {
    hide Inv, GitMerge, LookUp, Included;
    var s, t := run.states[l], GitMerge(run.states[l].repo, c.row.branch, run.steps[l].other, run.lines).0;
    MergeTrunk(s.repo, c.row.branch, run.steps[l].other, run.lines);
    TookMoves(run, l, c);
    RunExtends(run, l + 1, k);
    RunKeeps(run, l + 1);
    TrunkGrows(run.states[l + 1].repo, run.states[k].repo);
  }

  lemma TookMoves(run: Run, l: nat, c: Call)
    requires run.Valid() && l < |run.steps| && Took(run.states[l], run.steps[l], run.lines, c) && c.result.MergedAt?
    ensures l + 1 < |run.states|
    ensures run.states[l + 1].repo == GitMerge(run.states[l].repo, c.row.branch, run.steps[l].other, run.lines).0
  {
    hide GitMerge, LookUp, Included;
    assert run.Stepped(l);
  }

  /** The commit logged for a merged row is the one whose merge was booked last. */
  lemma TakenStep(s: Sys, step: Step, id: nat, lines: LineMerge)
    requires var t := Apply(s, step, lines); HasMerged(t, id) && id in t.log.taken
    ensures var t := Apply(s, step, lines);
            if Merges(s, step, id) then t.log.taken[id] == s.calls[step.call].tip
            else HasMerged(s, id) && id in s.log.taken && t.log.taken[id] == s.log.taken[id]
  {
    hide GitWrite, GitMerge, GitDelete, GitTag, Lists, Can, EffectiveRole, String, Latest, Bump, HasRelease, LookUp;
    hide Included, VersionTexts, TagName, CreateReleaseRow, EnsureReleaseRow, DoWrite, DoRunMerge, DoOpenMerge, DoDrop;
    hide DoOpenRelease, DoRunTag, DoRecord, DoRepair;
    if !step.Resolve? && !step.Propose? {
      OtherStepsKeepRows(s, step, lines);
    }
  }

  /** A row resolved as merged stands for a commit that git read in its name when some step merged it, and that commit
      is in main's history from then on. */
  lemma {:induction false} MergedMeansMerged(run: Run, j: nat, k: nat, id: nat)
    requires run.Valid() && j <= k < |run.states| && HasMerged(run.states[j], id)
    ensures id in run.states[j].log.taken
    ensures exists l :: 0 <= l < j && TookIntoMain(run, l, k, id, run.states[j].log.taken[id])
    decreases j
  {
    hide Apply, Inv, Took, HasMerged, Merges;
    LoggedMeansMerged(run, j, k, id);
    NothingMerged(run.states[0].solo, run.states[0].members, id);
    assert run.Stepped(j - 1);
    var s, step, tip := run.states[j - 1], run.steps[j - 1], run.states[j].log.taken[id];
    TakenStep(s, step, id, run.lines);
    if Merges(s, step, id) {
      MergesMeans(s, step, id);
      var c := s.calls[step.call];
      var l := ResolverTook(run, j - 1, step.call);
      TookSomething(run.states[l], run.steps[l], run.lines, c);
      TakenStays(run, l, k, c);
      assert TookIntoMain(run, l, k, id, tip);
    } else {
      MergedMeansMerged(run, j - 1, k, id);
      var l :| 0 <= l < j - 1 && TookIntoMain(run, l, k, id, tip);
      assert l < j;
    }
  }

  lemma MergesMeans(s: Sys, step: Step, id: nat)
    requires Merges(s, step, id)
    ensures step.Resolve? && step.call in s.calls && s.calls[step.call].ToResolve? && s.calls[step.call].id == id
    ensures !s.calls[step.call].result.Conflicted?
  {
  }

  lemma NothingMerged(solo: bool, members: Memberships, id: nat)
    ensures !HasMerged(Init(solo, members), id)
  {
  }

  lemma TookSomething(s: Sys, step: Step, lines: LineMerge, c: Call)
    requires Took(s, step, lines, c)
    ensures c.result.MergedAt? || c.result.Conflicted?
  {
    hide LookUp, ConflictPaths, MergedTree;
  }

  lemma LoggedMeansMerged(run: Run, j: nat, k: nat, id: nat)
    requires run.Valid() && j <= k < |run.states| && HasMerged(run.states[j], id)
    ensures id in run.states[j].log.taken && run.states[j].log.taken[id] in Trunk(run.states[k].repo)
  {
    RunKeeps(run, j);
    RunExtends(run, j, k);
    TrunkGrows(run.states[j].repo, run.states[k].repo);
  }

  /** A conflicting merge reports at least one path, all in one artifact, which is that of the row when its branch
      exists, and moves no ref. */
  lemma ConflictChangesNothing(s: Sys, call: nat, other: Option<nat>, lines: LineMerge)
    requires Inv(s) && call in s.calls && s.calls[call].ToMerge?
    ensures var t, row := DoRunMerge(s, call, other, lines), s.calls[call].row;
            call in t.calls && t.calls[call].ToResolve? && t.calls[call].result.Conflicted? ==>
              && t.repo == s.repo && t.calls[call].result.paths != {}
              && InOneArtifact(t.calls[call].result.paths)
              && (row.branch in s.repo.heads ==> forall p :: p in t.calls[call].result.paths ==>
                   Reports(p, row.artifact))
  {
    hide Sound, GitMerge, LookUp, Included;
    var c := s.calls[call];
    assert CallOk(c, s.repo, s.db.releases, |s.log.tagged|);
    RowBranch(c.row);
    MergeStaysInOneArtifact(s.repo, c.row.branch, other, lines);
    if c.row.branch in s.repo.heads {
      MergeConfined(s.repo, c.row.proposer, c.row.artifact, other, lines);
    }
  }

  // No work is lost

  /** A written commit is in main's history or on its branch. */
  ghost predicate Held(r: Repo, branch: string, sha: nat) {
    sha in Trunk(r) || (branch in r.heads && sha in Anc(r.commits, r.heads[branch]))
  }

  ghost predicate AllHeld(s: Sys) {
    forall b, c :: (b, c) in s.log.written ==> Held(s.repo, b, c)
  }

  /** The step deletes a branch that was written after its last clean merge. */
  ghost predicate DropsWork(s: Sys, step: Step) {
    && step.Drop? && step.call in s.calls && s.calls[step.call].ToDrop?
    && s.calls[step.call].row.branch in s.repo.heads && s.calls[step.call].row.branch in s.log.pending
  }

  lemma WriteHolds(r: Repo, branch: string, artifact: string, files: seq<File>, fallback: bool)
    requires Sound(r) && WriteTarget(branch, artifact)
    ensures var (t, sha) := GitWrite(r, branch, artifact, files, fallback);
            && (sha.Some? ==> Held(t, branch, sha.value))
            && forall b, c :: Held(r, b, c) ==> Held(t, b, c)
  {
    var (t, sha) := GitWrite(r, branch, artifact, files, fallback);
    WriteKeepsSound(r, branch, artifact, files, fallback);
    TrunkGrows(r, t);
    WriteDropsNothing(r, branch, artifact, files, fallback);
  }

  lemma MergeHolds(r: Repo, branch: string, other: Option<nat>, lines: LineMerge)
    requires Sound(r)
    ensures forall b, c :: Held(r, b, c) ==> Held(GitMerge(r, branch, other, lines).0, b, c)
  {
    var t := GitMerge(r, branch, other, lines).0;
    MergeKeepsSound(r, branch, other, lines);
    TrunkGrows(r, t);
    forall b, c | Held(r, b, c) ensures Held(t, b, c) {
      if c !in Trunk(r) && b != MAIN {
        AncGrows(r.commits, t.commits, r.heads[b]);
      }
    }
  }

  lemma StepHolds(s: Sys, step: Step, lines: LineMerge)
    requires Inv(s) && AllHeld(s) && !DropsWork(s, step)
    ensures AllHeld(Apply(s, step, lines))
  {
    hide Sound, RowsOk, TakenOk, ReleasesOk, TagsOk, CallsOk, OneWinner, PendingOk, Can, EffectiveRole, GitWrite;
    hide GitMerge, Held;
    match step
    case Write(actor, artifact, files, fallback) =>
      WriteStepHolds(s, actor, artifact, files, fallback);
    case RunMerge(call, other) =>
      if call in s.calls && s.calls[call].ToMerge? {
        MergeHolds(s.repo, s.calls[call].row.branch, other, lines);
      }
    case Drop(call) =>
      if call in s.calls && s.calls[call].ToDrop? {
        DropHolds(s, call);
      }
    case RunTag(call) => TagHolds(s, call);
    case _ => OtherStepsKeepRepo(s, step, lines);
  }

  lemma WriteStepHolds(s: Sys, actor: Actor, artifact: string, files: seq<File>, fallback: bool)
    requires Sound(s.repo) && AllHeld(s)
    ensures AllHeld(DoWrite(s, actor, artifact, files, fallback))
  {
    hide Sound, Held, Can, EffectiveRole;
    var branch := WriteBranch(s, actor, artifact);
    WriteTargetOf(s, actor, artifact);
    WriteHolds(s.repo, branch, artifact, files, fallback);
    var t := DoWrite(s, actor, artifact, files, fallback);
    forall b, c | (b, c) in t.log.written ensures Held(t.repo, b, c) {
      assert (b, c) in s.log.written ==> Held(s.repo, b, c);
    }
  }

  lemma TagHolds(s: Sys, call: nat)
    requires AllHeld(s)
    ensures AllHeld(DoRunTag(s, call))
  {
    hide String, TagName;
    var t := DoRunTag(s, call);
    assert t.repo.commits == s.repo.commits && t.repo.heads == s.repo.heads;
    forall b, c | (b, c) in t.log.written ensures Held(t.repo, b, c) {
      assert Held(s.repo, b, c);
    }
  }

  lemma DropHolds(s: Sys, call: nat)
    requires Inv(s) && AllHeld(s) && call in s.calls && s.calls[call].ToDrop? && !DropsWork(s, Drop(call))
    ensures AllHeld(DoDrop(s, call))
  {
    var branch := s.calls[call].row.branch;
    forall b, c | (b, c) in s.log.written ensures Held(GitDelete(s.repo, branch).0, b, c) {
      if b == branch && b in s.repo.heads && b != MAIN {
        AncTransitive(s.repo.commits, s.repo.heads[MAIN], s.repo.heads[b]);
      }
    }
  }

  /** The tip of such a branch is written work that no ref holds afterwards. */
  lemma DropLoses(s: Sys, step: Step, lines: LineMerge)
    requires Inv(s) && DropsWork(s, step)
    ensures !AllHeld(Apply(s, step, lines))
  {
    hide RowsOk, TakenOk, ReleasesOk, TagsOk, OneWinner, Sound, Held;
    var row := s.calls[step.call].row;
    assert CallOk(s.calls[step.call], s.repo, s.db.releases, |s.log.tagged|);
    RowBranch(row);
    var t := DoDrop(s, step.call);
    assert (row.branch, s.repo.heads[row.branch]) in t.log.written;
    TipIsLost(s.repo, row.branch);
  }

  lemma TipIsLost(r: Repo, branch: string)
    requires branch in r.heads && branch != MAIN && r.heads[branch] !in Trunk(r)
    ensures !Held(GitDelete(r, branch).0, branch, r.heads[branch])
  {
  }

  /** The step is a write that returns this commit on this branch. */
  ghost predicate Returns(s: Sys, step: Step, b: string, sha: nat) {
    && step.Write? && MayWork(s.members, step.actor)
    && b == (if s.solo then "main" else "u/" + step.actor.username + "/" + step.artifact)
    && GitWrite(s.repo, b, step.artifact, step.files, step.fallback).1 == Some(sha)
  }

  /** Every commit that a write of the run returned is held in all later states. */
  ghost predicate HeldThroughout(run: Run)
    requires run.Valid()
  {
    forall k, m, b, sha :: 0 <= k < m < |run.states| && Returns(run.states[k], run.steps[k], b, sha) ==>
      Held(run.states[m].repo, b, sha)
  }

  lemma WriteLogs(s: Sys, step: Step, b: string, sha: nat, lines: LineMerge)
    ensures (b, sha) in Apply(s, step, lines).log.written <==>
            (b, sha) in s.log.written || Returns(s, step, b, sha)
  {
    hide GitWrite, GitMerge, GitTag, Lists, Can, EffectiveRole, MayWork, String, Latest, Bump, HasRelease, LookUp;
    hide GitDelete, CreateReleaseRow, EnsureReleaseRow, ResolveRow, VersionTexts, TagName, Included;
    if step.Write? {
      GateExactly(s.members, step.actor);
    }
  }

  /** The log of writes holds exactly what the writes of the run returned so far. */
  lemma {:induction false} LogIsReturns(run: Run, m: nat, b: string, sha: nat)
    requires run.Valid() && m < |run.states|
    ensures (b, sha) in run.states[m].log.written <==>
            exists k :: 0 <= k < m && Returns(run.states[k], run.steps[k], b, sha)
  {
    hide Apply, Returns;
    if m > 0 {
      LogIsReturns(run, m - 1, b, sha);
      assert run.Stepped(m - 1);
      WriteLogs(run.states[m - 1], run.steps[m - 1], b, sha, run.lines);
    }
  }

  lemma HeldMeans(run: Run)
    requires run.Valid()
    ensures HeldThroughout(run) <==> forall m :: 0 <= m < |run.states| ==> AllHeld(run.states[m])
  {
    hide Returns, Held;
    forall m: nat, b: string, sha: nat | m < |run.states|
      ensures (b, sha) in run.states[m].log.written <==>
              exists k :: 0 <= k < m && Returns(run.states[k], run.steps[k], b, sha)
    {
      LogIsReturns(run, m, b, sha);
    }
  }

  ghost predicate DropsNoWork(run: Run)
    requires run.Valid()
  {
    forall k :: 0 <= k < |run.steps| ==> !DropsWork(run.states[k], run.steps[k])
  }

  lemma {:induction false} HeldSoFar(run: Run, k: nat)
    requires run.Valid() && k < |run.states| && DropsNoWork(run)
    ensures AllHeld(run.states[k])
  {
    hide Apply, Inv, DropsWork;
    if k > 0 {
      HeldSoFar(run, k - 1);
      RunKeeps(run, k - 1);
      assert run.Stepped(k - 1);
      StepHolds(run.states[k - 1], run.steps[k - 1], run.lines);
    }
  }

  /** Every commit a write returned stays reachable throughout a run exactly when no DeleteBranch of the run
      meets a branch that was written after its last clean merge. */
  lemma WorkIsKeptExactly(run: Run)
    requires run.Valid()
    ensures HeldThroughout(run) <==> DropsNoWork(run)
  {
    hide HeldThroughout, AllHeld;
    HeldMeans(run);
    if DropsNoWork(run) {
      forall k | 0 <= k < |run.states| ensures AllHeld(run.states[k]) {
        HeldSoFar(run, k);
      }
    } else {
      var k :| 0 <= k < |run.steps| && DropsWork(run.states[k], run.steps[k]);
      RunKeeps(run, k);
      DropLoses(run.states[k], run.steps[k], run.lines);
      assert run.Stepped(k);
      assert !AllHeld(run.states[k + 1]);
    }
  }

  // Who moves what

  /** Since step j, which found its number free, the call has stood as it does at k. */
  ghost predicate StandsSince(run: Run, j: nat, k: nat, call: nat)
    requires run.Valid() && j < k < |run.states| && call in run.states[k].calls
  {
    && call !in run.states[j].calls
    && forall i :: j < i <= k ==> call in run.states[i].calls && run.states[i].calls[call] == run.states[k].calls[call]
  }

  /** The step opens this call: the actor is allowed to, and the call holds what was read then. */
  ghost predicate Opens(s: Sys, step: Step, call: nat, c: Call) {
    match c
    case ToMerge(actor, role, id, row) =>
      && step == OpenMerge(call, actor, id)
      && role == EffectiveRole(s.members, actor) && Can(role, ProposalMerge)
      && id in s.db.proposals && row == s.db.proposals[id]
    case ToTag(artifact, next) =>
      && step.OpenRelease? && step.call == call && step.artifact == artifact
      && Can(EffectiveRole(s.members, step.actor), ReleaseCreate)
      && Lists(step.listing, VersionTexts(s.repo, artifact))
      && KindOf(step.kind).Some? && next == Next(step.listing, KindOf(step.kind).value)
    case _ => false
  }

  /** A call that waits for its git step was there before, unchanged, or is opened by this step. */
  lemma WaitingCall(s: Sys, step: Step, call: nat, lines: LineMerge)
    requires var t := Apply(s, step, lines); call in t.calls && (t.calls[call].ToMerge? || t.calls[call].ToTag?)
    ensures var t := Apply(s, step, lines);
            if call in s.calls then t.calls[call] == s.calls[call] else Opens(s, step, call, t.calls[call])
  {
    hide GitWrite, GitMerge, GitDelete, GitTag, CreateReleaseRow, EnsureReleaseRow, ResolveRow;
    hide Lists, VersionTexts, Latest, String, ProposalBranch, TagName, LookUp, Can, EffectiveRole;
  }

  /** So it was opened once, by an actor allowed to, and stands since. */
  lemma {:induction false} CallWasOpened(run: Run, k: nat, call: nat) returns (j: nat)
    requires run.Valid() && k < |run.states| && call in run.states[k].calls
    requires run.states[k].calls[call].ToMerge? || run.states[k].calls[call].ToTag?
    ensures j < k && StandsSince(run, j, k, call)
    ensures Opens(run.states[j], run.steps[j], call, run.states[k].calls[call])
  {
    hide Apply, Opens;
    assert k > 0;
    assert run.Stepped(k - 1);
    WaitingCall(run.states[k - 1], run.steps[k - 1], call, run.lines);
    if call in run.states[k - 1].calls {
      j := CallWasOpened(run, k - 1, call);
    } else {
      j := k - 1;
    }
  }

  lemma OnlyMergesMoveMain(s: Sys, step: Step, lines: LineMerge)
    requires !s.solo && Apply(s, step, lines).repo.heads[MAIN] != s.repo.heads[MAIN]
    ensures step.RunMerge? && step.call in s.calls && s.calls[step.call].ToMerge?
  {
    match step
    case Write(actor, artifact, files, _) => WriteTargetOf(s, actor, artifact);
    case Drop(_) =>
    case RunMerge(_, _) =>
    case RunTag(_) =>
    case _ => OtherStepsKeepRepo(s, step, lines);
  }

  lemma ModeStays(s: Sys, step: Step, lines: LineMerge)
    ensures Apply(s, step, lines).solo == s.solo
  {
  }

  lemma {:induction false} RunModeStays(run: Run, k: nat)
    requires run.Valid() && k < |run.states|
    ensures run.states[k].solo == run.states[0].solo
  {
    hide Apply;
    if k > 0 {
      RunModeStays(run, k - 1);
      assert run.Stepped(k - 1);
      ModeStays(run.states[k - 1], run.steps[k - 1], run.lines);
    }
  }

  /** On a team project main moves only by the merge of a call that was opened once, by an actor who was maintainer
      then and on the row merged now, and that has stood unchanged since. */
  lemma MainMovesByMaintainers(run: Run, k: nat)
    requires run.Valid() && k < |run.steps| && !run.states[0].solo
    requires run.states[k + 1].repo.heads[MAIN] != run.states[k].repo.heads[MAIN]
    ensures run.steps[k].RunMerge?
    ensures var s, call := run.states[k], run.steps[k].call;
            && call in s.calls && s.calls[call].ToMerge?
            && run.states[k + 1].repo == GitMerge(s.repo, s.calls[call].row.branch, run.steps[k].other, run.lines).0
            && exists j :: 0 <= j < k && StandsSince(run, j, k, call) && MaintainerOpened(run, j, s.calls[call])
  {
    hide Can, EffectiveRole, MaySteer;
    assert run.Stepped(k);
    RunModeStays(run, k);
    OnlyMergesMoveMain(run.states[k], run.steps[k], run.lines);
    var call := run.steps[k].call;
    var c := run.states[k].calls[call];
    var j := CallWasOpened(run, k, call);
    GateExactly(run.states[j].members, c.actor);
    assert MaintainerOpened(run, j, c);
  }

  /** Step j is the opening of merge call c by its actor, maintainer by the rule at that moment, on the row as it
      was. */
  ghost predicate MaintainerOpened(run: Run, j: nat, c: Call)
    requires run.Valid() && j < |run.steps| && c.ToMerge?
  {
    && run.steps[j].OpenMerge? && run.steps[j].actor == c.actor && run.steps[j].id == c.id
    && MaySteer(run.states[j].members, c.actor)
    && c.id in run.states[j].db.proposals && c.row == run.states[j].db.proposals[c.id]
  }

  /** Step j is the opening of release call c by a maintainer by the rule, and its version follows the one that was the
      current one of the artifact then. */
  ghost predicate ReleaseOpened(run: Run, j: nat, call: nat, c: Call)
    requires run.Valid() && j < |run.steps| && c.ToTag?
  {
    var s, step := run.states[j], run.steps[j];
    && step.OpenRelease? && step.call == call && step.artifact == c.artifact && MaySteer(s.members, step.actor)
    && exists cur :: IsCurrent(s.repo, c.artifact, cur) && Follows(cur, step.kind, c.next)
  }

  /** Release tags are only ever created, one at a time, on main, by a call that a maintainer opened and that goes for
      the version that followed the current one then. */
  lemma TagsComeFromMaintainers(run: Run, k: nat)
    requires run.Valid() && k < |run.steps| && run.states[k + 1].repo.tags != run.states[k].repo.tags
    ensures run.steps[k].RunTag?
    ensures var s, call := run.states[k], run.steps[k].call;
            && call in s.calls && s.calls[call].ToTag?
            && var c := s.calls[call];
               var tag := TagName(c.artifact, String(c.next));
               && tag !in s.repo.tags && run.states[k + 1].repo.tags == s.repo.tags[tag := s.repo.heads[MAIN]]
               && exists j :: 0 <= j < k && StandsSince(run, j, k, call) && ReleaseOpened(run, j, call, c)
  {
    hide Can, EffectiveRole, Opens, String, TagName, RefNameOk, Apply, ReleaseOpened;
    assert run.Stepped(k);
    OnlyRunTagTags(run.states[k], run.steps[k], run.lines);
    var call := run.steps[k].call;
    var j := CallWasOpened(run, k, call);
    ReleaseOpener(run, j, call, run.states[k].calls[call]);
  }

  lemma ReleaseOpener(run: Run, j: nat, call: nat, c: Call)
    requires run.Valid() && j < |run.steps| && c.ToTag? && Opens(run.states[j], run.steps[j], call, c)
    ensures ReleaseOpened(run, j, call, c)
  {
    hide EffectiveRole, Can, Lists, Latest, Bump, IsCurrent, Follows, MaySteer, VersionTexts;
    var s, step := run.states[j], run.steps[j];
    GateExactly(s.members, step.actor);
    LatestIsCurrent(s.repo, c.artifact, step.listing);
    BumpFollows(Latest(step.listing).GetOr(ZERO), step.kind);
    NextIsBump(step.listing, step.kind);
    assert Follows(Latest(step.listing).GetOr(ZERO), step.kind, c.next);
  }

  lemma NextIsBump(listing: seq<string>, kind: string)
    requires KindOf(kind).Some?
    ensures Bump(Latest(listing).GetOr(ZERO), kind) == Some(Next(listing, KindOf(kind).value))
  {
    hide Latest;
  }

  lemma OnlyRunTagTags(s: Sys, step: Step, lines: LineMerge)
    requires Apply(s, step, lines).repo.tags != s.repo.tags
    ensures step.RunTag? && step.call in s.calls && s.calls[step.call].ToTag?
    ensures var c := s.calls[step.call];
            var tag := TagName(c.artifact, String(c.next));
            tag !in s.repo.tags && Apply(s, step, lines).repo.tags == s.repo.tags[tag := s.repo.heads[MAIN]]
  {
    hide String, TagName, RefNameOk, LookUp, PlanMerge, WriteCommit, Can;
    match step
    case Write(_, _, _, _) =>
    case Drop(_) =>
    case RunMerge(_, _) =>
    case RunTag(_) =>
    case _ => OtherStepsKeepRepo(s, step, lines);
  }

  /** A write moves the writer's own branch of the artifact and nothing else; no other step moves a
      proposal branch except to delete it. */
  lemma BranchesMoveByTheirOwners(s: Sys, step: Step, owner: Username, artifact: string, lines: LineMerge)
    requires !s.solo
    requires var branch := ProposalBranch(owner, artifact);
             var t := Apply(s, step, lines);
             branch in t.repo.heads && (branch !in s.repo.heads || t.repo.heads[branch] != s.repo.heads[branch])
    ensures step.Write? && step.actor.username == owner && step.artifact == artifact
    ensures MayWork(s.members, step.actor)
  {
    hide Apply, GitTag, TagName, String, WriteAllowed, PlaceAll, PlanMerge, MayWork, LookUp;
    UsernameIsPlain(owner);
    ProposalBranchInjective(owner, artifact, owner, artifact);
    StepOnRepo(s, step, lines);
    match step
    case Write(actor, a, files, _) =>
      UsernameIsPlain(actor.username);
      ProposalBranchInjective(owner, artifact, actor.username, a);
      OthersChangeNothing(s, step, lines);
    case RunTag(call) => TagKeepsHeads(s.repo, s.calls[call].artifact, String(s.calls[call].next));
    case _ =>
  }

  lemma TagKeepsHeads(r: Repo, artifact: string, version: string)
    ensures GitTag(r, artifact, version).0.heads == r.heads
  {
  }

  /** Nobody else changes anything: without the role that the rule asks for, no write, proposal, merge or release gets
      anywhere. */
  lemma OthersChangeNothing(s: Sys, step: Step, lines: LineMerge)
    ensures (step.Write? || step.Propose?) && !MayWork(s.members, step.actor) ==> Apply(s, step, lines) == s
    ensures (step.OpenMerge? || step.OpenRelease?) && !MaySteer(s.members, step.actor) ==> Apply(s, step, lines) == s
  {
    hide Can, EffectiveRole, MayWork, MaySteer, GitWrite, Lists, VersionTexts, Latest, Bump, ProposalBranch;
    if step.Write? || step.Propose? || step.OpenMerge? || step.OpenRelease? {
      GateExactly(s.members, step.actor);
    }
  }

  // Solo projects

  /** Main is the only branch, everything written went there, and there is nothing to merge. */
  ghost predicate OnMainOnly(s: Sys) {
    && s.repo.heads.Keys == {"main"} && s.db.proposals == map[]
    && (forall c :: c in s.calls ==> s.calls[c].ToTag? || s.calls[c].ToRecord?)
    && forall b, sha :: (b, sha) in s.log.written ==> b == "main"
  }

  lemma SoloStep(s: Sys, step: Step, lines: LineMerge)
    requires s.solo && OnMainOnly(s)
    ensures OnMainOnly(Apply(s, step, lines))
  {
    hide GitMerge, WriteAllowed, PlaceAll, Lists, Can, EffectiveRole, String, Latest, Bump, HasRelease, LookUp, TagName;
    hide RefNameOk, VersionTexts, NewRelease;
    match step
    case Write(actor, artifact, files, fallback) => SoloWrite(s.repo, artifact, files, fallback);
    case _ =>
  }

  lemma SoloWrite(r: Repo, artifact: string, files: seq<File>, fallback: bool)
    requires r.heads.Keys == {"main"}
    ensures GitWrite(r, MAIN, artifact, files, fallback).0.heads.Keys == {"main"}
  {
    hide WriteAllowed, PlaceAll;
  }

  lemma {:induction false} SoloSoFar(run: Run, k: nat)
    requires run.Valid() && k < |run.states| && run.states[0].solo
    ensures OnMainOnly(run.states[k])
  {
    hide Apply, OnMainOnly;
    if k == 0 {
      SoloStart(run.states[0].members);
    } else {
      SoloSoFar(run, k - 1);
      RunModeStays(run, k - 1);
      assert run.Stepped(k - 1);
      SoloStep(run.states[k - 1], run.steps[k - 1], run.lines);
    }
  }

  lemma SoloStart(members: Memberships)
    ensures OnMainOnly(Init(true, members))
  {
  }

  /** On a solo project main is the only branch in every state of every run, there are no proposals, and every commit
      that a write returned is in main's history. */
  lemma SoloStaysOnMain(run: Run, k: nat)
    requires run.Valid() && k < |run.states| && run.states[0].solo
    ensures run.states[k].repo.heads.Keys == {"main"} && run.states[k].db.proposals == map[]
    ensures forall b, sha :: (b, sha) in run.states[k].log.written ==> b == "main" && sha in Trunk(run.states[k].repo)
  {
    hide Sound, RowsOk, TakenOk, ReleasesOk, TagsOk, CallsOk, OneWinner, Run.Valid;
    SoloSoFar(run, k);
    RunKeeps(run, k);
  }

  // Releases

  /** The insert of this call would violate the unique constraint. */
  ghost predicate HitsUnique(s: Sys, call: nat) {
    && call in s.calls && s.calls[call].ToRecord?
    && HasRelease(s.db.releases, s.calls[call].artifact, String(s.calls[call].next))
  }

  /** fsck inserted the row this call is about to insert. */
  ghost predicate FsckWasFaster(s: Sys, call: nat) {
    && call in s.calls && s.calls[call].ToRecord?
    && exists i :: 0 <= i < |s.db.releases| && s.db.releases[i].rebuilt
         && IsRelease(s.db.releases[i], s.calls[call].artifact, String(s.calls[call].next))
  }

  /** However releases interleave: a version is tagged once, a row is unique and has its tag, no two calls are
      about to record one version, and the unique constraint is hit exactly when fsck inserted that very row. */
  lemma OneReleasePerVersion(run: Run, k: nat)
    requires run.Valid() && k < |run.states|
    ensures var s := run.states[k];
            && (forall i, j :: 0 <= i < j < |s.log.tagged| ==> s.log.tagged[i] != s.log.tagged[j])
            && (forall i :: 0 <= i < |s.db.releases| ==> ReleaseOk(s.db.releases[i], s.repo.tags))
            && UniqueReleases(s.db.releases)
            && OneWinner(s.calls)
            && forall call :: HitsUnique(s, call) <==> FsckWasFaster(s, call)
  {
    RunKeeps(run, k);
    var s := run.states[k];
    forall call | HitsUnique(s, call) ensures FsckWasFaster(s, call) {
      RecorderHasTag(s, call);
    }
    TaggedOnce(s.repo.tags, s.log.tagged);
  }

  lemma TaggedOnce(tags: map<string, nat>, tagged: Tagged)
    requires TagsOk(tags, tagged)
    ensures forall i, j :: 0 <= i < j < |tagged| ==> tagged[i] != tagged[j]
  {
    forall i, j | 0 <= i < j < |tagged| ensures tagged[i] != tagged[j] {
      assert TagOf(tagged[i]) != TagOf(tagged[j]);
    }
  }

  /** Step j created the tag that the call is about to record, and the call has stood so since. */
  ghost predicate TaggedSince(run: Run, j: nat, k: nat, call: nat)
    requires run.Valid() && j < k < |run.states| && call in run.states[k].calls && run.states[k].calls[call].ToRecord?
  {
    var s, c := run.states[j], run.states[k].calls[call];
    && run.steps[j] == RunTag(call)
    && call in s.calls && s.calls[call] == ToTag(c.artifact, c.next)
    && TagName(c.artifact, String(c.next)) !in s.repo.tags
    && TagName(c.artifact, String(c.next)) in run.states[j + 1].repo.tags
    && forall i :: j < i <= k ==> call in run.states[i].calls && run.states[i].calls[call] == c
  }

  lemma RecordingCall(s: Sys, step: Step, call: nat, lines: LineMerge)
    requires var t := Apply(s, step, lines); call in t.calls && t.calls[call].ToRecord?
    ensures var t := Apply(s, step, lines);
            var c := t.calls[call];
            var tag := TagName(c.artifact, String(c.next));
            || (call in s.calls && s.calls[call] == c)
            || (step == RunTag(call) && call in s.calls && s.calls[call] == ToTag(c.artifact, c.next) &&
                tag !in s.repo.tags && tag in t.repo.tags)
  {
    hide GitWrite, GitMerge, GitDelete, CreateReleaseRow, EnsureReleaseRow, ResolveRow, RefNameOk;
    hide Lists, VersionTexts, Latest, Bump, String, ProposalBranch, TagName, LookUp, Can, EffectiveRole;
  }

  lemma {:induction false} RecorderTagged(run: Run, k: nat, call: nat)
    requires run.Valid() && k < |run.states| && call in run.states[k].calls && run.states[k].calls[call].ToRecord?
    ensures exists j :: 0 <= j < k && TaggedSince(run, j, k, call)
  {
    hide Apply, String, TagName;
    if k > 0 {
      assert run.Stepped(k - 1);
      RecordingCall(run.states[k - 1], run.steps[k - 1], call, run.lines);
      var before := run.states[k - 1].calls;
      if call in before && before[call] == run.states[k].calls[call] {
        RecorderTagged(run, k - 1, call);
        var j :| 0 <= j < k - 1 && TaggedSince(run, j, k - 1, call);
        assert TaggedSince(run, j, k, call);
      } else {
        assert TaggedSince(run, k - 1, k, call);
      }
    }
  }

  /** Step l inserted row r for a call that had created the tag of that very version at step j. */
  ghost predicate WinnerRecorded(run: Run, j: nat, l: nat, i: nat, r: Release)
    requires run.Valid() && j < l < |run.steps|
  {
    var s, step := run.states[l], run.steps[l];
    && step.Record? && step.dbOk && step.call in s.calls && s.calls[step.call].ToRecord?
    && IsRelease(r, s.calls[step.call].artifact, String(s.calls[step.call].next))
    && |s.db.releases| == i && TaggedSince(run, j, l, step.call)
  }

  lemma RowSteps(s: Sys, step: Step, lines: LineMerge)
    ensures var rows, rows2 := s.db.releases, Apply(s, step, lines).db.releases;
            || rows2 == rows
            || (step.Repair? && |rows2| == |rows| + 1 && rows2[..|rows|] == rows && rows2[|rows|].rebuilt)
            || (step.Record? && step.dbOk && step.call in s.calls && s.calls[step.call].ToRecord? &&
                |rows2| == |rows| + 1 && rows2[..|rows|] == rows &&
                IsRelease(rows2[|rows|], s.calls[step.call].artifact, String(s.calls[step.call].next)))
  {
    hide GitWrite, GitMerge, GitDelete, GitTag, HasRelease, LookUp, Can, EffectiveRole, Lists, Latest, Bump, String;
    hide TagName;
  }

  /** Every row that fsck did not rebuild belongs to a winner: the call that inserted it is the one that created the
      tag, at a moment when the tag was free. */
  lemma {:induction false} RowsBelongToWinners(run: Run, k: nat, i: nat)
    requires run.Valid() && k < |run.states| && i < |run.states[k].db.releases| && !run.states[k].db.releases[i].rebuilt
    ensures exists j, l :: 0 <= j < l < k && WinnerRecorded(run, j, l, i, run.states[k].db.releases[i])
  {
    hide Apply, TaggedSince, IsRelease, String;
    if k > 0 {
      assert run.Stepped(k - 1);
      var rows := run.states[k - 1].db.releases;
      RowSteps(run.states[k - 1], run.steps[k - 1], run.lines);
      if i < |rows| {
        assert run.states[k].db.releases[..|rows|][i] == rows[i];
        RowsBelongToWinners(run, k - 1, i);
      } else {
        RecorderTagged(run, k - 1, run.steps[k - 1].call);
        var j :| 0 <= j < k - 1 && TaggedSince(run, j, k - 1, run.steps[k - 1].call);
        assert WinnerRecorded(run, j, k - 1, i, run.states[k].db.releases[i]);
      }
    }
  }

  /** A call that finds its tag taken changes nothing, and as long as nobody opens a call under its number again there
      is no call of that number, so it writes no row later. */
  lemma {:induction false} LoserWritesNoRow(run: Run, k: nat, l: nat, call: nat)
    requires run.Valid() && k < l < |run.states| && run.steps[k] == RunTag(call)
    requires call in run.states[k].calls && run.states[k].calls[call].ToTag?
    requires var c := run.states[k].calls[call]; TagName(c.artifact, String(c.next)) in run.states[k].repo.tags
    requires forall i :: k < i < l ==> !OpensNumber(run.steps[i], call)
    ensures run.states[k + 1].repo == run.states[k].repo && run.states[k + 1].db == run.states[k].db
    ensures call !in run.states[l].calls
    ensures forall ok :: Apply(run.states[l], Record(call, ok), run.lines) == run.states[l]
  {
    hide String, TagName, Apply;
    if l == k + 1 {
      assert run.Stepped(k);
      LoserEnds(run.states[k], call, run.lines);
    } else {
      LoserWritesNoRow(run, k, l - 1, call);
      assert run.Stepped(l - 1);
      NoNewNumber(run.states[l - 1], run.steps[l - 1], call, run.lines);
    }
    NoCallNoRecord(run.states[l], call, run.lines);
  }

  lemma LoserEnds(s: Sys, call: nat, lines: LineMerge)
    requires call in s.calls && s.calls[call].ToTag?
    requires TagName(s.calls[call].artifact, String(s.calls[call].next)) in s.repo.tags
    ensures var t := Apply(s, RunTag(call), lines); t.repo == s.repo && t.db == s.db && call !in t.calls
  {
    hide String, TagName, RefNameOk;
  }

  ghost predicate OpensNumber(step: Step, call: nat) {
    (step.OpenMerge? || step.OpenRelease?) && step.call == call
  }

  lemma NoNewNumber(s: Sys, step: Step, call: nat, lines: LineMerge)
    requires call !in s.calls && !OpensNumber(step, call)
    ensures call !in Apply(s, step, lines).calls
  {
    hide GitWrite, GitMerge, GitDelete, GitTag, HasRelease, LookUp, Can, EffectiveRole, Lists, Latest, Bump, String;
    hide TagName;
  }

  lemma NoCallNoRecord(s: Sys, call: nat, lines: LineMerge)
    requires call !in s.calls
    ensures forall ok :: Apply(s, Record(call, ok), lines) == s
  {
  }

  ghost predicate NothingRebuilt(rows: seq<Release>) {
    forall i :: 0 <= i < |rows| ==> !rows[i].rebuilt
  }

  lemma StepRebuildsNothing(s: Sys, step: Step, lines: LineMerge)
    requires NothingRebuilt(s.db.releases) && !step.Repair?
    ensures NothingRebuilt(Apply(s, step, lines).db.releases)
  {
  }

  /** Without a concurrent fsck the unique constraint is never hit. */
  lemma {:induction false} UniqueNeverHitWithoutFsck(run: Run, k: nat, call: nat)
    requires run.Valid() && k < |run.states|
    requires forall i :: 0 <= i < k ==> !run.steps[i].Repair?
    ensures NothingRebuilt(run.states[k].db.releases)
    ensures !HitsUnique(run.states[k], call)
  {
    hide Apply;
    if k > 0 {
      UniqueNeverHitWithoutFsck(run, k - 1, call);
      assert run.Stepped(k - 1);
      StepRebuildsNothing(run.states[k - 1], run.steps[k - 1], run.lines);
    }
    OneReleasePerVersion(run, k);
  }
}
