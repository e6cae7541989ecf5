/** The service calls on one project as a machine of atomic steps. Each gitstore call and each
    statement on the tables is one step; the steps of different calls interleave freely, and a
    call may stop for good between any two of its steps. */
module Service {
  import opened Wrappers
  import opened Paths
  import opened FileTree
  import opened Repos
  import opened Semver
  import opened Authz
  import opened Tables

  /** Where a call stands: what it read so far and what it does next. */
  datatype Call =
    | ToMerge(actor: Actor, role: Role, id: nat, row: Proposal)
    | ToResolve(id: nat, row: Proposal, result: MergeResult, tip: nat)
    | ToDrop(row: Proposal)
    | ToTag(artifact: string, next: Version)
    | ToRecord(artifact: string, next: Version)

  /** History of a run, written but never read by the steps. */
  datatype Log = Log(
    written: set<(string, nat)>,      // branch and sha of every WriteArtifact that returned
    pending: set<string>,             // branches written since a merge last took in their tip
    taken: map<nat, nat>,             // the commit merged for each row resolved as merged
    tagged: seq<(string, Version)>)   // releases in the order their tags were created

  datatype Sys = Sys(
    solo: bool,
    repo: Repo,
    db: Rows,
    members: Memberships,
    calls: map<nat, Call>,
    log: Log)

  datatype Step =
    | Write(actor: Actor, artifact: string, files: seq<File>, fallback: bool)
    | Propose(actor: Actor, artifact: string, id: nat)
    | OpenMerge(call: nat, actor: Actor, id: nat)
    | RunMerge(call: nat, other: Option<nat>)
    | Resolve(call: nat, dbOk: bool)
    | Drop(call: nat)
    | OpenRelease(call: nat, actor: Actor, artifact: string, kind: string, listing: seq<string>)
    | RunTag(call: nat)
    | Record(call: nat, dbOk: bool)
    | Repair(artifact: string, version: string)
    | Crash(call: nat)
    | SetRole(username: Username, role: Role)

  function Init(solo: bool, members: Memberships): Sys {
    Sys(solo, EmptyRepo(), Rows(map[], []), members, map[], Log({}, {}, map[], []))
  }

  /** The branch a write of this actor goes to. */
  function WriteBranch(s: Sys, actor: Actor, artifact: string): string {
    if s.solo then MAIN else ProposalBranch(actor.username, artifact)
  }

  /** WriteArtifact; fallback says that cloning an existing branch failed and main was cloned instead. */
  function DoWrite(s: Sys, actor: Actor, artifact: string, files: seq<File>, fallback: bool): Sys {
    if !Can(EffectiveRole(s.members, actor), ArtifactWrite) then s
    else
      var branch := WriteBranch(s, actor, artifact);
      var (repo, sha) := GitWrite(s.repo, branch, artifact, files, fallback);
      match sha
      case None => s
      case Some(c) => s.(repo := repo, log := s.log.(written := s.log.written + {(branch, c)},
                                                     pending := s.log.pending + {branch}))
  }

  /** ProposeMerge; id is the fresh key of the row. Nothing checks that the branch exists. */
  function DoPropose(s: Sys, actor: Actor, artifact: string, id: nat): Sys {
    if !Can(EffectiveRole(s.members, actor), ProposalCreate) || s.solo || id in s.db.proposals then s
    else
      var row := Proposal(artifact, ProposalBranch(actor.username, artifact), actor.username, Open, {},
          |s.db.proposals|);
      s.(db := s.db.(proposals := s.db.proposals[id := row]))
  }

  /** MergeProposal up to and including the read of the row. */
  function DoOpenMerge(s: Sys, call: nat, actor: Actor, id: nat): Sys {
    var role := EffectiveRole(s.members, actor);
    if call in s.calls || !Can(role, ProposalMerge) || id !in s.db.proposals ||
        s.db.proposals[id].status == Merged then s
    else s.(calls := s.calls[call := ToMerge(actor, role, id, s.db.proposals[id])])
  }

  function End(s: Sys, call: nat): Sys {
    s.(calls := s.calls - {call})
  }

  /** Git.Merge of the row's branch; other is the commit git reads in that name when there is no such branch. */
  function DoRunMerge(s: Sys, call: nat, other: Option<nat>, lines: LineMerge): Sys {
    if call !in s.calls || !s.calls[call].ToMerge? then s
    else
      var c := s.calls[call];
      var (repo, result) := GitMerge(s.repo, c.row.branch, other, lines);
      if result.MergeFailed? then End(s, call)
      else
        var tip := LookUp(s.repo, c.row.branch, other).value;
        s.(repo := repo, calls := s.calls[call := ToResolve(c.id, c.row, result, tip)],
           log := if result.MergedAt? then s.log.(pending := s.log.pending - Included(s.repo, tip)) else s.log)
  }

  /** ResolveProposal, whose error is ignored. */
  function DoResolve(s: Sys, call: nat, dbOk: bool): Sys {
    if call !in s.calls || !s.calls[call].ToResolve? then s
    else
      var c := s.calls[call];
      if c.result.Conflicted? then
        End(if dbOk then s.(db := ResolveRow(s.db, c.id, Conflicting, c.result.paths)) else s, call)
      else if dbOk then
        s.(db := ResolveRow(s.db, c.id, Merged, {}), calls := s.calls[call := ToDrop(c.row)],
           log := s.log.(taken := s.log.taken[c.id := c.tip]))
      else s.(calls := s.calls[call := ToDrop(c.row)])
  }

  /** DeleteBranch, whose error is ignored. */
  function DoDrop(s: Sys, call: nat): Sys {
    if call !in s.calls || !s.calls[call].ToDrop? then s
    else End(s.(repo := GitDelete(s.repo, s.calls[call].row.branch).0), call)
  }

  /** ReleaseArtifact up to the choice of the next version; listing is what Versions returned. */
  ghost function DoOpenRelease(s: Sys, call: nat, actor: Actor, artifact: string, kind: string,
                               listing: seq<string>): Sys {
    if call in s.calls || !Can(EffectiveRole(s.members, actor), ReleaseCreate)
       || !Lists(listing, VersionTexts(s.repo, artifact)) then s
    else match Bump(Latest(listing).GetOr(ZERO), kind)
      case None => s
      case Some(next) => s.(calls := s.calls[call := ToTag(artifact, next)])
  }

  function DoRunTag(s: Sys, call: nat): Sys {
    if call !in s.calls || !s.calls[call].ToTag? then s
    else
      var c := s.calls[call];
      var (repo, ok) := GitTag(s.repo, c.artifact, String(c.next));
      if !ok then End(s, call)
      else s.(repo := repo, calls := s.calls[call := ToRecord(c.artifact, c.next)],
              log := s.log.(tagged := s.log.tagged + [(c.artifact, c.next)]))
  }

  /** CreateRelease; a unique violation or another error ends the call. */
  function RecordVersion(s: Sys, call: nat, artifact: string, version: string, dbOk: bool): Sys {
    var rows := if dbOk then CreateReleaseRow(s.db, artifact, version) else None;
    End(if rows.Some? then s.(db := rows.value) else s, call)
  }

  function DoRecord(s: Sys, call: nat, dbOk: bool): Sys {
    if call !in s.calls || !s.calls[call].ToRecord? then s
    else RecordVersion(s, call, s.calls[call].artifact, String(s.calls[call].next), dbOk)
  }

  /** One EnsureRelease of fsck, for a tag it listed earlier; tags never go away. */
  function DoRepair(s: Sys, artifact: string, version: string): Sys {
    if TagName(artifact, version) !in s.repo.tags then s
    else s.(db := EnsureReleaseRow(s.db, artifact, version).0)
  }

  // What a release is computed from

  /** Some tag of the artifact has a text that parses to this version. */
  ghost predicate HasVersion(r: Repo, artifact: string, v: Version) {
    exists text :: TagName(artifact, text) in r.tags && Parse(text) == Some(v)
  }

  /** The highest version among the tags of the artifact, or 0.0.0 when there is none. */
  ghost predicate IsCurrent(r: Repo, artifact: string, cur: Version) {
    || (HasVersion(r, artifact, cur) && forall v :: HasVersion(r, artifact, v) ==> v == cur || Less(v, cur))
    || (cur == Version(0, 0, 0) && forall v :: !HasVersion(r, artifact, v))
  }

  lemma ListingShows(r: Repo, artifact: string, listing: seq<string>, v: Version)
    requires Lists(listing, VersionTexts(r, artifact))
    ensures Parses(listing, v) <==> HasVersion(r, artifact, v)
  {
    hide Parse, TagName;
    if Parses(listing, v) {
      var text :| text in listing && Parse(text) == Some(v);
      assert TagName(artifact, text) in r.tags;
    }
    if HasVersion(r, artifact, v) {
      var text :| TagName(artifact, text) in r.tags && Parse(text) == Some(v);
      assert text in VersionTexts(r, artifact) && text in listing;
    }
  }

  /** What the list of version texts gives is the current version. */
  lemma LatestIsCurrent(r: Repo, artifact: string, listing: seq<string>)
    requires Lists(listing, VersionTexts(r, artifact))
    ensures IsCurrent(r, artifact, Latest(listing).GetOr(ZERO))
  {
    hide Parse, TagName, Lists, VersionTexts, Latest, Less, HasVersion, Parses;
    LatestIsMaximum(listing);
    forall v ensures Parses(listing, v) <==> HasVersion(r, artifact, v) {
      ListingShows(r, artifact, listing, v);
    }
  }

  /** A release call opens exactly for those who may release, with one of the three texts, and goes for the version that
      follows the current one. */
  lemma ReleaseOpens(s: Sys, call: nat, actor: Actor, artifact: string, kind: string, listing: seq<string>)
    requires call !in s.calls && Lists(listing, VersionTexts(s.repo, artifact))
    ensures var t := DoOpenRelease(s, call, actor, artifact, kind, listing);
            if MaySteer(s.members, actor) && (kind == "major" || kind == "minor" || kind == "patch") then
              && call in t.calls && t == s.(calls := s.calls[call := t.calls[call]])
              && t.calls[call].ToTag? && t.calls[call].artifact == artifact
              && exists cur :: IsCurrent(s.repo, artifact, cur) && Follows(cur, kind, t.calls[call].next)
            else t == s
  {
    hide Can, EffectiveRole, IsGiven, Lists, VersionTexts, Latest, IsCurrent, Bump, Follows;
    GateExactly(s.members, actor);
    LatestIsCurrent(s.repo, artifact, listing);
    BumpFollows(Latest(listing).GetOr(ZERO), kind);
  }

  // The steps of a merge call, apart from the log

  lemma RunMergeMeans(s: Sys, call: nat, other: Option<nat>, lines: LineMerge)
    ensures var t := DoRunMerge(s, call, other, lines);
            if call !in s.calls || !s.calls[call].ToMerge? then t == s
            else
              var c := s.calls[call];
              var (repo, result) := GitMerge(s.repo, c.row.branch, other, lines);
              && t.db == s.db
              && if result.MergeFailed? then t.repo == s.repo && t.calls == s.calls - {call}
                 else
                   && t.repo == repo && call in t.calls && t.calls == s.calls[call := t.calls[call]]
                   && t.calls[call].ToResolve? && t.calls[call].id == c.id && t.calls[call].row == c.row
                   && t.calls[call].result == result
  {
    hide GitMerge, LookUp, Included;
  }

  lemma ResolveMeans(s: Sys, call: nat, dbOk: bool)
    ensures var t := DoResolve(s, call, dbOk);
            if call !in s.calls || !s.calls[call].ToResolve? then t == s
            else
              var c := s.calls[call];
              && t.repo == s.repo
              && if c.result.Conflicted? then
                   && t.db == (if dbOk then ResolveRow(s.db, c.id, Conflicting, c.result.paths) else s.db)
                   && t.calls == s.calls - {call}
                 else
                   && t.db == (if dbOk then ResolveRow(s.db, c.id, Merged, {}) else s.db)
                   && t.calls == s.calls[call := ToDrop(c.row)]
  {
    hide ResolveRow;
  }

  lemma DropMeans(s: Sys, call: nat)
    ensures var t := DoDrop(s, call);
            if call !in s.calls || !s.calls[call].ToDrop? then t == s
            else t.repo == GitDelete(s.repo, s.calls[call].row.branch).0 && t.db == s.db
  {
    hide GitDelete;
  }

  ghost function Apply(s: Sys, step: Step, lines: LineMerge): Sys {
    match step
    case Write(actor, artifact, files, fallback) => DoWrite(s, actor, artifact, files, fallback)
    case Propose(actor, artifact, id) => DoPropose(s, actor, artifact, id)
    case OpenMerge(call, actor, id) => DoOpenMerge(s, call, actor, id)
    case RunMerge(call, other) => DoRunMerge(s, call, other, lines)
    case Resolve(call, dbOk) => DoResolve(s, call, dbOk)
    case Drop(call) => DoDrop(s, call)
    case OpenRelease(call, actor, artifact, kind, listing) => DoOpenRelease(s, call, actor, artifact, kind, listing)
    case RunTag(call) => DoRunTag(s, call)
    case Record(call, dbOk) => DoRecord(s, call, dbOk)
    case Repair(artifact, version) => DoRepair(s, artifact, version)
    case Crash(call) => End(s, call)
    case SetRole(username, role) => s.(members := s.members[username := role])
  }

  /** A run: the states, the steps between them, each possibly without effect, and the line merger. */
  datatype Run = Run(states: seq<Sys>, steps: seq<Step>, lines: LineMerge) {
    ghost predicate Stepped(k: nat)
      requires |states| == |steps| + 1 && k < |steps|
    {
      states[k + 1] == Apply(states[k], steps[k], lines)
    }

    /** From an empty project, over fewer than 2^63 steps. */
    ghost predicate Valid() {
      && |states| == |steps| + 1 && |steps| < MAX_INT
      && states[0] == Init(states[0].solo, states[0].members)
      && forall k :: 0 <= k < |steps| ==> Stepped(k)
    }
  }
}
