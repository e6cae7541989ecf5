/** The service calls as they run: role, gate, git first, tables second. Each method ends in the state that the
    same steps of the step machine lead to, also when the process dies on the way. */
module Core {
  import opened Wrappers
  import opened Paths
  import opened FileTree
  import opened Repos
  import opened Semver
  import opened Authz
  import opened Tables
  import opened Service
  import opened GitStores
  import opened Stores

  datatype WriteOutcome = WriteDenied | WriteFailed | Written(sha: nat, branch: string, toMain: bool)
  datatype ProposeOutcome = ProposeDenied | SoloMode | Proposed(branch: string)
  datatype MergeOutcome = MergeDenied | NotFound | NotOpen | GitError | Done(sha: nat) |
      HitConflicts(paths: set<Path>) | MergeDied
  datatype ReleaseOutcome = ReleaseDenied | BadKind | TagRefused | RowFailed | Released(version: Version) | ReleaseDied

  /** Where the process dies during a merge call, if it does. */
  datatype MergeCut = BeforeMerge | AfterMerge | AfterResolve | MergeUncut
  datatype ReleaseCut = BeforeTag | AfterTag | ReleaseUncut

  /** The steps of a merge call up to the cut. */
  ghost function MergeCall(s: Sys, actor: Actor, id: nat, other: Option<nat>, lines: LineMerge, cut: MergeCut,
                           resolveOk: bool): Sys {
    var begun := DoOpenMerge(s, 0, actor, id);
    if cut == BeforeMerge then begun
    else
      var merged := DoRunMerge(begun, 0, other, lines);
      if cut == AfterMerge then merged
      else
        var resolved := DoResolve(merged, 0, resolveOk);
        if cut == AfterResolve then resolved else DoDrop(resolved, 0)
  }

  /** The steps of a release call up to the cut, with the version list it read. */
  ghost function ReleaseCall(s: Sys, actor: Actor, artifact: string, kind: string, listing: seq<string>,
                             cut: ReleaseCut, recordOk: bool): Sys {
    var begun := DoOpenRelease(s, 0, actor, artifact, kind, listing);
    if cut == BeforeTag then begun
    else
      var tagged := DoRunTag(begun, 0);
      if cut == AfterTag then tagged else DoRecord(tagged, 0, recordOk)
  }

  /** A merge call on its own, step by step on the repository and the tables. */
  lemma MergeCallMeans(s: Sys, actor: Actor, id: nat, other: Option<nat>, lines: LineMerge, cut: MergeCut,
                       resolveOk: bool)
    requires s.calls == map[]
    ensures var end := MergeCall(s, actor, id, other, lines, cut, resolveOk);
            if !Can(EffectiveRole(s.members, actor), ProposalMerge) || id !in s.db.proposals
               || s.db.proposals[id].status == Merged || cut == BeforeMerge
            then end.repo == s.repo && end.db == s.db
            else
              var branch := s.db.proposals[id].branch;
              var (repo, result) := GitMerge(s.repo, branch, other, lines);
              match result
              case MergeFailed => end.repo == s.repo && end.db == s.db
              case Conflicted(paths) =>
                && end.repo == repo
                && end.db == if cut == AfterMerge || !resolveOk then s.db else ResolveRow(s.db, id, Conflicting, paths)
              case MergedAt(_) =>
                && end.repo == (if cut == MergeUncut then GitDelete(repo, branch).0 else repo)
                && end.db == if cut == AfterMerge || !resolveOk then s.db else ResolveRow(s.db, id, Merged, {})
  {
    hide GitMerge, GitDelete, Can, EffectiveRole, ResolveRow, DoRunMerge, DoResolve, DoDrop;
    var begun := DoOpenMerge(s, 0, actor, id);
    RunMergeMeans(begun, 0, other, lines);
    var merged := DoRunMerge(begun, 0, other, lines);
    if cut == AfterResolve || cut == MergeUncut {
      ResolveMeans(merged, 0, resolveOk);
      DropMeans(DoResolve(merged, 0, resolveOk), 0);
    }
  }

  /** What a release call leaves behind, given the newest version it saw. */
  function ReleaseEffect(s: Sys, actor: Actor, artifact: string, kind: string, newest: Option<Version>,
                         cut: ReleaseCut, recordOk: bool): (Repo, Rows) {
    var bumped := Bump(newest.GetOr(ZERO), kind);
    if !Can(EffectiveRole(s.members, actor), ReleaseCreate) || bumped.None? || cut == BeforeTag then (s.repo, s.db)
    else
      var version := String(bumped.value);
      var (repo, ok) := GitTag(s.repo, artifact, version);
      var rows := CreateReleaseRow(s.db, artifact, version);
      if !ok then (s.repo, s.db)
      else (repo, if cut == AfterTag || !recordOk || rows.None? then s.db else rows.value)
  }

  /** The release call ends with this repository and these rows, whatever order the tags were listed in. */
  ghost predicate ReleaseEnds(s: Sys, actor: Actor, artifact: string, kind: string, cut: ReleaseCut, recordOk: bool,
                              repo: Repo, db: Rows) {
    forall listing :: Lists(listing, VersionTexts(s.repo, artifact)) ==>
      var end := ReleaseCall(s, actor, artifact, kind, listing, cut, recordOk);
      end.repo == repo && end.db == db
  }

  lemma ReleaseCallMeans(s: Sys, actor: Actor, artifact: string, kind: string, listing: seq<string>, cut: ReleaseCut,
                         recordOk: bool)
    requires s.calls == map[] && Lists(listing, VersionTexts(s.repo, artifact))
    ensures var end := ReleaseCall(s, actor, artifact, kind, listing, cut, recordOk);
            (end.repo, end.db) == ReleaseEffect(s, actor, artifact, kind, Latest(listing), cut, recordOk)
  {
    hide Can, Lists, VersionTexts, String, Latest, GitTag, CreateReleaseRow, Bump, EffectiveRole, RepoData.WellFormed;
  }

  lemma ReleaseEndsAs(s: Sys, actor: Actor, artifact: string, kind: string, versions: seq<string>, cut: ReleaseCut,
                      recordOk: bool)
    requires s.calls == map[] && Lists(versions, VersionTexts(s.repo, artifact))
    ensures var (repo, db) := ReleaseEffect(s, actor, artifact, kind, Latest(versions), cut, recordOk);
            ReleaseEnds(s, actor, artifact, kind, cut, recordOk, repo, db)
  {
    hide ReleaseCall, ReleaseEffect, VersionTexts, Latest;
    forall listing | Lists(listing, VersionTexts(s.repo, artifact))
      ensures var end := ReleaseCall(s, actor, artifact, kind, listing, cut, recordOk);
              (end.repo, end.db) == ReleaseEffect(s, actor, artifact, kind, Latest(versions), cut, recordOk)
    {
      LatestDependsOnParsedSet(listing, versions);
      ReleaseCallMeans(s, actor, artifact, kind, listing, cut, recordOk);
    }
  }

  lemma ReleaseDeniedChangesNothing(s: Sys, actor: Actor, artifact: string, kind: string, cut: ReleaseCut,
                                    recordOk: bool)
    requires !Can(EffectiveRole(s.members, actor), ReleaseCreate) && s.calls == map[]
    ensures ReleaseEnds(s, actor, artifact, kind, cut, recordOk, s.repo, s.db)
  {
    hide Can, VersionTexts, Latest, Bump;
  }

  // What the calls answer, case by case

  /** A permitted write goes to main on a solo project and to the caller's own branch elsewhere, moves nothing else, and
      every file but one called "." reads back. */
  ghost predicate WriteAnswers(solo: bool, members: Memberships, actor: Actor, artifact: string, files: seq<File>,
                               cloneFails: bool, r: Repo, s: Repo, res: WriteOutcome) {
    var branch := if solo then "main" else "u/" + actor.username + "/" + artifact;
    match res
    case WriteDenied => !MayWork(members, actor) && s == r
    case WriteFailed => MayWork(members, actor) && s == r && GitWrite(r, branch, artifact, files, cloneFails).1.None?
    case Written(sha, b, toMain) =>
      && MayWork(members, actor) && b == branch && toMain == solo
      && s.heads == r.heads[branch := sha] && s.tags == r.tags && |r.commits| == sha < |s.commits|
      && (!solo ==> s.heads["main"] == r.heads["main"])
      && forall i :: 0 <= i < |files| && Lands(artifact, files, i) && files[i].path != "." ==>
           Show(s, sha, artifact, files[i].path) == Some(files[i].content)
  }

  ghost predicate ProposeAnswers(solo: bool, members: Memberships, actor: Actor, artifact: string, id: nat, t: Rows,
                                 u: Rows, res: ProposeOutcome) {
    match res
    case ProposeDenied => !MayWork(members, actor) && u == t
    case SoloMode => MayWork(members, actor) && solo && u == t
    case Proposed(branch) =>
      && MayWork(members, actor) && !solo && branch == "u/" + actor.username + "/" + artifact
      && u.releases == t.releases
      && u.proposals == t.proposals[id := Proposal(artifact, branch, actor.username, Open, {}, |t.proposals|)]
  }

  /** Refusals in the order of the checks; then what git says, and what is booked of it. */
  ghost predicate MergeAnswers(members: Memberships, actor: Actor, id: nat, other: Option<nat>, lines: LineMerge,
                               cut: MergeCut, resolveOk: bool, r: Repo, t: Rows, s: Repo, u: Rows,
                               res: MergeOutcome) {
    if !MaySteer(members, actor) then res == MergeDenied && s == r && u == t
    else if id !in t.proposals then res == NotFound && s == r && u == t
    else if t.proposals[id].status == Merged then res == NotOpen && s == r && u == t
    else if cut == BeforeMerge then res == MergeDied && s == r && u == t
    else
      var row := t.proposals[id];
      var (merged, result) := GitMerge(r, row.branch, other, lines);
      match result
      case MergeFailed => res == GitError && s == r && u == t
      case Conflicted(paths) =>
        && s == r && paths != {}
        && if cut == AfterMerge then res == MergeDied && u == t
           else
             && res == HitConflicts(paths)
             && u == if resolveOk then Booked(t, id, row.(status := Conflicting, conflicts := paths)) else t
      case MergedAt(sha) =>
        if cut == AfterMerge then res == MergeDied && s == merged && u == t
        else
          && u == (if resolveOk then Booked(t, id, row.(status := Merged, conflicts := {})) else t)
          && if cut == AfterResolve then res == MergeDied && s == merged
             else
               && res == Done(sha) && s.heads["main"] == sha
               && s.commits == merged.commits && s.tags == merged.tags
               && s.heads == merged.heads - ({row.branch} - {"main"})
  }

  /** What the caller hears, from the state at the start. */
  ghost function MergeAnswer(s: Sys, actor: Actor, id: nat, other: Option<nat>, lines: LineMerge, cut: MergeCut):
    MergeOutcome
  {
    if !Can(EffectiveRole(s.members, actor), ProposalMerge) then MergeDenied
    else if id !in s.db.proposals then NotFound
    else if s.db.proposals[id].status == Merged then NotOpen
    else if cut == BeforeMerge then MergeDied
    else match GitMerge(s.repo, s.db.proposals[id].branch, other, lines).1
      case MergeFailed => GitError
      case Conflicted(paths) => if cut == AfterMerge then MergeDied else HitConflicts(paths)
      case MergedAt(sha) => if cut == MergeUncut then Done(sha) else MergeDied
  }

  lemma MergeCallAnswers(s: Sys, actor: Actor, id: nat, other: Option<nat>, lines: LineMerge, cut: MergeCut,
                         resolveOk: bool)
    requires s.calls == map[]
    ensures var end := MergeCall(s, actor, id, other, lines, cut, resolveOk);
            MergeAnswers(s.members, actor, id, other, lines, cut, resolveOk, s.repo, s.db, end.repo, end.db,
                         MergeAnswer(s, actor, id, other, lines, cut))
  {
    hide GitMerge, MergeCall, Can, EffectiveRole, MaySteer;
    GateExactly(s.members, actor);
    MergeCallMeans(s, actor, id, other, lines, cut, resolveOk);
    if id in s.db.proposals {
      MergeResultMeans(s.repo, s.db.proposals[id].branch, other, lines);
    }
  }

  function Booked(t: Rows, id: nat, row: Proposal): Rows {
    t.(proposals := t.proposals[id := row])
  }

  /** The release of version next, from the tag on. */
  ghost predicate TagAnswers(artifact: string, next: Version, cut: ReleaseCut, recordOk: bool, r: Repo, t: Rows,
                             s: Repo,
                             u: Rows, res: ReleaseOutcome) {
    var text := String(next);
    var tag := "artifacts/" + artifact + "/" + text;
    if cut == BeforeTag then res == ReleaseDied && s == r && u == t
    else if tag in r.tags || !RefNameOk(tag) then res == TagRefused && s == r && u == t
    else
      && s == Repo(r.commits, r.heads, r.tags[tag := r.heads["main"]])
      && if cut == AfterTag then res == ReleaseDied && u == t
         else if !recordOk || HasRelease(t.releases, artifact, text) then res == RowFailed && u == t
         else
           && res == Released(next)
           && u == t.(releases := t.releases + [Release(artifact, text, tag, false, |t.releases|)])
  }

  /** Refusals in the order of the checks; then the release of the version that follows the current one. */
  ghost predicate ReleaseAnswers(members: Memberships, actor: Actor, artifact: string, kind: string, cut: ReleaseCut,
                                 recordOk: bool, r: Repo, t: Rows, s: Repo, u: Rows, res: ReleaseOutcome) {
    if !MaySteer(members, actor) then res == ReleaseDenied && s == r && u == t
    else if kind != "major" && kind != "minor" && kind != "patch" then res == BadKind && s == r && u == t
    else
      exists cur, next :: IsCurrent(r, artifact, cur) && Follows(cur, kind, next) &&
                          TagAnswers(artifact, next, cut, recordOk, r, t, s, u, res)
  }

  /** What the caller hears, given the newest version the call saw. */
  ghost function ReleaseAnswer(s: Sys, actor: Actor, artifact: string, kind: string, newest: Option<Version>,
                               cut: ReleaseCut, recordOk: bool): ReleaseOutcome {
    var bumped := Bump(newest.GetOr(ZERO), kind);
    if !Can(EffectiveRole(s.members, actor), ReleaseCreate) then ReleaseDenied
    else if bumped.None? then BadKind
    else if cut == BeforeTag then ReleaseDied
    else if !GitTag(s.repo, artifact, String(bumped.value)).1 then TagRefused
    else if cut == AfterTag then ReleaseDied
    else if !recordOk || HasRelease(s.db.releases, artifact, String(bumped.value)) then RowFailed
    else Released(bumped.value)
  }

  lemma ReleaseCallAnswers(s: Sys, actor: Actor, artifact: string, kind: string, versions: seq<string>,
                           cut: ReleaseCut, recordOk: bool)
    requires Lists(versions, VersionTexts(s.repo, artifact))
    ensures var (repo, db) := ReleaseEffect(s, actor, artifact, kind, Latest(versions), cut, recordOk);
            ReleaseAnswers(s.members, actor, artifact, kind, cut, recordOk, s.repo, s.db, repo, db,
                           ReleaseAnswer(s, actor, artifact, kind, Latest(versions), cut, recordOk))
  {
    hide Can, EffectiveRole, MaySteer, Lists, VersionTexts, Latest, Bump, IsCurrent, Follows, TagAnswers, GitTag;
    hide CreateReleaseRow, HasRelease, String;
    GateExactly(s.members, actor);
    LatestIsCurrent(s.repo, artifact, versions);
    var cur := Latest(versions).GetOr(ZERO);
    BumpFollows(cur, kind);
    if MaySteer(s.members, actor) && Bump(cur, kind).Some? {
      var (repo, db) := ReleaseEffect(s, actor, artifact, kind, Latest(versions), cut, recordOk);
      TagCallAnswers(s, actor, artifact, kind, Latest(versions), cut, recordOk);
      assert IsCurrent(s.repo, artifact, cur) && Follows(cur, kind, Bump(cur, kind).value);
    }
  }

  lemma DeniedAnswers(s: Sys, actor: Actor, artifact: string, kind: string, cut: ReleaseCut, recordOk: bool)
    requires !Can(EffectiveRole(s.members, actor), ReleaseCreate)
    ensures ReleaseAnswers(s.members, actor, artifact, kind, cut, recordOk, s.repo, s.db, s.repo, s.db, ReleaseDenied)
  {
    hide Can, EffectiveRole, MaySteer;
    GateExactly(s.members, actor);
  }

  lemma TagCallAnswers(s: Sys, actor: Actor, artifact: string, kind: string, newest: Option<Version>,
                       cut: ReleaseCut, recordOk: bool)
    requires Can(EffectiveRole(s.members, actor), ReleaseCreate) && Bump(newest.GetOr(ZERO), kind).Some?
    ensures var (repo, db) := ReleaseEffect(s, actor, artifact, kind, newest, cut, recordOk);
            TagAnswers(artifact, Bump(newest.GetOr(ZERO), kind).value, cut, recordOk, s.repo, s.db, repo, db,
                       ReleaseAnswer(s, actor, artifact, kind, newest, cut, recordOk))
  {
    hide Can, EffectiveRole, Bump, HasRelease, String, RefNameOk;
  }

  /** A slug can always be released as long as the component to bump has room: the tag is free and legal. */
  lemma SlugReleasesGoThrough(r: Repo, artifact: string, cur: Version, kind: string, next: Version)
    requires IsSlug(artifact) && IsCurrent(r, artifact, cur) && Follows(cur, kind, next)
    ensures cur.NonNegative()
    ensures var bumped := if kind == "major" then cur.major else if kind == "minor" then cur.minor else cur.patch;
            var tag := TagName(artifact, String(next));
            bumped < MAX_INT ==> tag !in r.tags && RefNameOk(tag)
  {
    hide Parse, String, TagName, RefNameOk;
    CurrentIsNatural(r, artifact, cur);
    SlugTagIsLegal(artifact, next);
    if TagName(artifact, String(next)) in r.tags && next.NonNegative() {
      ParseString(next);
      assert HasVersion(r, artifact, next);
    }
  }

  lemma CurrentIsNatural(r: Repo, artifact: string, cur: Version)
    requires IsCurrent(r, artifact, cur)
    ensures cur.NonNegative()
  {
    hide Parse, TagName, Less;
    if HasVersion(r, artifact, cur) {
      var text :| TagName(artifact, text) in r.tags && Parse(text) == Some(cur);
      ParseOnlyMatches(text);
    }
  }

  lemma SlugTagIsLegal(artifact: string, v: Version)
    requires IsSlug(artifact)
    ensures RefNameOk(TagName(artifact, String(v)))
  {
    hide String, RefChar;
    StringIsPlain(v);
    var head, text := "artifacts/", String(v);
    assert forall i :: 0 <= i < |head| ==> RefChar(head[i]) by { HeadIsPlain(); }
    forall c: char | SlugChar(c) || c == '-' || c == '/' ensures RefChar(c) {
      PlainIsLegal(c);
    }
    assert RefChar('/') by { PlainIsLegal('/'); }
  }

  lemma HeadIsPlain()
    ensures var head := "artifacts/"; forall i :: 0 <= i < |head| ==> RefChar(head[i])
  {
  }

  lemma PlainIsLegal(c: char)
    requires SlugChar(c) || c == '-' || c == '/' || c == '.'
    ensures RefChar(c)
  {
  }

  lemma StringIsPlain(v: Version)
    ensures forall i :: 0 <= i < |String(v)| ==> RefChar(String(v)[i])
  {
    hide NatText, Value;
  }

  class Core {
    const git: GitStore
    const db: Store

    constructor (git: GitStore, db: Store)
      ensures this.git == git && this.db == db
    {
      this.git, this.db := git, db;
    }

    ghost predicate Knows(p: Project)
      reads git, db
    {
      p.path in git.repos && p.id in db.tables && p.id in db.members && git.LocksDistinct()
    }

    /** The project as the step machine sees it, with no call in progress. */
    ghost function View(p: Project): Sys
      requires Knows(p)
      reads git, db
    {
      Sys(p.solo, git.repos[p.path], db.tables[p.id], db.members[p.id], map[], Log({}, {}, map[], []))
    }

    method WriteArtifact(p: Project, actor: Actor, artifact: string, files: seq<File>, cloneFails: bool)
      returns (res: WriteOutcome)
      requires Knows(p)
      modifies git
      ensures Knows(p)
      ensures git.repos == old(git.repos)[p.path := DoWrite(old(View(p)), actor, artifact, files, cloneFails).repo]
      ensures WriteAnswers(p.solo, db.members[p.id], actor, artifact, files, cloneFails, old(git.repos[p.path]),
                           git.repos[p.path], res)
      ensures !res.Written? ==> git.repos == old(git.repos)
    {
      hide GitWrite, Can, EffectiveRole, MayWork, Lands, Show;
      GateExactly(db.members[p.id], actor);
      assert git.repos == git.repos[p.path := git.repos[p.path]];
      var role := EffectiveRole(db.members[p.id], actor);
      if !Can(role, ArtifactWrite) {
        return WriteDenied;
      }
      var branch := MAIN;
      if !p.solo {
        branch := ProposalBranch(actor.username, artifact);
      }
      ghost var before: Repo := git.repos[p.path];
      var sha := git.WriteFiles(p.path, branch, artifact, files, cloneFails);
      WriteMovesBranch(before, branch, artifact, files, cloneFails);
      BranchIsNotMain(actor.username, artifact);
      res := if sha.None? then WriteFailed else Written(sha.value, branch, branch == MAIN);
    }

    method ProposeMerge(p: Project, actor: Actor, artifact: string, id: nat) returns (res: ProposeOutcome)
      requires Knows(p) && id !in db.tables[p.id].proposals
      modifies db`tables
      ensures Knows(p)
      ensures db.tables == old(db.tables)[p.id := DoPropose(old(View(p)), actor, artifact, id).db]
      ensures ProposeAnswers(p.solo, db.members[p.id], actor, artifact, id, old(db.tables[p.id]), db.tables[p.id], res)
    {
      hide Can, EffectiveRole, MayWork;
      GateExactly(db.members[p.id], actor);
      assert db.tables == db.tables[p.id := db.tables[p.id]];
      var role := EffectiveRole(db.members[p.id], actor);
      if !Can(role, ProposalCreate) {
        return ProposeDenied;
      }
      if p.solo {
        return SoloMode;
      }
      var branch := ProposalBranch(actor.username, artifact);
      db.CreateProposal(p.id, artifact, branch, actor.username, id);
      res := Proposed(branch);
    }

    method MergeProposal(p: Project, actor: Actor, id: nat, other: Option<nat>, lines: LineMerge, cut: MergeCut,
                         resolveOk: bool)
      returns (res: MergeOutcome)
      requires Knows(p)
      modifies git, db`tables
      ensures Knows(p)
      ensures git.repos == old(git.repos)[p.path :=
          MergeCall(old(View(p)), actor, id, other, lines, cut, resolveOk).repo]
      ensures db.tables == old(db.tables)[p.id := MergeCall(old(View(p)), actor, id, other, lines, cut, resolveOk).db]
      ensures MergeAnswers(db.members[p.id], actor, id, other, lines, cut, resolveOk, old(git.repos[p.path]),
                           old(db.tables[p.id]), git.repos[p.path], db.tables[p.id], res)
    {
      hide GitMerge, GitDelete, Can, EffectiveRole, ResolveRow, MergeCall, MergeAnswers;
      MergeCallAnswers(View(p), actor, id, other, lines, cut, resolveOk);
      MergeCallMeans(View(p), actor, id, other, lines, cut, resolveOk);
      assert git.repos == git.repos[p.path := git.repos[p.path]];
      assert db.tables == db.tables[p.id := db.tables[p.id]];
      var role := EffectiveRole(db.members[p.id], actor);
      if !Can(role, ProposalMerge) {
        return MergeDenied;
      }
      if id !in db.tables[p.id].proposals {
        return NotFound;
      }
      var row := db.tables[p.id].proposals[id];
      if row.status != Open && row.status != Conflicting {
        return NotOpen;
      }
      if cut == BeforeMerge {
        return MergeDied;
      }
      ghost var before: Repo := git.repos[p.path];
      var result := git.Merge(p.path, row.branch, other, lines);
      MergeResultMeans(before, row.branch, other, lines);
      if result.MergeFailed? {
        return GitError;
      }
      if cut == AfterMerge {
        return MergeDied;
      }
      if result.Conflicted? {
        if resolveOk {
          db.ResolveProposal(p.id, id, Conflicting, result.paths);
        }
        return HitConflicts(result.paths);
      }
      if resolveOk {
        db.ResolveProposal(p.id, id, Merged, {});
      }
      if cut == AfterResolve {
        return MergeDied;
      }
      var deleted := git.DeleteBranch(p.path, row.branch);
      DeleteKeepsMain(GitMerge(before, row.branch, other, lines).0, row.branch);
      res := Done(result.sha);
    }

    method ReleaseArtifact(p: Project, actor: Actor, artifact: string, kind: string, cut: ReleaseCut, recordOk: bool)
      returns (res: ReleaseOutcome)
      requires Knows(p)
      modifies git, db`tables
      ensures Knows(p)
      ensures git.repos == old(git.repos)[p.path := git.repos[p.path]] &&
          db.tables == old(db.tables)[p.id := db.tables[p.id]]
      ensures ReleaseEnds(old(View(p)), actor, artifact, kind, cut, recordOk, git.repos[p.path], db.tables[p.id])
      ensures ReleaseAnswers(db.members[p.id], actor, artifact, kind, cut, recordOk, old(git.repos[p.path]),
                             old(db.tables[p.id]), git.repos[p.path], db.tables[p.id], res)
    {
      hide HasRelease, ReleaseAnswers;
      hide Can, EffectiveRole, Lists, VersionTexts, String, Latest, Bump, RefNameOk, CreateReleaseRow, ReleaseEnds;
      assert git.repos == git.repos[p.path := git.repos[p.path]];
      assert db.tables == db.tables[p.id := db.tables[p.id]];
      var role := EffectiveRole(db.members[p.id], actor);
      if !Can(role, ReleaseCreate) {
        assert ReleaseEnds(View(p), actor, artifact, kind, cut, recordOk, git.repos[p.path], db.tables[p.id]) by {
          ReleaseDeniedChangesNothing(View(p), actor, artifact, kind, cut, recordOk);
        }
        DeniedAnswers(View(p), actor, artifact, kind, cut, recordOk);
        return ReleaseDenied;
      }
      var versions := git.Versions(p.path, artifact);
      var cur, ok := LatestLoop(versions);
      if !ok {
        cur := ZERO;
      }
      ReleaseEndsAs(View(p), actor, artifact, kind, versions, cut, recordOk);
      ReleaseCallAnswers(View(p), actor, artifact, kind, versions, cut, recordOk);
      var next := Bump(cur, kind);
      if next == None {
        return BadKind;
      }
      if cut == BeforeTag {
        return ReleaseDied;
      }
      ok := git.Tag(p.path, artifact, String(next.value));
      if !ok {
        return TagRefused;
      }
      if cut == AfterTag {
        return ReleaseDied;
      }
      if !recordOk {
        return RowFailed;
      }
      ok := db.CreateRelease(p.id, artifact, String(next.value));
      res := if ok then Released(next.value) else RowFailed;
    }
  }

  lemma WriteMovesBranch(r: Repo, branch: string, artifact: string, files: seq<File>, fallback: bool)
    ensures var (s, sha) := GitWrite(r, branch, artifact, files, fallback);
            if sha.None? then s == r
            else
              && sha.value == |r.commits| < |s.commits| && s.heads == r.heads[branch := sha.value] && s.tags == r.tags
              && forall i :: 0 <= i < |files| && Lands(artifact, files, i) && files[i].path != "." ==>
                   Show(s, sha.value, artifact, files[i].path) == Some(files[i].content)
  {
    hide GitWrite, FullPath, Joined, Split, ValidRelPath, Lands, RoomFor;
    WriteMeans(r, branch, artifact, files, fallback);
    var (s, sha) := GitWrite(r, branch, artifact, files, fallback);
    if sha.Some? {
      CheckedExactly(artifact, files);
      forall i | 0 <= i < |files| && Lands(artifact, files, i) && files[i].path != "."
        ensures Show(s, sha.value, artifact, files[i].path) == Some(files[i].content)
      {
        FullPathStaysUnder(artifact, files[i].path);
        SplitJoined(artifact, files[i].path);
      }
    }
  }

  lemma BranchIsNotMain(username: Username, artifact: string)
    ensures ProposalBranch(username, artifact) != MAIN
  {
    ProposalBranchInjective(username, artifact, username, artifact);
  }

  lemma MergeResultMeans(r: Repo, branch: string, other: Option<nat>, lines: LineMerge)
    ensures match GitMerge(r, branch, other, lines)
            case (s, MergeFailed) => s == r
            case (s, Conflicted(paths)) => s == r && paths != {}
            case (s, MergedAt(sha)) => s.heads[MAIN] == sha
  {
    hide ConflictPaths, MergedTree, LookUp;
  }

  lemma DeleteKeepsMain(r: Repo, branch: string)
    ensures GitDelete(r, branch).0.heads[MAIN] == r.heads[MAIN]
  {
  }
}
