/** What every step of every interleaving keeps. */
module Invariants {
  import opened Wrappers
  import opened Paths
  import opened FileTree
  import opened Dag
  import opened Repos
  import opened Semver
  import opened Authz
  import opened Tables
  import opened Service

  // Proposals

  type Proposals = map<nat, Proposal>
  type Calls = map<nat, Call>
  type Tagged = seq<(string, Version)>

  /** A row names the branch of its proposer and artifact. */
  ghost predicate RowOk(p: Proposal) {
    p.branch == ProposalBranch(p.proposer, p.artifact)
  }

  ghost predicate RowsOk(rows: Proposals) {
    forall id :: id in rows ==> RowOk(rows[id])
  }

  /** A row resolved as merged had its branch tip merged: the tip is in main's history. */
  ghost predicate TakenOk(rows: Proposals, taken: map<nat, nat>, trunk: set<nat>) {
    forall id :: id in rows && rows[id].status == Merged ==> id in taken && taken[id] in trunk
  }

  // Releases

  /** Any row of this version was inserted by fsck. */
  ghost predicate OnlyRebuilt(rows: seq<Release>, artifact: string, version: string) {
    forall i :: 0 <= i < |rows| && IsRelease(rows[i], artifact, version) ==> rows[i].rebuilt
  }

  ghost predicate ReleaseOk(r: Release, tags: map<string, nat>) {
    r.tag == TagName(r.artifact, r.version) && r.tag in tags
  }

  /** Every row has its tag, rows are unique and stamped in order. */
  ghost predicate ReleasesOk(rows: seq<Release>, tags: map<string, nat>) {
    && UniqueReleases(rows)
    && forall i :: 0 <= i < |rows| ==> ReleaseOk(rows[i], tags) && rows[i].at == i
  }

  /** No component is above n. */
  ghost predicate Small(v: Version, n: nat) {
    v.NonNegative() && v.major <= n && v.minor <= n && v.patch <= n
  }

  function TagOf(t: (string, Version)): string {
    TagName(t.0, String(t.1))
  }

  ghost predicate Logged(tag: string, tagged: Tagged) {
    exists i :: 0 <= i < |tagged| && tag == TagOf(tagged[i])
  }

  /** The tags are exactly the logged ones, each created once. */
  ghost predicate TagsOk(tags: map<string, nat>, tagged: Tagged) {
    && (forall t :: t in tags ==> Logged(t, tagged))
    && (forall i :: 0 <= i < |tagged| ==> TagOf(tagged[i]) in tags && Small(tagged[i].1, |tagged|))
    && (forall i, j :: 0 <= i < j < |tagged| ==> TagOf(tagged[i]) != TagOf(tagged[j]))
  }

  // Calls

  ghost predicate InOneArtifact(paths: set<Path>) {
    exists artifact :: IsSlug(artifact) && forall p :: p in paths ==> Reports(p, artifact)
  }

  ghost predicate CallOk(c: Call, repo: Repo, releases: seq<Release>, n: nat) {
    match c
    case ToMerge(actor, role, id, row) => RowOk(row) && Can(role, ProposalMerge)
    case ToResolve(id, row, result, tip) =>
      && RowOk(row) && !result.MergeFailed?
      && (result.MergedAt? ==> tip in Trunk(repo))
      && (result.Conflicted? ==> result.paths != {} && InOneArtifact(result.paths))
    case ToDrop(row) => RowOk(row)
    case ToTag(artifact, next) => Small(next, n + 1)
    case ToRecord(artifact, next) =>
      TagName(artifact, String(next)) in repo.tags && OnlyRebuilt(releases, artifact, String(next))
  }

  ghost predicate CallsOk(calls: Calls, repo: Repo, releases: seq<Release>, n: nat) {
    forall c :: c in calls ==> CallOk(calls[c], repo, releases, n)
  }

  /** A tag has one winner: no two calls are about to record the same one. */
  ghost predicate OneWinner(calls: Calls) {
    forall c, d :: c in calls && d in calls && c != d && calls[c].ToRecord? && calls[d].ToRecord? ==>
      TagName(calls[c].artifact, String(calls[c].next)) != TagName(calls[d].artifact, String(calls[d].next))
  }

  // Written work

  /** A proposal branch is ahead of main exactly when it was written since its last clean merge. */
  ghost predicate PendingOk(repo: Repo, pending: set<string>, written: set<(string, nat)>) {
    && (forall b :: b in repo.heads && b != MAIN ==>
          && (repo.heads[b] in Trunk(repo) <==> b !in pending)
          && (b in pending ==> (b, repo.heads[b]) in written))
    && (forall b, c :: (b, c) in written ==> c < |repo.commits| && (b == MAIN ==> c in Trunk(repo)))
  }

  ghost predicate Inv(s: Sys) {
    && Sound(s.repo)
    && RowsOk(s.db.proposals)
    && TakenOk(s.db.proposals, s.log.taken, Trunk(s.repo))
    && ReleasesOk(s.db.releases, s.repo.tags)
    && TagsOk(s.repo.tags, s.log.tagged)
    && CallsOk(s.calls, s.repo, s.db.releases, |s.log.tagged|)
    && OneWinner(s.calls)
    && PendingOk(s.repo, s.log.pending, s.log.written)
  }

  lemma InitInv(solo: bool, members: Memberships)
    ensures Inv(Init(solo, members))
  {
    EmptyIsSound();
  }

  lemma UsernameIsPlain(u: Username)
    ensures NoSlash(u)
  {
  }

  lemma RowBranch(p: Proposal)
    requires RowOk(p)
    ensures IsBranchOf(p.branch, p.artifact) && p.branch != MAIN && NoSlash(p.proposer)
  {
    UsernameIsPlain(p.proposer);
    ProposalBranchInjective(p.proposer, p.artifact, p.proposer, p.artifact);
  }

  /** Calls stay in order when the repository moves on and no row appears. */
  lemma CallsLater(calls: Calls, repo: Repo, repo2: Repo, releases: seq<Release>, n: nat, n2: nat)
    requires CallsOk(calls, repo, releases, n) && Extends(repo, repo2) && n <= n2
    ensures CallsOk(calls, repo2, releases, n2)
  {
    TrunkGrows(repo, repo2);
    forall c | c in calls ensures CallOk(calls[c], repo2, releases, n2) {
      assert CallOk(calls[c], repo, releases, n);
    }
  }

  /** A call that goes on to a step other than recording cannot become a second winner. */
  lemma CallMoves(calls: Calls, call: nat, c: Call, repo: Repo, releases: seq<Release>, n: nat)
    requires CallsOk(calls, repo, releases, n) && CallOk(c, repo, releases, n)
    requires OneWinner(calls) && !c.ToRecord?
    ensures CallsOk(calls[call := c], repo, releases, n) && OneWinner(calls[call := c])
  {
  }

  lemma CallsAdd(calls: Calls, call: nat, c: Call, repo: Repo, releases: seq<Release>, n: nat)
    requires CallsOk(calls, repo, releases, n) && CallOk(c, repo, releases, n)
    ensures CallsOk(calls[call := c], repo, releases, n)
  {
  }

  /** A rebuilt row, or the row of a version nobody else is recording, disturbs no call. */
  lemma CallsNewRow(calls: Calls, repo: Repo, releases: seq<Release>, r: Release, n: nat)
    requires CallsOk(calls, repo, releases, n)
    requires r.rebuilt || NobodyRecords(calls, r.artifact, r.version)
    ensures CallsOk(calls, repo, releases + [r], n)
  {
    forall c | c in calls ensures CallOk(calls[c], repo, releases + [r], n) {
      assert CallOk(calls[c], repo, releases, n);
    }
  }

  /** Everything that depends on the trunk or on the tags survives when the repository moves on. */
  lemma LaterRepo(s: Sys, repo: Repo)
    requires Inv(s) && Extends(s.repo, repo)
    ensures Trunk(s.repo) <= Trunk(repo)
    ensures TakenOk(s.db.proposals, s.log.taken, Trunk(repo))
    ensures ReleasesOk(s.db.releases, repo.tags)
    ensures CallsOk(s.calls, repo, s.db.releases, |s.log.tagged|)
  {
    TrunkGrows(s.repo, repo);
    CallsLater(s.calls, s.repo, repo, s.db.releases, |s.log.tagged|, |s.log.tagged|);
    forall i | 0 <= i < |s.db.releases| ensures ReleaseOk(s.db.releases[i], repo.tags) {
      assert ReleaseOk(s.db.releases[i], s.repo.tags);
    }
  }

  // Steps on git

  lemma WriteTargetOf(s: Sys, actor: Actor, artifact: string)
    ensures WriteTarget(WriteBranch(s, actor, artifact), artifact)
    ensures !s.solo ==> WriteBranch(s, actor, artifact) != MAIN
  {
    UsernameIsPlain(actor.username);
    ProposalBranchInjective(actor.username, artifact, actor.username, artifact);
  }

  lemma WriteKeepsPending(r: Repo, branch: string, artifact: string, files: seq<File>, fallback: bool,
                          pending: set<string>, written: set<(string, nat)>)
    requires PendingOk(r, pending, written) && GitWrite(r, branch, artifact, files, fallback).1.Some?
    ensures var (t, sha) := GitWrite(r, branch, artifact, files, fallback);
            PendingOk(t, pending + {branch}, written + {(branch, sha.value)})
  {
    var (t, sha) := GitWrite(r, branch, artifact, files, fallback);
    AncGrows(r.commits, t.commits, r.heads[MAIN]);
    assert sha.value == |r.commits| && |t.commits| == |r.commits| + 1;
    assert Trunk(t) == if branch == MAIN then Trunk(r) + {sha.value} else Trunk(r);
  }

  lemma WriteKeeps(s: Sys, actor: Actor, artifact: string, files: seq<File>, fallback: bool)
    requires Inv(s)
    ensures Inv(DoWrite(s, actor, artifact, files, fallback))
  {
    var t := DoWrite(s, actor, artifact, files, fallback);
    var branch := WriteBranch(s, actor, artifact);
    if Can(EffectiveRole(s.members, actor), ArtifactWrite) &&
        GitWrite(s.repo, branch, artifact, files, fallback).1.Some? {
      WriteTargetOf(s, actor, artifact);
      WriteKeepsSound(s.repo, branch, artifact, files, fallback);
      WriteKeepsPending(s.repo, branch, artifact, files, fallback, s.log.pending, s.log.written);
      LaterRepo(s, t.repo);
    }
  }

  /** A commit that is ahead on one branch is not on another one: merging a branch takes in no other one's tip. */
  lemma AheadOnOneBranch(r: Repo, b: string, branch: string)
    requires Sound(r) && b in r.heads && branch in r.heads && b != branch && b != MAIN && branch != MAIN
    requires r.heads[b] !in Trunk(r)
    ensures b !in Included(r, r.heads[branch])
  {
    assert BranchChain(r, b) && BranchChain(r, branch);
    var artifact :| Chain(r.commits, r.heads[branch], Trunk(r), artifact);
    ChainShape(r.commits, r.heads[branch], r.heads[MAIN], artifact);
    assert r.heads[b] in Links(r.commits, r.heads[b], Trunk(r));
    AncTransitive(r.commits, r.heads[MAIN], Fork(r.commits, r.heads[branch], Trunk(r)));
  }

  /** A merge brings in the history of the commit named, and with it the branches whose tip is in there. */
  lemma MergeTrunk(r: Repo, name: string, other: Option<nat>, lines: LineMerge)
    requires GitMerge(r, name, other, lines).1.MergedAt?
    ensures var t := GitMerge(r, name, other, lines).0;
            && LookUp(r, name, other).Some?
            && var c := LookUp(r, name, other).value;
               && c in Trunk(t) && t.heads == r.heads[MAIN := t.heads[MAIN]]
               && forall b :: b in r.heads && b != MAIN ==>
                    (r.heads[b] in Trunk(t) <==> r.heads[b] in Trunk(r) || b in Included(r, c))
  {
    hide LookUp, ConflictPaths, MergedTree;
    var t, c, ours := GitMerge(r, name, other, lines).0, LookUp(r, name, other).value, r.heads[MAIN];
    assert r.heads[MAIN := ours] == r.heads;
    if t != r {
      AncGrows(r.commits, t.commits, ours);
      AncGrows(r.commits, t.commits, c);
      assert Trunk(t) == {|r.commits|} + Trunk(r) + Anc(r.commits, c);
    } else {
      assert c in Anc(r.commits, ours);
      AncTransitive(r.commits, ours, c);
    }
  }

  lemma MergeKeepsPending(r: Repo, name: string, other: Option<nat>, lines: LineMerge, pending: set<string>,
                          written: set<(string, nat)>)
    requires Sound(r) && PendingOk(r, pending, written)
    ensures var (t, result) := GitMerge(r, name, other, lines);
            && (result.MergedAt? ==> LookUp(r, name, other).Some?)
            && var merged := if result.MergedAt? then Included(r, LookUp(r, name, other).value) else {};
               PendingOk(t, pending - merged, written)
  {
    hide LookUp, Included, Sound, PlanMerge;
    var (t, result) := GitMerge(r, name, other, lines);
    if result.MergedAt? {
      MergeTrunk(r, name, other, lines);
      MergeKeepsSound(r, name, other, lines);
      TrunkGrows(r, t);
    }
  }

  /** The call after its merge, in the repository after it. */
  lemma MergedCallOk(s: Sys, call: nat, other: Option<nat>, lines: LineMerge)
    requires Inv(s) && call in s.calls && s.calls[call].ToMerge?
    ensures var c := s.calls[call];
            var (repo, result) := GitMerge(s.repo, c.row.branch, other, lines);
            var named := LookUp(s.repo, c.row.branch, other);
            !result.MergeFailed? ==>
              && named.Some?
              && CallOk(ToResolve(c.id, c.row, result, named.value), repo, s.db.releases, |s.log.tagged|)
  {
    hide GitMerge, LookUp, Sound;
    var c := s.calls[call];
    assert CallOk(c, s.repo, s.db.releases, |s.log.tagged|);
    MergeNames(s.repo, c.row.branch, other, lines);
    MergeStaysInOneArtifact(s.repo, c.row.branch, other, lines);
    if GitMerge(s.repo, c.row.branch, other, lines).1.MergedAt? {
      MergeTrunk(s.repo, c.row.branch, other, lines);
    }
  }

  lemma MergeNames(r: Repo, name: string, other: Option<nat>, lines: LineMerge)
    ensures GitMerge(r, name, other, lines).1.MergeFailed? <==> LookUp(r, name, other).None?
  {
    hide LookUp, ConflictPaths, MergedTree;
  }

  lemma RunMergeKeeps(s: Sys, call: nat, other: Option<nat>, lines: LineMerge)
    requires Inv(s)
    ensures Inv(DoRunMerge(s, call, other, lines))
  {
    hide Sound, RowsOk, TakenOk, ReleasesOk, TagsOk, PendingOk, PlanMerge, LookUp, Included, CallsOk, CallOk, OneWinner;
    if call in s.calls && s.calls[call].ToMerge? {
      var c := s.calls[call];
      var (repo, result) := GitMerge(s.repo, c.row.branch, other, lines);
      if result.MergeFailed? {
        EndKeeps(s, call);
      } else {
        MergedCallOk(s, call, other, lines);
        MergeKeepsSound(s.repo, c.row.branch, other, lines);
        MergeKeepsPending(s.repo, c.row.branch, other, lines, s.log.pending, s.log.written);
        LaterRepo(s, repo);
        var named := LookUp(s.repo, c.row.branch, other).value;
        CallMoves(s.calls, call, ToResolve(c.id, c.row, result, named), repo, s.db.releases, |s.log.tagged|);
      }
    }
  }

  lemma ResolvedRows(t: Rows, id: nat, status: Status, conflicts: set<Path>, taken: map<nat, nat>, trunk: set<nat>)
    requires RowsOk(t.proposals)
    requires forall k :: k in t.proposals && k != id && t.proposals[k].status == Merged ==>
        k in taken && taken[k] in trunk
    requires status == Merged ==> id in taken && taken[id] in trunk
    ensures RowsOk(ResolveRow(t, id, status, conflicts).proposals)
    ensures TakenOk(ResolveRow(t, id, status, conflicts).proposals, taken, trunk)
    ensures ResolveRow(t, id, status, conflicts).releases == t.releases
  {
  }

  lemma ResolveKeeps(s: Sys, call: nat, dbOk: bool)
    requires Inv(s)
    ensures Inv(DoResolve(s, call, dbOk))
  {
    if call in s.calls && s.calls[call].ToResolve? {
      var c := s.calls[call];
      assert CallOk(c, s.repo, s.db.releases, |s.log.tagged|);
      if c.result.Conflicted? {
        ResolvedRows(s.db, c.id, Conflicting, c.result.paths, s.log.taken, Trunk(s.repo));
        CallsRemove(s.calls, call, s.repo, s.db.releases, |s.log.tagged|);
      } else {
        ResolvedRows(s.db, c.id, Merged, {}, s.log.taken[c.id := c.tip], Trunk(s.repo));
        CallMoves(s.calls, call, ToDrop(c.row), s.repo, s.db.releases, |s.log.tagged|);
      }
    }
  }

  lemma CallsRemove(calls: Calls, call: nat, repo: Repo, releases: seq<Release>, n: nat)
    requires CallsOk(calls, repo, releases, n)
    ensures CallsOk(calls - {call}, repo, releases, n)
    ensures OneWinner(calls) ==> OneWinner(calls - {call})
  {
  }

  lemma EndKeeps(s: Sys, call: nat)
    requires Inv(s)
    ensures Inv(End(s, call))
  {
    CallsRemove(s.calls, call, s.repo, s.db.releases, |s.log.tagged|);
  }

  lemma DropKeeps(s: Sys, call: nat)
    requires Inv(s)
    ensures Inv(DoDrop(s, call))
  {
    if call in s.calls && s.calls[call].ToDrop? {
      var t := s.(repo := GitDelete(s.repo, s.calls[call].row.branch).0);
      DeleteKeepsSound(s.repo, s.calls[call].row.branch);
      LaterRepo(s, t.repo);
      assert Inv(t);
      EndKeeps(t, call);
    }
  }

  // Steps of a release

  lemma ParsableHasNoSlash(s: string)
    requires Parse(s).Some?
    ensures NoSlash(s)
  {
    ParseOnlyMatches(s);
    var a, b, c :| Matches(s, a, b, c);
    assert NoSlash("v" + a + "." + b + "." + c);
  }

  /** A parsable text under an artifact's tag prefix is a release of that very artifact. */
  lemma ListedIsLogged(tags: map<string, nat>, tagged: Tagged, artifact: string, text: string)
    requires TagsOk(tags, tagged) && TagName(artifact, text) in tags && Parse(text).Some?
    ensures (artifact, Parse(text).value) in tagged
  {
    assert Logged(TagName(artifact, text), tagged);
    var i :| 0 <= i < |tagged| && TagName(artifact, text) == TagOf(tagged[i]);
    ParsableHasNoSlash(text);
    StringHasNoSlash(tagged[i].1);
    TagNameInjective(artifact, text, tagged[i].0, String(tagged[i].1));
    ParseString(tagged[i].1);
    assert tagged[i] == (artifact, Parse(text).value);
  }

  /** What the version list of an artifact means: the logged releases, and nothing else that parses. */
  lemma ListingMeans(r: Repo, tagged: Tagged, artifact: string, listing: seq<string>, v: Version)
    requires TagsOk(r.tags, tagged) && Lists(listing, VersionTexts(r, artifact))
    ensures Parses(listing, v) <==> (artifact, v) in tagged
  {
    if Parses(listing, v) {
      var text :| text in listing && Parse(text) == Some(v);
      ListedIsLogged(r.tags, tagged, artifact, text);
    }
    if (artifact, v) in tagged {
      var i :| 0 <= i < |tagged| && tagged[i] == (artifact, v);
      assert TagOf(tagged[i]) in r.tags && Small(tagged[i].1, |tagged|);
      assert String(v) in listing;
      ParseString(v);
    }
  }

  lemma LatestIsSmall(r: Repo, tagged: Tagged, artifact: string, listing: seq<string>)
    requires TagsOk(r.tags, tagged) && Lists(listing, VersionTexts(r, artifact))
    ensures Small(Latest(listing).GetOr(ZERO), |tagged|)
  {
    LatestIsMaximum(listing);
    if Latest(listing).Some? {
      ListingMeans(r, tagged, artifact, listing, Latest(listing).value);
    }
  }

  lemma BumpIsSmall(cur: Version, kind: Kind, n: nat)
    requires Small(cur, n) && n < MAX_INT
    ensures Small(BumpKind(cur, kind), n + 1) && Bumped(cur, kind) < MAX_INT
  {
  }

  /** The next version of a run that is not astronomically long has room, so it is fresh and higher. */
  lemma NextOfRun(r: Repo, tagged: Tagged, artifact: string, kind: Kind, listing: seq<string>)
    requires TagsOk(r.tags, tagged) && |tagged| < MAX_INT && Lists(listing, VersionTexts(r, artifact))
    ensures HasRoom(listing, kind) && Small(Next(listing, kind), |tagged| + 1)
    ensures forall v :: (artifact, v) in tagged ==> Less(v, Next(listing, kind))
    ensures TagName(artifact, String(Next(listing, kind))) !in r.tags
  {
    LatestIsSmall(r, tagged, artifact, listing);
    BumpIsSmall(Latest(listing).GetOr(ZERO), kind, |tagged|);
    NextIsFresh(listing, kind);
    forall v | (artifact, v) in tagged ensures Less(v, Next(listing, kind)) {
      ListingMeans(r, tagged, artifact, listing, v);
    }
  }

  lemma OpenReleaseKeeps(s: Sys, call: nat, actor: Actor, artifact: string, kind: string, listing: seq<string>)
    requires Inv(s) && |s.log.tagged| < MAX_INT
    ensures Inv(DoOpenRelease(s, call, actor, artifact, kind, listing))
  {
    var t := DoOpenRelease(s, call, actor, artifact, kind, listing);
    if t != s {
      NextOfRun(s.repo, s.log.tagged, artifact, KindOf(kind).value, listing);
      CallsAdd(s.calls, call, ToTag(artifact, Next(listing, KindOf(kind).value)), s.repo, s.db.releases,
          |s.log.tagged|);
    }
  }

  lemma LoggedAppend(tag: string, tagged: Tagged, t: (string, Version))
    ensures Logged(tag, tagged + [t]) <==> Logged(tag, tagged) || tag == TagOf(t)
  {
    var tagged2 := tagged + [t];
    if Logged(tag, tagged) {
      var i :| 0 <= i < |tagged| && tag == TagOf(tagged[i]);
      assert tag == TagOf(tagged2[i]);
    }
    if tag == TagOf(t) {
      assert tag == TagOf(tagged2[|tagged|]);
    }
  }

  lemma TagAdds(tags: map<string, nat>, tagged: Tagged, artifact: string, v: Version, at: nat)
    requires TagsOk(tags, tagged) && Small(v, |tagged| + 1) && TagName(artifact, String(v)) !in tags
    ensures TagsOk(tags[TagName(artifact, String(v)) := at], tagged + [(artifact, v)])
  {
    hide TagName, String, Logged;
    var entry := (artifact, v);
    var tags2, tagged2 := tags[TagOf(entry) := at], tagged + [entry];
    forall t {:trigger t in tags2} | t in tags2 ensures Logged(t, tagged2) {
      LoggedAppend(t, tagged, entry);
    }
    forall i | 0 <= i < |tagged2| ensures TagOf(tagged2[i]) in tags2 && Small(tagged2[i].1, |tagged2|) {
      assert i < |tagged| ==> TagOf(tagged[i]) in tags;
    }
    forall i, j | 0 <= i < j < |tagged2| ensures TagOf(tagged2[i]) != TagOf(tagged2[j]) {
      assert TagOf(tagged[i]) in tags;
    }
  }

  lemma RunTagKeeps(s: Sys, call: nat)
    requires Inv(s)
    ensures Inv(DoRunTag(s, call))
  {
    hide Sound, RowsOk, TakenOk, ReleasesOk, TagsOk, String;
    if call in s.calls && s.calls[call].ToTag? {
      var c := s.calls[call];
      var (repo, ok) := GitTag(s.repo, c.artifact, String(c.next));
      if !ok {
        EndKeeps(s, call);
      } else {
        assert CallOk(c, s.repo, s.db.releases, |s.log.tagged|);
        TagKeepsSound(s.repo, c.artifact, String(c.next));
        LaterRepo(s, repo);
        TagAdds(s.repo.tags, s.log.tagged, c.artifact, c.next, s.repo.heads[MAIN]);
        CallsLater(s.calls, s.repo, repo, s.db.releases, |s.log.tagged|, |s.log.tagged| + 1);
        NewTagHasNoRow(s, c.artifact, String(c.next));
        CallsAdd(s.calls, call, ToRecord(c.artifact, c.next), repo, s.db.releases, |s.log.tagged| + 1);
      }
    }
  }

  lemma NewTagHasNoRow(s: Sys, artifact: string, version: string)
    requires Inv(s) && TagName(artifact, version) !in s.repo.tags
    ensures OnlyRebuilt(s.db.releases, artifact, version)
    ensures NobodyRecords(s.calls, artifact, version)
  {
    forall i | 0 <= i < |s.db.releases| ensures !IsRelease(s.db.releases[i], artifact, version) {
      assert ReleaseOk(s.db.releases[i], s.repo.tags);
    }
    forall d | d in s.calls && s.calls[d].ToRecord?
      ensures TagName(s.calls[d].artifact, String(s.calls[d].next)) != TagName(artifact, version)
    {
      assert CallOk(s.calls[d], s.repo, s.db.releases, |s.log.tagged|);
    }
  }

  lemma NewRowOk(t: Rows, artifact: string, version: string, rebuilt: bool, tags: map<string, nat>)
    requires ReleasesOk(t.releases, tags) && TagName(artifact, version) in tags &&
        !HasRelease(t.releases, artifact, version)
    ensures ReleasesOk(t.releases + [NewRelease(t, artifact, version, rebuilt)], tags)
  {
    var r := NewRelease(t, artifact, version, rebuilt);
    var rows := t.releases + [r];
    forall i, j | 0 <= i < j < |rows| ensures !IsRelease(rows[i], rows[j].artifact, rows[j].version) {
      if j == |t.releases| { assert rows[i] == t.releases[i]; }
    }
  }

  ghost predicate NobodyRecords(calls: Calls, artifact: string, version: string) {
    forall d :: d in calls && calls[d].ToRecord? ==>
      TagName(calls[d].artifact, String(calls[d].next)) != TagName(artifact, version)
  }

  lemma NoOtherRecorder(calls: Calls, call: nat)
    requires OneWinner(calls) && call in calls && calls[call].ToRecord?
    ensures NobodyRecords(calls - {call}, calls[call].artifact, String(calls[call].next))
  {
  }

  lemma AddRow(s: Sys, artifact: string, version: string, rebuilt: bool)
    requires Inv(s) && TagName(artifact, version) in s.repo.tags && !HasRelease(s.db.releases, artifact, version)
    requires rebuilt || NobodyRecords(s.calls, artifact, version)
    ensures Inv(s.(db := s.db.(releases := s.db.releases + [NewRelease(s.db, artifact, version, rebuilt)])))
  {
    NewRowOk(s.db, artifact, version, rebuilt, s.repo.tags);
    CallsNewRow(s.calls, s.repo, s.db.releases, NewRelease(s.db, artifact, version, rebuilt), |s.log.tagged|);
  }

  lemma RecordVersionKeeps(s: Sys, call: nat, artifact: string, version: string, dbOk: bool)
    requires Inv(s) && TagName(artifact, version) in s.repo.tags && NobodyRecords(s.calls - {call}, artifact, version)
    ensures Inv(RecordVersion(s, call, artifact, version, dbOk))
  {
    hide Sound, RowsOk, TakenOk, ReleasesOk, TagsOk, CallsOk, OneWinner, PendingOk;
    EndKeeps(s, call);
    if dbOk && !HasRelease(s.db.releases, artifact, version) {
      AddRow(End(s, call), artifact, version, false);
    }
  }

  lemma RecordKeeps(s: Sys, call: nat, dbOk: bool)
    requires Inv(s)
    ensures Inv(DoRecord(s, call, dbOk))
  {
    if call in s.calls && s.calls[call].ToRecord? {
      RecorderHasTag(s, call);
      RecordVersionKeeps(s, call, s.calls[call].artifact, String(s.calls[call].next), dbOk);
    }
  }

  lemma RecorderHasTag(s: Sys, call: nat)
    requires Inv(s) && call in s.calls && s.calls[call].ToRecord?
    ensures TagName(s.calls[call].artifact, String(s.calls[call].next)) in s.repo.tags
    ensures NobodyRecords(End(s, call).calls, s.calls[call].artifact, String(s.calls[call].next))
    ensures OnlyRebuilt(s.db.releases, s.calls[call].artifact, String(s.calls[call].next))
  {
    assert CallOk(s.calls[call], s.repo, s.db.releases, |s.log.tagged|);
    NoOtherRecorder(s.calls, call);
  }

  lemma RepairKeeps(s: Sys, artifact: string, version: string)
    requires Inv(s)
    ensures Inv(DoRepair(s, artifact, version))
  {
    if TagName(artifact, version) in s.repo.tags && !HasRelease(s.db.releases, artifact, version) {
      AddRow(s, artifact, version, true);
    }
  }

  lemma ProposeKeeps(s: Sys, actor: Actor, artifact: string, id: nat)
    requires Inv(s)
    ensures Inv(DoPropose(s, actor, artifact, id))
  {
  }

  lemma OpenMergeKeeps(s: Sys, call: nat, actor: Actor, id: nat)
    requires Inv(s)
    ensures Inv(DoOpenMerge(s, call, actor, id))
  {
    hide Sound, TakenOk, ReleasesOk, TagsOk, PendingOk, EffectiveRole;
    if id in s.db.proposals && Can(EffectiveRole(s.members, actor), ProposalMerge) {
      CallsAdd(s.calls, call, ToMerge(actor, EffectiveRole(s.members, actor), id, s.db.proposals[id]), s.repo,
          s.db.releases, |s.log.tagged|);
    }
  }

  lemma RolesKeep(s: Sys, members: Memberships)
    requires Inv(s)
    ensures Inv(s.(members := members))
  {
  }

  lemma StepKeeps(s: Sys, step: Step, lines: LineMerge)
    requires Inv(s) && |s.log.tagged| < MAX_INT
    ensures Inv(Apply(s, step, lines))
  {
    hide Inv;
    match step
    case Write(actor, artifact, files, fallback) => WriteKeeps(s, actor, artifact, files, fallback);
    case Propose(actor, artifact, id) => ProposeKeeps(s, actor, artifact, id);
    case OpenMerge(call, actor, id) => OpenMergeKeeps(s, call, actor, id);
    case RunMerge(call, other) => RunMergeKeeps(s, call, other, lines);
    case Resolve(call, dbOk) => ResolveKeeps(s, call, dbOk);
    case Drop(call) => DropKeeps(s, call);
    case OpenRelease(call, actor, artifact, kind, listing) => OpenReleaseKeeps(s, call, actor, artifact, kind, listing);
    case RunTag(call) => RunTagKeeps(s, call);
    case Record(call, dbOk) => RecordKeeps(s, call, dbOk);
    case Repair(artifact, version) => RepairKeeps(s, artifact, version);
    case Crash(call) => EndKeeps(s, call);
    case SetRole(username, role) => RolesKeep(s, s.members[username := role]);
  }

  lemma TaggedGrowsByOne(s: Sys, step: Step, lines: LineMerge)
    ensures |Apply(s, step, lines).log.tagged| <= |s.log.tagged| + 1
  {
  }

  /** Every state of every interleaving. */
  lemma {:induction false} RunKeeps(run: Run, k: nat)
    requires run.Valid() && k < |run.states|
    ensures Inv(run.states[k]) && |run.states[k].log.tagged| <= k
  {
    hide Apply, Inv;
    if k == 0 {
      InitInv(run.states[0].solo, run.states[0].members);
    } else {
      RunKeeps(run, k - 1);
      assert run.Stepped(k - 1);
      StepKeeps(run.states[k - 1], run.steps[k - 1], run.lines);
      TaggedGrowsByOne(run.states[k - 1], run.steps[k - 1], run.lines);
    }
  }
}
