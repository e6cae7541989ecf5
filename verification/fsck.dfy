/** The reconciler: rebuild missing release rows from tags and report proposals without a branch. */
module Fsck {
  import opened Wrappers
  import opened Paths
  import opened FileTree
  import opened Dag
  import opened Repos
  import opened Semver
  import opened Authz
  import opened Tables
  import opened Service
  import opened Invariants
  import opened SerialRuns
  import opened Limits
  import opened GitStores
  import opened Stores

  type Key = (string, string)

  /** The artifact and version pairs the table has rows for. */
  function Keys(rows: seq<Release>): set<Key> {
    set i | 0 <= i < |rows| :: (rows[i].artifact, rows[i].version)
  }

  lemma KeysMean(rows: seq<Release>, artifact: string, version: string)
    ensures HasRelease(rows, artifact, version) <==> (artifact, version) in Keys(rows)
  {
    if HasRelease(rows, artifact, version) {
      var i :| 0 <= i < |rows| && IsRelease(rows[i], artifact, version);
      assert (rows[i].artifact, rows[i].version) in Keys(rows);
    }
    if (artifact, version) in Keys(rows) {
      var i :| 0 <= i < |rows| && (rows[i].artifact, rows[i].version) == (artifact, version);
      assert IsRelease(rows[i], artifact, version);
    }
  }

  lemma KeysAppend(rows: seq<Release>, r: Release)
    ensures Keys(rows + [r]) == Keys(rows) + {(r.artifact, r.version)}
  {
    var longer := rows + [r];
    forall k | k in Keys(rows) + {(r.artifact, r.version)} ensures k in Keys(longer) {
      if k in Keys(rows) {
        var i :| 0 <= i < |rows| && (rows[i].artifact, rows[i].version) == k;
        assert longer[i] == rows[i];
      } else {
        assert longer[|rows|] == r;
      }
    }
  }

  /** All rows of before are kept in place, exactly the missing ones of wanted are added, each once and
      marked as rebuilt, and count says how many. */
  ghost predicate Repaired(before: Rows, after: Rows, wanted: set<Key>, count: nat) {
    && after.proposals == before.proposals
    && before.releases <= after.releases
    && Keys(after.releases) == Keys(before.releases) + wanted
    && count == |after.releases| - |before.releases| == |wanted - Keys(before.releases)|
    && (UniqueReleases(before.releases) ==> UniqueReleases(after.releases))
    && forall i :: |before.releases| <= i < |after.releases| ==>
         var r := after.releases[i]; r == Release(r.artifact, r.version, TagName(r.artifact, r.version), true, i)
  }

  lemma RepairedNothing(t: Rows)
    ensures Repaired(t, t, {}, 0)
  {
  }

  lemma RepairedOne(t: Rows, artifact: string, version: string)
    ensures var (u, ok) := EnsureReleaseRow(t, artifact, version);
            Repaired(t, u, {(artifact, version)}, if ok then 1 else 0)
  {
    hide Repaired;
    KeysMean(t.releases, artifact, version);
    if HasRelease(t.releases, artifact, version) {
      RepairedAlready(t, artifact, version);
    } else {
      RepairedByRow(t, artifact, version);
    }
  }

  lemma RepairedAlready(t: Rows, artifact: string, version: string)
    requires (artifact, version) in Keys(t.releases)
    ensures Repaired(t, t, {(artifact, version)}, 0)
  {
    hide Keys, UniqueReleases;
    assert {(artifact, version)} - Keys(t.releases) == {};
    assert Keys(t.releases) + {(artifact, version)} == Keys(t.releases);
  }

  lemma RepairedByRow(t: Rows, artifact: string, version: string)
    requires !HasRelease(t.releases, artifact, version) && (artifact, version) !in Keys(t.releases)
    ensures Repaired(t, t.(releases := t.releases + [NewRelease(t, artifact, version, true)]), {(artifact, version)}, 1)
  {
    hide Keys, TagName, UniqueReleases, HasRelease;
    var r := NewRelease(t, artifact, version, true);
    KeysAppend(t.releases, r);
    UniqueAppend(t.releases, r);
    assert {(artifact, version)} - Keys(t.releases) == {(artifact, version)};
  }

  lemma UniqueAppend(rows: seq<Release>, r: Release)
    requires !HasRelease(rows, r.artifact, r.version)
    ensures UniqueReleases(rows) ==> UniqueReleases(rows + [r])
  {
  }

  lemma SplitMissing(w1: set<Key>, w2: set<Key>, k: set<Key>)
    ensures |(w1 + w2) - k| == |w1 - k| + |w2 - (k + w1)|
  {
    assert (w1 + w2) - k == (w1 - k) + (w2 - (k + w1));
    assert (w1 - k) !! (w2 - (k + w1));
  }

  lemma RepairedTwice(t: Rows, u: Rows, v: Rows, w1: set<Key>, c1: nat, w2: set<Key>, c2: nat)
    requires Repaired(t, u, w1, c1) && Repaired(u, v, w2, c2)
    ensures Repaired(t, v, w1 + w2, c1 + c2)
  {
    hide UniqueReleases, TagName, Keys;
    SplitMissing(w1, w2, Keys(t.releases));
    forall i | |t.releases| <= i < |v.releases|
      ensures var r := v.releases[i]; r == Release(r.artifact, r.version, TagName(r.artifact, r.version), true, i)
    {
      if i < |u.releases| { assert v.releases[i] == u.releases[i]; }
    }
  }

  /** The rows after EnsureRelease for the listed versions in order, and how many were missing. */
  function EnsureAll(t: Rows, artifact: string, versions: seq<string>): (Rows, nat) {
    if versions == [] then (t, 0)
    else
      var (u, n) := EnsureAll(t, artifact, versions[..|versions| - 1]);
      var (v, ok) := EnsureReleaseRow(u, artifact, versions[|versions| - 1]);
      (v, if ok then n + 1 else n)
  }

  function Elements(xs: seq<string>): set<string> {
    set x | x in xs
  }

  function KeysOf(artifact: string, versions: seq<string>): set<Key> {
    set v | v in versions :: (artifact, v)
  }

  lemma {:induction false} EnsureAllRepairs(t: Rows, artifact: string, versions: seq<string>)
    ensures var (u, n) := EnsureAll(t, artifact, versions); Repaired(t, u, KeysOf(artifact, versions), n)
  {
    hide Repaired, EnsureReleaseRow;
    if versions == [] {
      RepairedNothing(t);
      assert KeysOf(artifact, versions) == {};
    } else {
      var init, last := versions[..|versions| - 1], versions[|versions| - 1];
      var (u, n) := EnsureAll(t, artifact, init);
      EnsureAllRepairs(t, artifact, init);
      RepairedOne(u, artifact, last);
      var (v, ok) := EnsureReleaseRow(u, artifact, last);
      RepairedTwice(t, u, v, KeysOf(artifact, init), n, {(artifact, last)}, if ok then 1 else 0);
      assert versions == init + [last];
      assert KeysOf(artifact, versions) == KeysOf(artifact, init) + {(artifact, last)};
    }
  }

  datatype Org = Org(id: nat, projects: seq<Project>)

  type RepoMap = map<string, Repo>
  type RowsMap = map<nat, Rows>

  /** What fails during the run. On a failed git read fsck warns or skips and goes on: artifacts that cannot be listed,
      versions and branches that cannot be read. A failed statement ends it: the read of the orgs, of the projects of an
      org or of the open rows, or an insert. */
  datatype Faults = Faults(
    unlisted: set<string>, unread: set<(string, string)>, unbranched: set<string>,
    lost: set<(nat, string, string)>, closed: set<nat>, unseen: set<nat>, orgsLost: bool)

  /** Some of the wanted rows were added, and nothing else was done. */
  ghost predicate Partly(before: Rows, after: Rows, wanted: set<Key>) {
    exists w, n :: w <= wanted && Repaired(before, after, w, n)
  }

  lemma NothingIsPartly(t: Rows, wanted: set<Key>)
    ensures Partly(t, t, wanted)
  {
    RepairedNothing(t);
  }

  /** What the readable tags of the listed artifacts call for. */
  function Wanted(r: Repo, path: string, faults: Faults, artifacts: set<string>): set<Key> {
    set a, v | a in artifacts && (path, a) !in faults.unread && v in VersionTexts(r, a) :: (a, v)
  }

  /** Open rows whose branch is not among the proposal branches. */
  function Orphans(r: Repo, t: Rows): set<nat> {
    set id | id in t.proposals.Keys && t.proposals[id].status == Open
             && !(t.proposals[id].branch in r.heads && "u/" <= t.proposals[id].branch)
  }

  /** What one project needs, as seen before fsck ran. */
  function MissingIn(r: Repo, t: Rows, path: string, faults: Faults): set<Key> {
    if path in faults.unlisted then {} else Wanted(r, path, faults, ArtifactNames(r)) - Keys(t.releases)
  }

  function OrphansIn(r: Repo, t: Rows, path: string, faults: Faults): set<nat> {
    if path in faults.unlisted || path in faults.unbranched then {} else Orphans(r, t)
  }

  /** The innermost loop: the versions of one artifact, up to the first failed insert. */
  method RepairArtifact(db: Store, project: nat, artifact: string, versions: seq<string>, faults: Faults)
    returns (ok: bool, repaired: nat, ghost reached: nat)
    requires project in db.tables
    modifies db`tables
    ensures reached <= |versions| && (ok ==> reached == |versions|)
    ensures ok <==> forall v :: v in versions ==> (project, artifact, v) !in faults.lost
    ensures db.tables == old(db.tables)[project := EnsureAll(old(db.tables[project]), artifact, versions[..reached]).0]
    ensures repaired == EnsureAll(old(db.tables[project]), artifact, versions[..reached]).1
  {
    repaired, reached := 0, 0;
    assert db.tables == db.tables[project := db.tables[project]];
    for i := 0 to |versions|
      invariant project in db.tables && reached == i
      invariant forall k :: 0 <= k < i ==> (project, artifact, versions[k]) !in faults.lost
      invariant db.tables == old(db.tables)[project := EnsureAll(old(db.tables[project]), artifact, versions[..i]).0]
      invariant repaired == EnsureAll(old(db.tables[project]), artifact, versions[..i]).1
    {
      assert versions[..i + 1][..i] == versions[..i];
      if (project, artifact, versions[i]) in faults.lost {
        return false, repaired, i;
      }
      var inserted := db.EnsureRelease(project, artifact, versions[i]);
      if inserted {
        repaired := repaired + 1;
      }
      reached := i + 1;
    }
    ok := true;
  }

  /** The loop over the artifacts of a project. */
  method RepairProject(git: GitStore, db: Store, p: Project, faults: Faults, artifacts: seq<string>)
    returns (ok: bool, repaired: nat)
    requires p.path in git.repos && p.id in db.tables
    modifies db`tables
    ensures p.id in db.tables && db.tables == old(db.tables)[p.id := db.tables[p.id]]
    ensures var wanted := Wanted(git.repos[p.path], p.path, faults, Elements(artifacts));
            && (ok ==> Repaired(old(db.tables[p.id]), db.tables[p.id], wanted, repaired))
            && Partly(old(db.tables[p.id]), db.tables[p.id], wanted)
    ensures faults.lost == {} ==> ok
  {
    hide Repaired, EnsureAll, VersionTexts;
    ghost var r, before := git.repos[p.path], db.tables[p.id];
    ghost var wanted := Wanted(r, p.path, faults, Elements(artifacts));
    repaired := 0;
    RepairedNothing(before);
    assert Wanted(r, p.path, faults, Elements(artifacts[..0])) == {};
    for i := 0 to |artifacts|
      invariant p.id in db.tables && db.tables == old(db.tables)[p.id := db.tables[p.id]]
      invariant Repaired(before, db.tables[p.id], Wanted(r, p.path, faults, Elements(artifacts[..i])), repaired)
    {
      var a := artifacts[i];
      ghost var sofar := Elements(artifacts[..i]);
      assert artifacts[..i + 1] == artifacts[..i] + [a];
      assert Elements(artifacts[..i + 1]) == sofar + {a};
      if (p.path, a) !in faults.unread {
        var versions := git.Versions(p.path, a);
        ghost var mid := db.tables[p.id];
        var inserted, n, reached := RepairArtifact(db, p.id, a, versions, faults);
        EnsureAllRepairs(mid, a, versions[..reached]);
        RepairedTwice(before, mid, db.tables[p.id], Wanted(r, p.path, faults, sofar), repaired,
                      KeysOf(a, versions[..reached]), n);
        repaired := repaired + n;
        WantedGrows(r, p.path, faults, sofar, a, versions);
        if !inserted {
          WantedWithin(r, p.path, faults, sofar, a, Elements(artifacts), versions, reached);
          return false, repaired;
        }
        assert versions[..|versions|] == versions;
      } else {
        WantedSkips(r, p.path, faults, sofar, a);
      }
    }
    assert artifacts[..|artifacts|] == artifacts;
    ok := true;
  }

  lemma WantedWithin(r: Repo, path: string, faults: Faults, sofar: set<string>, a: string, all: set<string>,
                     versions: seq<string>, reached: nat)
    requires (path, a) !in faults.unread && Lists(versions, VersionTexts(r, a)) && reached <= |versions|
    requires sofar <= all && a in all
    ensures Wanted(r, path, faults, sofar) + KeysOf(a, versions[..reached]) <= Wanted(r, path, faults, all)
  {
    hide VersionTexts;
  }

  lemma WantedGrows(r: Repo, path: string, faults: Faults, sofar: set<string>, a: string, versions: seq<string>)
    requires (path, a) !in faults.unread && Lists(versions, VersionTexts(r, a))
    ensures Wanted(r, path, faults, sofar + {a}) == Wanted(r, path, faults, sofar) + KeysOf(a, versions)
  {
    hide VersionTexts;
  }

  lemma WantedSkips(r: Repo, path: string, faults: Faults, sofar: set<string>, a: string)
    requires (path, a) in faults.unread
    ensures Wanted(r, path, faults, sofar + {a}) == Wanted(r, path, faults, sofar)
  {
    hide VersionTexts;
  }

  /** The loop over the open proposals of a project. */
  method ReportOrphans(git: GitStore, db: Store, p: Project) returns (orphans: seq<nat>)
    requires p.path in git.repos && p.id in db.tables
    ensures forall id :: id in orphans <==> id in Orphans(git.repos[p.path], db.tables[p.id])
    ensures |orphans| == |Orphans(git.repos[p.path], db.tables[p.id])|
  {
    var branches := git.Branches(p.path);
    var have: set<string> := {};
    for i := 0 to |branches|
      invariant have == set k | 0 <= k < i :: branches[k]
    {
      have := have + {branches[i]};
    }
    assert forall b :: b in have <==> b in branches;
    var open := db.OpenProposals(p.id);
    orphans := [];
    ghost var found: set<nat> := {};
    for i := 0 to |open|
      invariant forall id :: id in orphans <==> id in found
      invariant |orphans| == |found|
      invariant found == set k | 0 <= k < i && db.tables[p.id].proposals[open[k]].branch !in have :: open[k]
    {
      var id := open[i];
      if db.tables[p.id].proposals[id].branch !in have {
        assert id !in found;
        orphans := orphans + [id];
        found := found + {id};
      }
    }
    assert found == Orphans(git.repos[p.path], db.tables[p.id]);
  }

  /** What fsck does to one project, with the git failures it tolerates. */
  ghost predicate ProjectDone(r: Repo, before: Rows, after: Rows, path: string, faults: Faults) {
    if path in faults.unlisted then after == before
    else Repaired(before, after, Wanted(r, path, faults, ArtifactNames(r)), |MissingIn(r, before, path, faults)|)
  }

  method FsckProject(git: GitStore, db: Store, p: Project, faults: Faults)
    returns (ok: bool, repaired: nat, orphans: seq<nat>)
    requires p.path in git.repos && p.id in db.tables
    modifies db`tables
    ensures p.id in db.tables && db.tables == old(db.tables)[p.id := db.tables[p.id]]
    ensures var r, before := git.repos[p.path], old(db.tables[p.id]);
            if ok then
              && ProjectDone(r, before, db.tables[p.id], p.path, faults)
              && repaired == |MissingIn(r, before, p.path, faults)|
              && (forall id :: id in orphans <==> id in OrphansIn(r, before, p.path, faults))
              && |orphans| == |OrphansIn(r, before, p.path, faults)|
            else Partly(before, db.tables[p.id], Wanted(r, p.path, faults, ArtifactNames(r)))
    ensures faults.lost == {} && faults.closed == {} ==> ok
  {
    hide Repaired;
    repaired, orphans := 0, [];
    assert db.tables == db.tables[p.id := db.tables[p.id]];
    if p.path in faults.unlisted {
      return true, repaired, orphans;
    }
    ghost var before := db.tables[p.id];
    var artifacts := git.ListArtifacts(p.path);
    assert Elements(artifacts) == ArtifactNames(git.repos[p.path]);
    ok, repaired := RepairProject(git, db, p, faults, artifacts);
    if !ok {
      return;
    }
    RepairedCounts(before, db.tables[p.id],
                   Wanted(git.repos[p.path], p.path, faults, ArtifactNames(git.repos[p.path])), repaired);
    if p.path !in faults.unbranched {
      if p.id in faults.closed {
        return false, repaired, orphans;
      }
      orphans := ReportOrphans(git, db, p);
    }
  }

  lemma RepairedCounts(before: Rows, after: Rows, wanted: set<Key>, n: nat)
    requires Repaired(before, after, wanted, n)
    ensures n == |wanted - Keys(before.releases)| && after.proposals == before.proposals
  {
  }

  // All projects of all orgs

  function AllProjects(orgs: seq<Org>): seq<Project> {
    if orgs == [] then [] else AllProjects(orgs[..|orgs| - 1]) + orgs[|orgs| - 1].projects
  }

  ghost predicate Known(ps: seq<Project>, repos: RepoMap, tables: RowsMap) {
    && (forall p :: p in ps ==> p.path in repos && p.id in tables)
    && (forall i, j :: 0 <= i < j < |ps| ==> ps[i].id != ps[j].id)
  }

  ghost function MissingTotal(ps: seq<Project>, repos: RepoMap, tables: RowsMap, faults: Faults): nat
    requires Known(ps, repos, tables)
  {
    if ps == [] then 0
    else
      var p := ps[|ps| - 1];
      MissingTotal(ps[..|ps| - 1], repos, tables, faults) + |MissingIn(repos[p.path], tables[p.id], p.path, faults)|
  }

  ghost function OrphansTotal(ps: seq<Project>, repos: RepoMap, tables: RowsMap, faults: Faults): nat
    requires Known(ps, repos, tables)
  {
    if ps == [] then 0
    else
      var p := ps[|ps| - 1];
      OrphansTotal(ps[..|ps| - 1], repos, tables, faults) + |OrphansIn(repos[p.path], tables[p.id], p.path, faults)|
  }

  /** The projects in done were reconciled, the others are as before. */
  ghost predicate DoneSoFar(done: seq<Project>, repos: RepoMap, before: RowsMap, after: RowsMap, faults: Faults) {
    && after.Keys == before.Keys
    && (forall p :: p in done ==>
          p.path in repos && p.id in before && ProjectDone(repos[p.path], before[p.id], after[p.id], p.path, faults))
    && (forall id :: id in before && (forall p :: p in done ==> p.id != id) ==> after[id] == before[id])
  }

  lemma {:induction false} AllProjectsSplit(orgs: seq<Org>, i: nat)
    requires i < |orgs|
    ensures AllProjects(orgs[..i]) + orgs[i].projects <= AllProjects(orgs)
    decreases |orgs|
  {
    if i < |orgs| - 1 {
      AllProjectsSplit(orgs[..|orgs| - 1], i);
      assert orgs[..|orgs| - 1][..i] == orgs[..i];
    }
  }

  lemma LastIdIsNew(done: seq<Project>, p: Project, repos: RepoMap, tables: RowsMap)
    requires Known(done + [p], repos, tables)
    ensures p.path in repos && p.id in tables && forall q :: q in done ==> q.id != p.id
  {
    var more := done + [p];
    assert more[|done|] == p && p in more;
    forall q | q in done ensures q.id != p.id {
      var i :| 0 <= i < |done| && done[i] == q;
      assert more[i] == q;
    }
  }

  lemma DoneOneMore(done: seq<Project>, p: Project, repos: RepoMap, before: RowsMap, mid: RowsMap, after: RowsMap,
                    faults: Faults)
    requires DoneSoFar(done, repos, before, mid, faults) && p.path in repos && p.id in before
    requires forall q :: q in done ==> q.id != p.id
    requires p.id in after && after == mid[p.id := after[p.id]]
    requires ProjectDone(repos[p.path], mid[p.id], after[p.id], p.path, faults)
    ensures DoneSoFar(done + [p], repos, before, after, faults)
    ensures mid[p.id] == before[p.id]
  {
    hide ProjectDone, RepoData.WellFormed, IsHistory, IsUsername;
    assert mid[p.id] == before[p.id];
    assert forall id :: id in before && id != p.id ==> after[id] == mid[id];
    assert forall q :: q in done + [p] <==> q in done || q == p;
  }

  lemma KnownPrefix(ps: seq<Project>, qs: seq<Project>, repos: RepoMap, tables: RowsMap)
    requires Known(qs, repos, tables) && ps <= qs
    ensures Known(ps, repos, tables)
  {
    forall p | p in ps ensures p in qs {
      var i :| 0 <= i < |ps| && ps[i] == p;
      assert qs[i] == p;
    }
  }

  /** The state of the outer loops: done are the projects behind them. */
  ghost predicate Progress(done: seq<Project>, repos: RepoMap, start: RowsMap, now: RowsMap, faults: Faults,
                           repaired: nat, orphans: nat) {
    && Known(done, repos, start)
    && DoneSoFar(done, repos, start, now, faults)
    && repaired == MissingTotal(done, repos, start, faults)
    && orphans == OrphansTotal(done, repos, start, faults)
  }

  lemma NoProgress(all: seq<Project>, repos: RepoMap, tables: RowsMap, faults: Faults)
    requires Known(all, repos, tables)
    ensures Progress([], repos, tables, tables, faults, 0, 0)
  {
    KnownPrefix([], all, repos, tables);
  }

  lemma NextIsKnown(done: seq<Project>, p: Project, all: seq<Project>, repos: RepoMap, start: RowsMap, now: RowsMap,
                    faults: Faults, repaired: nat, orphans: nat)
    requires Known(all, repos, start) && done + [p] <= all &&
        Progress(done, repos, start, now, faults, repaired, orphans)
    ensures p.path in repos && p.id in now
  {
    KnownPrefix(done + [p], all, repos, start);
    LastIdIsNew(done, p, repos, start);
  }

  lemma MoreProgress(done: seq<Project>, p: Project, all: seq<Project>, repos: RepoMap, start: RowsMap, mid: RowsMap,
                     after: RowsMap, faults: Faults, repaired: nat, orphans: nat)
    requires Known(all, repos, start) && done + [p] <= all &&
        Progress(done, repos, start, mid, faults, repaired, orphans)
    requires p.path in repos && p.id in mid && p.id in after && after == mid[p.id := after[p.id]]
    requires ProjectDone(repos[p.path], mid[p.id], after[p.id], p.path, faults)
    ensures Progress(done + [p], repos, start, after, faults,
                     repaired + |MissingIn(repos[p.path], mid[p.id], p.path, faults)|,
                     orphans + |OrphansIn(repos[p.path], mid[p.id], p.path, faults)|)
  {
    hide ProjectDone, DoneSoFar, MissingIn, OrphansIn, Known;
    KnownPrefix(done + [p], all, repos, start);
    LastIdIsNew(done, p, repos, start);
    DoneOneMore(done, p, repos, start, mid, after, faults);
    assert (done + [p])[..|done|] == done;
  }

  /** The state after a run that a failed statement ended: in every project some wanted rows were added at most. */
  ghost predicate PartlyDone(all: seq<Project>, repos: RepoMap, start: RowsMap, now: RowsMap, faults: Faults) {
    && now.Keys == start.Keys
    && (forall p :: p in all ==>
          && p.path in repos && p.id in start
          && Partly(start[p.id], now[p.id], Wanted(repos[p.path], p.path, faults, ArtifactNames(repos[p.path]))))
    && forall id :: id in start && (forall p :: p in all ==> p.id != id) ==> now[id] == start[id]
  }

  lemma DoneIsPartly(r: Repo, before: Rows, after: Rows, path: string, faults: Faults)
    requires ProjectDone(r, before, after, path, faults)
    ensures Partly(before, after, Wanted(r, path, faults, ArtifactNames(r)))
  {
    hide Repaired;
    if path in faults.unlisted {
      NothingIsPartly(before, Wanted(r, path, faults, ArtifactNames(r)));
    }
  }

  lemma AbortedIsPartly(done: seq<Project>, p: Project, all: seq<Project>, repos: RepoMap, start: RowsMap,
                        mid: RowsMap, after: RowsMap, faults: Faults)
    requires Known(all, repos, start) && done + [p] <= all && DoneSoFar(done, repos, start, mid, faults)
    requires p.path in repos && p.id in mid && p.id in after && after == mid[p.id := after[p.id]]
    requires Partly(mid[p.id], after[p.id], Wanted(repos[p.path], p.path, faults, ArtifactNames(repos[p.path])))
    ensures PartlyDone(all, repos, start, after, faults)
  {
    hide ProjectDone, Partly, Wanted, ArtifactNames, DoneSoFar, Known, RepoData.WellFormed, IsHistory, IsUsername;
    UntouchedAfterAbort(done, p, all, repos, start, mid, after, faults);
    forall q | q in all
      ensures q.path in repos && q.id in start
      ensures Partly(start[q.id], after[q.id], Wanted(repos[q.path], q.path, faults, ArtifactNames(repos[q.path])))
    {
      PartlyAfterAbort(done, p, q, all, repos, start, mid, after, faults);
    }
  }

  lemma PartlyAfterAbort(done: seq<Project>, p: Project, q: Project, all: seq<Project>, repos: RepoMap, start: RowsMap,
                         mid: RowsMap, after: RowsMap, faults: Faults)
    requires Known(all, repos, start) && done + [p] <= all && DoneSoFar(done, repos, start, mid, faults) && q in all
    requires p.path in repos && p.id in mid && p.id in after && after == mid[p.id := after[p.id]]
    requires Partly(mid[p.id], after[p.id], Wanted(repos[p.path], p.path, faults, ArtifactNames(repos[p.path])))
    ensures q.path in repos && q.id in start
    ensures Partly(start[q.id], after[q.id], Wanted(repos[q.path], q.path, faults, ArtifactNames(repos[q.path])))
  {
    hide ProjectDone, Partly, Wanted, ArtifactNames, RepoData.WellFormed, IsHistory, IsUsername;
    KnownPrefix(done + [p], all, repos, start);
    LastIdIsNew(done, p, repos, start);
    if q in done {
      DoneIsPartly(repos[q.path], start[q.id], mid[q.id], q.path, faults);
    } else if q != p {
      OtherIds(done + [p], q, all, repos, start);
      assert forall d :: d in done ==> d in done + [p];
      assert p in done + [p];
      NothingIsPartly(start[q.id], Wanted(repos[q.path], q.path, faults, ArtifactNames(repos[q.path])));
    }
  }

  lemma UntouchedAfterAbort(done: seq<Project>, p: Project, all: seq<Project>, repos: RepoMap, start: RowsMap,
                            mid: RowsMap, after: RowsMap, faults: Faults)
    requires done + [p] <= all && DoneSoFar(done, repos, start, mid, faults)
    requires p.id in mid && p.id in after && after == mid[p.id := after[p.id]]
    ensures after.Keys == start.Keys
    ensures forall id :: id in start && (forall q :: q in all ==> q.id != id) ==> after[id] == start[id]
  {
    hide ProjectDone, RepoData.WellFormed, IsHistory, IsUsername;
    assert p in all by { assert (done + [p])[|done|] == p && all[|done|] == p; }
    forall q | q in done ensures q in all {
      var i :| 0 <= i < |done| && done[i] == q;
      assert (done + [p])[i] == q && all[i] == q;
    }
  }

  lemma OtherIds(some: seq<Project>, q: Project, all: seq<Project>, repos: RepoMap, tables: RowsMap)
    requires Known(all, repos, tables) && some <= all && q in all && q !in some
    ensures forall p :: p in some ==> p.id != q.id
  {
    var j :| 0 <= j < |all| && all[j] == q;
    forall p | p in some ensures p.id != q.id {
      var i :| 0 <= i < |some| && some[i] == p;
      assert all[i] == p;
    }
  }

  /** A run that ended early can simply be repeated: the next complete one adds what is missing. */
  lemma RepeatCompletes(t: Rows, u: Rows, v: Rows, wanted: set<Key>, n: nat)
    requires Partly(t, u, wanted) && Repaired(u, v, wanted, n)
    ensures exists m :: Repaired(t, v, wanted, m)
  {
    hide Repaired;
    var w, k :| w <= wanted && Repaired(t, u, w, k);
    RepairedTwice(t, u, v, w, k, wanted, n);
    assert w + wanted == wanted;
  }

  /** The inner loop: the projects of one org, after those of the orgs before it. */
  method FsckOrg(git: GitStore, db: Store, ps: seq<Project>, faults: Faults, repairedSoFar: nat, orphansSoFar: nat,
                 ghost base: seq<Project>, ghost all: seq<Project>, ghost start: RowsMap)
    returns (ok: bool, repaired: nat, orphans: nat)
    requires Known(all, git.repos, start) && base + ps <= all
    requires Progress(base, git.repos, start, db.tables, faults, repairedSoFar, orphansSoFar)
    modifies db`tables
    ensures if ok then Progress(base + ps, git.repos, start, db.tables, faults, repaired, orphans)
            else PartlyDone(all, git.repos, start, db.tables, faults)
    ensures faults.lost == {} && faults.closed == {} ==> ok
  {
    hide ProjectDone, MissingIn, OrphansIn, Known, Progress, PartlyDone, Partly;
    repaired, orphans := repairedSoFar, orphansSoFar;
    assert base + ps[..0] == base;
    for j := 0 to |ps|
      invariant Progress(base + ps[..j], git.repos, start, db.tables, faults, repaired, orphans)
    {
      ghost var done, mid := base + ps[..j], db.tables;
      assert base + ps[..j + 1] == done + [ps[j]];
      NextIsKnown(done, ps[j], all, git.repos, start, mid, faults, repaired, orphans);
      var reached, n, found := FsckProject(git, db, ps[j], faults);
      if !reached {
        ProgressIsDone(done, git.repos, start, mid, faults, repaired, orphans);
        AbortedIsPartly(done, ps[j], all, git.repos, start, mid, db.tables, faults);
        return false, repaired, orphans;
      }
      MoreProgress(done, ps[j], all, git.repos, start, mid, db.tables, faults, repaired, orphans);
      repaired := repaired + n;
      orphans := orphans + |found|;
    }
    assert ps[..|ps|] == ps;
    ok := true;
  }

  lemma ProgressIsDone(done: seq<Project>, repos: RepoMap, start: RowsMap, now: RowsMap, faults: Faults,
                       repaired: nat, orphans: nat)
    requires Progress(done, repos, start, now, faults, repaired, orphans)
    ensures DoneSoFar(done, repos, start, now, faults)
  {
  }

  lemma ProgressIsPartly(done: seq<Project>, all: seq<Project>, repos: RepoMap, start: RowsMap, now: RowsMap,
                         faults: Faults, repaired: nat, orphans: nat)
    requires Known(all, repos, start) && done <= all && Progress(done, repos, start, now, faults, repaired, orphans)
    ensures PartlyDone(all, repos, start, now, faults)
  {
    hide ProjectDone, Partly, Wanted, ArtifactNames, RepoData.WellFormed, IsHistory, IsUsername;
    forall p | p in all
      ensures p.path in repos && p.id in start
      ensures Partly(start[p.id], now[p.id], Wanted(repos[p.path], p.path, faults, ArtifactNames(repos[p.path])))
    {
      if p in done {
        DoneIsPartly(repos[p.path], start[p.id], now[p.id], p.path, faults);
      } else {
        OtherIds(done, p, all, repos, start);
        NothingIsPartly(start[p.id], Wanted(repos[p.path], p.path, faults, ArtifactNames(repos[p.path])));
      }
    }
    forall q | q in done ensures q in all {
      var i :| 0 <= i < |done| && done[i] == q;
      assert all[i] == q;
    }
  }

  /** fsck over every project: all missing rows are rebuilt and counted, nothing else changes, and the open proposals
      without a branch are counted; a failed statement ends it with some of the rows rebuilt. */
  method CmdFsck(git: GitStore, db: Store, orgs: seq<Org>, faults: Faults)
    returns (ok: bool, repaired: nat, orphans: nat)
    requires Known(AllProjects(orgs), git.repos, db.tables)
    modifies db`tables
    ensures var all, start := AllProjects(orgs), old(db.tables);
            if ok then
              && DoneSoFar(all, git.repos, start, db.tables, faults)
              && repaired == MissingTotal(all, git.repos, start, faults)
              && orphans == OrphansTotal(all, git.repos, start, faults)
            else PartlyDone(all, git.repos, start, db.tables, faults)
    ensures ok ==> !faults.orgsLost && forall org :: org in orgs ==> org.id !in faults.unseen
    ensures faults.lost == {} && faults.closed == {} && faults.unseen == {} && !faults.orgsLost ==> ok
  {
    hide ProjectDone, DoneSoFar, MissingIn, OrphansIn, Known, PartlyDone;
    repaired, orphans := 0, 0;
    ghost var all, start := AllProjects(orgs), db.tables;
    NoProgress(all, git.repos, start, faults);
    if faults.orgsLost {
      ProgressIsPartly([], all, git.repos, start, db.tables, faults, repaired, orphans);
      return false, repaired, orphans;
    }
    for i := 0 to |orgs|
      invariant Progress(AllProjects(orgs[..i]), git.repos, start, db.tables, faults, repaired, orphans)
      invariant forall j :: 0 <= j < i ==> orgs[j].id !in faults.unseen
    {
      hide Progress;
      AllProjectsSplit(orgs, i);
      if orgs[i].id in faults.unseen {
        ProgressIsPartly(AllProjects(orgs[..i]), all, git.repos, start, db.tables, faults, repaired, orphans);
        return false, repaired, orphans;
      }
      assert orgs[..i + 1][..i] == orgs[..i];
      ok, repaired, orphans :=
        FsckOrg(git, db, orgs[i].projects, faults, repaired, orphans, AllProjects(orgs[..i]), all, start);
      if !ok {
        return;
      }
    }
    assert orgs[..|orgs|] == orgs;
    ok := true;
  }

  // What the repaired tables mean

  /** A second fsck on the same tags finds nothing to do. */
  lemma SecondRunRepairsNothing(before: Rows, after: Rows, later: Rows, wanted: set<Key>, n: nat, m: nat)
    requires Repaired(before, after, wanted, n) && Repaired(after, later, wanted, m)
    ensures m == 0 && later == after
  {
    assert wanted - Keys(after.releases) == {};
  }

  /** On a project whose rows all have tags, as after any run of the service, one fsck makes the rows of every
      artifact on main equal to its tags, and it lists exactly the open proposals without a branch. */
  lemma RowsEqualTags(s: Sys, after: Rows, path: string, faults: Faults)
    requires Inv(s) && path !in faults.unlisted && ProjectDone(s.repo, s.db, after, path, faults)
    requires forall a :: a in ArtifactNames(s.repo) ==> (path, a) !in faults.unread
    ensures forall a, v :: a in ArtifactNames(s.repo) ==>
              (HasRelease(after.releases, a, v) <==> TagName(a, v) in s.repo.tags)
    ensures s.db.releases <= after.releases && ReleasesOk(after.releases, s.repo.tags)
    ensures forall id :: id in Orphans(s.repo, s.db) <==>
              id in s.db.proposals && s.db.proposals[id].status == Open && s.db.proposals[id].branch !in s.repo.heads
  {
    hide ReleasesOk, Sound, TagsOk, CallsOk, OneWinner, PendingOk, TakenOk, ArtifactNames, UniqueReleases, HasRelease;
    hide IsRelease;
    RowsHaveTags(s, after, Wanted(s.repo, path, faults, ArtifactNames(s.repo)));
    forall a, v | a in ArtifactNames(s.repo)
      ensures HasRelease(after.releases, a, v) <==> TagName(a, v) in s.repo.tags
    {
      KeysMean(after.releases, a, v);
      if HasRelease(after.releases, a, v) { RowHasTag(after.releases, s.repo.tags, a, v); }
      assert TagName(a, v) in s.repo.tags ==> v in VersionTexts(s.repo, a);
    }
    forall id | id in s.db.proposals ensures "u/" <= s.db.proposals[id].branch {
      assert RowOk(s.db.proposals[id]);
    }
  }

  /** The artifact was released at the version with this text. */
  ghost predicate Released(tagged: Tagged, artifact: string, text: string) {
    exists i :: 0 <= i < |tagged| && tagged[i].0 == artifact && String(tagged[i].1) == text
  }

  lemma TaggedReads(s: Sys, artifact: string, text: string)
    requires TagsOk(s.repo.tags, s.log.tagged)
    ensures Released(s.log.tagged, artifact, text) ==> TagName(artifact, text) in s.repo.tags
    ensures TagName(artifact, text) in s.repo.tags && !Released(s.log.tagged, artifact, text) ==>
              exists i :: 0 <= i < |s.log.tagged| && artifact + "/" <= s.log.tagged[i].0
  {
    hide String, TagName;
    var tagged := s.log.tagged;
    if Released(tagged, artifact, text) {
      var i :| 0 <= i < |tagged| && tagged[i].0 == artifact && String(tagged[i].1) == text;
      assert TagOf(tagged[i]) in s.repo.tags;
    } else if TagName(artifact, text) in s.repo.tags {
      assert Logged(TagName(artifact, text), tagged);
      var i :| 0 <= i < |tagged| && TagName(artifact, text) == TagOf(tagged[i]);
      StringHasNoSlash(tagged[i].1);
      TagNameReads(artifact, text, tagged[i].0, String(tagged[i].1));
    }
  }

  lemma NestedIsNoRelease(s: Sys, artifact: string, i: nat)
    requires TagsOk(s.repo.tags, s.log.tagged) && i < |s.log.tagged| && artifact + "/" <= s.log.tagged[i].0
    ensures var text := s.log.tagged[i].0[|artifact| + 1..] + "/" + String(s.log.tagged[i].1);
            TagName(artifact, text) in s.repo.tags && !Released(s.log.tagged, artifact, text)
  {
    hide String, TagName;
    var tagged := s.log.tagged;
    var text := tagged[i].0[|artifact| + 1..] + "/" + String(tagged[i].1);
    NestedTagName(artifact, tagged[i].0, String(tagged[i].1));
    assert TagOf(tagged[i]) in s.repo.tags;
    if Released(tagged, artifact, text) {
      ReleasedHasNoSlash(tagged, artifact, text);
    }
  }

  lemma ReleasedHasNoSlash(tagged: Tagged, artifact: string, text: string)
    requires Released(tagged, artifact, text)
    ensures NoSlash(text)
  {
    var i :| 0 <= i < |tagged| && tagged[i].0 == artifact && String(tagged[i].1) == text;
    StringHasNoSlash(tagged[i].1);
  }

  /** The pattern by which versions are listed also matches the tags of an artifact whose name goes on after a slash, as
      doc/sub does after doc, and no call refuses to release such a name. So after fsck the rows of an artifact on main
      are exactly its own releases if and only if no artifact of such a name was released. */
  lemma RowsAreReleasesExactly(s: Sys, after: Rows, path: string, faults: Faults, artifact: string)
    requires Inv(s) && path !in faults.unlisted && ProjectDone(s.repo, s.db, after, path, faults)
    requires forall a :: a in ArtifactNames(s.repo) ==> (path, a) !in faults.unread
    requires artifact in ArtifactNames(s.repo)
    ensures (forall text :: HasRelease(after.releases, artifact, text) <==> Released(s.log.tagged, artifact, text)) <==>
            (forall i :: 0 <= i < |s.log.tagged| ==> !(artifact + "/" <= s.log.tagged[i].0))
  {
    hide String, TagName, Sound, ReleasesOk, TagsOk, CallsOk, PendingOk, TakenOk, ArtifactNames, HasRelease, Released;
    hide ProjectDone;
    RowsEqualTags(s, after, path, faults);
    if i :| 0 <= i < |s.log.tagged| && artifact + "/" <= s.log.tagged[i].0 {
      NestedIsNoRelease(s, artifact, i);
    } else {
      forall text ensures HasRelease(after.releases, artifact, text) <==> Released(s.log.tagged, artifact, text) {
        TaggedReads(s, artifact, text);
      }
    }
  }

  /** A serial run in which it does not hold: the artifact is on main and was never released, a nested name was, and
      fsck gives the artifact a row. */
  lemma FsckCanMix(members: Memberships, writer: Actor, merger: Actor, artifact: string, lines: LineMerge,
                   path: string, faults: Faults, after: Rows) returns (s: Sys)
    requires CanWork(members, writer) && Can(EffectiveRole(members, merger), ProposalMerge) && IsSlug(artifact)
    requires CanRelease(members, merger, artifact + "/sub")
    requires path !in faults.unlisted && forall a :: (path, a) !in faults.unread
    ensures Reached(s, 8, true, members, lines) && artifact in ArtifactNames(s.repo)
    ensures forall text :: !Released(s.log.tagged, artifact, text)
    ensures ProjectDone(s.repo, s.db, after, path, faults) ==>
              HasRelease(after.releases, artifact, "sub/" + String(LOW))
  {
    hide String, TagName, Reached, CanWork, CanRelease, Can, EffectiveRole, ProjectDone, HasRelease, ArtifactNames;
    hide Sound, ReleasesOk, TagsOk, CallsOk, PendingOk, TakenOk;
    s := NestedRelease(members, writer, merger, artifact, lines);
    assert !(artifact == artifact + "/sub");
    SerialIsReached(s, 8, members, lines);
    ReachedIsInv(s, 8, members, lines);
    if ProjectDone(s.repo, s.db, after, path, faults) {
      RowsEqualTags(s, after, path, faults);
      assert (artifact + "/sub")[|artifact| + 1..] == "sub";
      assert "sub" + "/" + String(LOW) == "sub/" + String(LOW);
      NestedIsNoRelease(s, artifact, 0);
    }
  }

  lemma RowHasTag(rows: seq<Release>, tags: map<string, nat>, artifact: string, version: string)
    requires ReleasesOk(rows, tags) && HasRelease(rows, artifact, version)
    ensures TagName(artifact, version) in tags
  {
    var i :| 0 <= i < |rows| && IsRelease(rows[i], artifact, version);
    assert ReleaseOk(rows[i], tags);
  }

  lemma RowsHaveTags(s: Sys, after: Rows, wanted: set<Key>)
    requires ReleasesOk(s.db.releases, s.repo.tags) && Repaired(s.db, after, wanted, |wanted - Keys(s.db.releases)|)
    requires forall k :: k in wanted ==> TagName(k.0, k.1) in s.repo.tags
    ensures ReleasesOk(after.releases, s.repo.tags)
  {
    forall i | 0 <= i < |after.releases|
      ensures ReleaseOk(after.releases[i], s.repo.tags) && after.releases[i].at == i
    {
      var r := after.releases[i];
      if i < |s.db.releases| {
        assert r == s.db.releases[i];
      } else {
        assert (r.artifact, r.version) in Keys(after.releases);
        if (r.artifact, r.version) !in wanted {
          var j :| 0 <= j < |s.db.releases| &&
              (s.db.releases[j].artifact, s.db.releases[j].version) == (r.artifact, r.version);
          assert after.releases[j] == s.db.releases[j] && ReleaseOk(s.db.releases[j], s.repo.tags);
        }
      }
    }
  }

  // fsck and the newest row

  /** The listed versions without a row, in list order. */
  function MissingList(t: Rows, artifact: string, versions: seq<string>): seq<string> {
    if versions == [] then []
    else
      var init, last := versions[..|versions| - 1], versions[|versions| - 1];
      MissingList(t, artifact, init) + (if HasRelease(t.releases, artifact, last) then [] else [last])
  }

  /** Ages follow the order of the rows. */
  ghost predicate Stamped(rows: seq<Release>) {
    forall i :: 0 <= i < |rows| ==> rows[i].at == i
  }

  /** Rebuilt rows are the youngest: after fsck LatestReleases picks the last missing version of the list, and
      its old pick when nothing was missing. */
  lemma {:induction false} NewestAfterRepair(t: Rows, artifact: string, versions: seq<string>)
    requires Stamped(t.releases) && forall i, j :: 0 <= i < j < |versions| ==> versions[i] != versions[j]
    ensures var u := EnsureAll(t, artifact, versions).0; var missing := MissingList(t, artifact, versions);
            && Stamped(u.releases) && t.releases <= u.releases
            && (forall v :: HasRelease(u.releases, artifact, v) <==>
                HasRelease(t.releases, artifact, v) || v in versions)
            && if missing == [] then NewestRow(u.releases, artifact) == NewestRow(t.releases, artifact)
               else
                 && NewestRow(u.releases, artifact).Some?
                 && NewestRow(u.releases, artifact).value.version == missing[|missing| - 1]
  {
    if versions != [] {
      var init, last := versions[..|versions| - 1], versions[|versions| - 1];
      assert versions == init + [last];
      NewestAfterRepair(t, artifact, init);
      var u := EnsureAll(t, artifact, init).0;
      assert HasRelease(u.releases, artifact, last) <==> HasRelease(t.releases, artifact, last);
      if !HasRelease(u.releases, artifact, last) {
        AppendedIsNewest(u, artifact, last);
      }
    }
  }

  lemma AppendedIsNewest(u: Rows, artifact: string, version: string)
    requires Stamped(u.releases) && !HasRelease(u.releases, artifact, version)
    ensures var v := EnsureReleaseRow(u, artifact, version).0;
            && Stamped(v.releases) && u.releases <= v.releases
            && (forall w :: HasRelease(v.releases, artifact, w) <==>
                HasRelease(u.releases, artifact, w) || w == version)
            && NewestRow(v.releases, artifact) == Some(NewRelease(u, artifact, version, true))
  {
    var r := NewRelease(u, artifact, version, true);
    var rows := u.releases + [r];
    assert rows[..|rows| - 1] == u.releases;
    NewestRowIsNewest(u.releases, artifact);
    forall w ensures HasRelease(rows, artifact, w) <==> HasRelease(u.releases, artifact, w) || w == version {
      KeysMean(rows, artifact, w);
      KeysMean(u.releases, artifact, w);
      KeysAppend(u.releases, r);
    }
  }

  lemma {:induction false} MissingListMeans(t: Rows, artifact: string, versions: seq<string>, v: string)
    ensures v in MissingList(t, artifact, versions) <==> v in versions && !HasRelease(t.releases, artifact, v)
  {
    hide HasRelease;
    if versions != [] {
      var init, last := versions[..|versions| - 1], versions[|versions| - 1];
      MissingListMeans(t, artifact, init, v);
      assert versions == init + [last];
    }
  }

  /** The highest release is listed under its own text. */
  lemma LatestIsListed(run: Run, k: nat, artifact: string, versions: seq<string>)
    requires run.Valid() && k < |run.states| && Lists(versions, VersionTexts(run.states[k].repo, artifact))
    requires Latest(versions).Some?
    ensures String(Latest(versions).value) in versions
  {
    hide String, Parse, Latest, Sound, ReleasesOk, RowsOk, TakenOk, CallsOk, OneWinner, PendingOk;
    var s, best := run.states[k], Latest(versions).value;
    RunKeeps(run, k);
    LatestIsMaximum(versions);
    ListingMeans(s.repo, s.log.tagged, artifact, versions, best);
    var i :| 0 <= i < |s.log.tagged| && s.log.tagged[i] == (artifact, best);
    assert TagOf(s.log.tagged[i]) in s.repo.tags;
  }

  /** The first fsck after a serial run with crashes and failed inserts leaves the highest release as the newest row of
      an artifact if and only if nothing was missing or the missing version that git lists last is the highest one. */
  lemma NewestIsLatestAfterFsckExactly(run: Run, k: nat, artifact: string, versions: seq<string>)
    requires run.Valid() && Serial(run) && k < |run.states| && forall i :: 0 <= i < k ==> !run.steps[i].Repair?
    requires Lists(versions, VersionTexts(run.states[k].repo, artifact)) && Latest(versions).Some?
    ensures var t, best := run.states[k].db, String(Latest(versions).value);
            var missing := MissingList(t, artifact, versions);
            var newest := NewestRow(EnsureAll(t, artifact, versions).0.releases, artifact);
            newest.Some? && newest.value.version == best <==> missing == [] || missing[|missing| - 1] == best
  {
    hide String, Latest, NewestRow, EnsureAll, MissingList, HasRelease, VersionTexts, Inv;
    var t, best := run.states[k].db, String(Latest(versions).value);
    RowsAreStamped(run, k);
    NewestAfterRepair(t, artifact, versions);
    LatestIsListed(run, k, artifact, versions);
    MissingListMeans(t, artifact, versions, best);
    NewestRowIsLatestExactly(run, k, artifact, versions);
  }

  lemma RowsAreStamped(run: Run, k: nat)
    requires run.Valid() && k < |run.states|
    ensures Stamped(run.states[k].db.releases)
  {
    RunKeeps(run, k);
  }
}
