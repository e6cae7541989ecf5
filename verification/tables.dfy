/** The projection tables of one project: merge proposals and releases. */
module Tables {
  import opened Wrappers
  import opened Paths
  import opened Authz

  datatype Status = Open | Conflicting | Merged

  /** A merge proposal row; at is created_at. */
  datatype Proposal = Proposal(artifact: string, branch: string, proposer: Username, status: Status,
      conflicts: set<Path>, at: nat)

  /** A release row; rebuilt marks the rows fsck inserted, at is created_at. */
  datatype Release = Release(artifact: string, version: string, tag: string, rebuilt: bool, at: nat)

  datatype Rows = Rows(proposals: map<nat, Proposal>, releases: seq<Release>)

  predicate IsRelease(r: Release, artifact: string, version: string) {
    r.artifact == artifact && r.version == version
  }

  predicate HasRelease(rows: seq<Release>, artifact: string, version: string) {
    exists i :: 0 <= i < |rows| && IsRelease(rows[i], artifact, version)
  }

  /** The unique constraint on releases. */
  ghost predicate UniqueReleases(rows: seq<Release>) {
    forall i, j :: 0 <= i < j < |rows| ==> !IsRelease(rows[i], rows[j].artifact, rows[j].version)
  }

  /** ResolveProposal updates whatever status the row had. */
  function ResolveRow(t: Rows, id: nat, status: Status, conflicts: set<Path>): Rows {
    if id !in t.proposals then t
    else t.(proposals := t.proposals[id := t.proposals[id].(status := status, conflicts := conflicts)])
  }

  /** Rows are stamped in insertion order. */
  function NewRelease(t: Rows, artifact: string, version: string, rebuilt: bool): Release {
    Release(artifact, version, TagName(artifact, version), rebuilt, |t.releases|)
  }

  /** CreateRelease; None is the unique violation. */
  function CreateReleaseRow(t: Rows, artifact: string, version: string): Option<Rows> {
    if HasRelease(t.releases, artifact, version) then None
    else Some(t.(releases := t.releases + [NewRelease(t, artifact, version, false)]))
  }

  /** EnsureRelease: insert or do nothing, and whether it inserted. */
  function EnsureReleaseRow(t: Rows, artifact: string, version: string): (Rows, bool) {
    if HasRelease(t.releases, artifact, version) then (t, false)
    else (t.(releases := t.releases + [NewRelease(t, artifact, version, true)]), true)
  }

  // LatestReleases

  /** The row with the greatest created_at among those of artifact in the first n. */
  function NewestRow(rows: seq<Release>, artifact: string): Option<Release> {
    if rows == [] then None
    else
      var last, before := rows[|rows| - 1], NewestRow(rows[..|rows| - 1], artifact);
      if last.artifact == artifact && (before.None? || before.value.at <= last.at) then Some(last) else before
  }

  /** distinct on (artifact) ... order by artifact, created_at desc, collected into a map. */
  method LatestReleases(t: Rows) returns (out: map<string, Release>)
    ensures forall a :: (a in out <==> NewestRow(t.releases, a).Some?) &&
                        (a in out ==> NewestRow(t.releases, a) == Some(out[a]))
  {
    out := map[];
    for i := 0 to |t.releases|
      invariant forall a :: (a in out <==> NewestRow(t.releases[..i], a).Some?) &&
                            (a in out ==> NewestRow(t.releases[..i], a) == Some(out[a]))
    {
      var r := t.releases[i];
      assert t.releases[..i + 1][..i] == t.releases[..i];
      if r.artifact !in out || out[r.artifact].at <= r.at {
        out := out[r.artifact := r];
      }
    }
    assert t.releases[..|t.releases|] == t.releases;
  }

  /** The row picked is of the artifact and no row of it is younger. */
  lemma {:induction false} NewestRowIsNewest(rows: seq<Release>, artifact: string)
    ensures match NewestRow(rows, artifact)
            case None => forall r :: r in rows ==> r.artifact != artifact
            case Some(m) =>
              m in rows && m.artifact == artifact && forall r :: r in rows && r.artifact == artifact ==> r.at <= m.at
  {
    if rows != [] {
      NewestRowIsNewest(rows[..|rows| - 1], artifact);
      assert rows == rows[..|rows| - 1] + [rows[|rows| - 1]];
    }
  }
}
