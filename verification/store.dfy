/** The control plane tables that the artifact plane is projected into, by project. */
module Stores {
  import opened Paths
  import opened Authz
  import opened Tables

  /** A project row; path is its repository. */
  datatype Project = Project(id: nat, path: string, solo: bool)

  class Store {
    var members: map<nat, Memberships>
    var tables: map<nat, Rows>

    constructor ()
      ensures members == map[] && tables == map[]
    {
      members, tables := map[], map[];
    }

    /** CreateProposal; id is the key the database generated. */
    method CreateProposal(project: nat, artifact: string, branch: string, proposer: Username, id: nat)
      requires project in tables && id !in tables[project].proposals
      modifies this`tables
      ensures var row := Proposal(artifact, branch, proposer, Open, {}, |old(tables[project]).proposals|);
              var proposals := old(tables[project]).proposals[id := row];
              tables == old(tables)[project := old(tables[project]).(proposals := proposals)]
    {
      var t := tables[project];
      var row := Proposal(artifact, branch, proposer, Open, {}, |t.proposals|);
      tables := tables[project := t.(proposals := t.proposals[id := row])];
    }

    /** The first of the rows in the order of created_at. */
    static method Oldest(rows: map<nat, Proposal>, ids: set<nat>) returns (id: nat)
      requires ids != {} && ids <= rows.Keys
      ensures id in ids && forall d :: d in ids ==> rows[id].at <= rows[d].at
    {
      id :| id in ids;
      var rest := ids - {id};
      while rest != {}
        invariant id in ids && rest <= ids && forall d :: d in ids - rest ==> rows[id].at <= rows[d].at
        decreases rest
      {
        var d :| d in rest;
        rest := rest - {d};
        if rows[d].at < rows[id].at {
          id := d;
        }
      }
    }

    /** ListProposals with status "open": the oldest first. */
    method OpenProposals(project: nat) returns (open: seq<nat>)
      requires project in tables
      ensures forall id :: id in open <==>
                id in tables[project].proposals && tables[project].proposals[id].status == Open
      ensures forall i, j :: 0 <= i < j < |open| ==> open[i] != open[j]
      ensures forall i, j :: 0 <= i < j < |open| ==>
          tables[project].proposals[open[i]].at <= tables[project].proposals[open[j]].at
    {
      var rows := tables[project].proposals;
      var rest := rows.Keys;
      open := [];
      while rest != {}
        invariant rest <= rows.Keys
        invariant forall id :: id in open ==> id !in rest && id in rows && rows[id].status == Open
        invariant forall id :: id in rows && id !in rest && rows[id].status == Open ==> id in open
        invariant forall id, d :: id in open && d in rest ==> rows[id].at <= rows[d].at
        invariant forall i, j :: 0 <= i < j < |open| ==> open[i] != open[j]
        invariant forall i, j :: 0 <= i < j < |open| ==> rows[open[i]].at <= rows[open[j]].at
        decreases rest
      {
        var id := Oldest(rows, rest);
        rest := rest - {id};
        if rows[id].status == Open {
          open := open + [id];
        }
      }
    }

    /** ResolveProposal */
    method ResolveProposal(project: nat, id: nat, status: Status, conflicts: set<Path>)
      requires project in tables
      modifies this`tables
      ensures tables == old(tables)[project := ResolveRow(old(tables[project]), id, status, conflicts)]
      ensures var t := old(tables[project]);
              if id !in t.proposals then tables == old(tables)
              else
                var row := t.proposals[id].(status := status, conflicts := conflicts);
                tables == old(tables)[project := t.(proposals := t.proposals[id := row])]
    {
      var t := tables[project];
      if id in t.proposals {
        var row := t.proposals[id];
        t := t.(proposals := t.proposals[id := row.(status := status, conflicts := conflicts)]);
      }
      tables := tables[project := t];
    }

    /** CreateRelease; false is the unique violation. */
    method CreateRelease(project: nat, artifact: string, version: string) returns (ok: bool)
      requires project in tables
      modifies this`tables
      ensures ok == !HasRelease(old(tables[project]).releases, artifact, version)
      ensures tables == old(tables)[project :=
          CreateReleaseRow(old(tables[project]), artifact, version).GetOr(old(tables[project]))]
      ensures !ok ==> tables == old(tables)
      ensures var rows, tag := old(tables[project]).releases, "artifacts/" + artifact + "/" + version;
              ok ==> tables[project].releases == rows + [Release(artifact, version, tag, false, |rows|)]
    {
      var t := tables[project];
      ok := !HasRelease(t.releases, artifact, version);
      if ok {
        t := t.(releases := t.releases + [NewRelease(t, artifact, version, false)]);
      }
      tables := tables[project := t];
    }

    /** EnsureRelease: insert unless the row is there, and whether it was missing. */
    method EnsureRelease(project: nat, artifact: string, version: string) returns (ok: bool)
      requires project in tables
      modifies this`tables
      ensures ok == !HasRelease(old(tables[project]).releases, artifact, version)
      ensures tables == old(tables)[project := EnsureReleaseRow(old(tables[project]), artifact, version).0]
      ensures !ok ==> tables == old(tables)
      ensures var rows, tag := old(tables[project]).releases, "artifacts/" + artifact + "/" + version;
              ok ==> tables[project].releases == rows + [Release(artifact, version, tag, true, |rows|)]
    {
      var t := tables[project];
      ok := !HasRelease(t.releases, artifact, version);
      if ok {
        t := t.(releases := t.releases + [NewRelease(t, artifact, version, true)]);
      }
      tables := tables[project := t];
    }
  }
}
