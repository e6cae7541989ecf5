/** The role table, the gate and the effective role of an actor on a project. */
module Authz {
  import opened Wrappers
  import opened Paths

  datatype Action =
    | ContextRead | ArtifactRead | ArtifactWrite | ProposalCreate | ProposalMerge
    | ReleaseCreate | MemoryRead | MemoryWrite | ActivityRead | ProjectAdmin

  datatype Role = NoRole | Viewer | Contributor | Maintainer

  datatype OrgRole = OrgNone | OrgGuest | OrgMember | OrgAdmin | OrgOwner

  const READS: set<Action> := {ContextRead, ArtifactRead, MemoryRead, ActivityRead}
  const WRITES: set<Action> := READS + {ArtifactWrite, ProposalCreate, MemoryWrite}

  const GRANTS: map<Role, set<Action>> :=
    map[Viewer := READS,
        Contributor := WRITES,
        Maintainer := WRITES + {ProposalMerge, ReleaseCreate, ProjectAdmin}]

  /** Can: a role without an entry is granted nothing. */
  predicate Can(role: Role, action: Action) {
    role in GRANTS && action in GRANTS[role]
  }

  predicate OrgCanManage(r: OrgRole) {
    r == OrgAdmin || r == OrgOwner
  }

  /** ^[a-z0-9][a-z0-9-]{1,38}[a-z0-9]$, the check on the users table. */
  predicate IsUsername(s: string) {
    && 3 <= |s| <= 40
    && SlugChar(s[0]) && SlugChar(s[|s| - 1])
    && forall i :: 0 <= i < |s| ==> SlugChar(s[i]) || s[i] == '-'
  }

  type Username = s: string | IsUsername(s) witness "jon"

  /** The authenticated caller; the org role was read when the token was checked. */
  datatype Actor = Actor(username: Username, orgRole: OrgRole)

  type Memberships = map<Username, Role>

  /** ProjectRole, and the fallback that makes org admins and owners maintainers. */
  function EffectiveRole(members: Memberships, actor: Actor): Role {
    var role := if actor.username in members then members[actor.username] else NoRole;
    if role == NoRole && OrgCanManage(actor.orgRole) then Maintainer else role
  }

  /** The rule: the actor's own row on the project decides if it names a role; without one, admins and owners of the org
      are maintainers and nobody else is anything. */
  ghost predicate IsGiven(members: Memberships, actor: Actor, role: Role) {
    if actor.username in members && members[actor.username] != NoRole then role == members[actor.username]
    else if actor.orgRole in {OrgAdmin, OrgOwner} then role == Maintainer
    else role == NoRole
  }

  /** May write and propose. */
  ghost predicate MayWork(members: Memberships, actor: Actor) {
    IsGiven(members, actor, Contributor) || IsGiven(members, actor, Maintainer)
  }

  /** May merge and release. */
  ghost predicate MaySteer(members: Memberships, actor: Actor) {
    IsGiven(members, actor, Maintainer)
  }

  /** The gate of the four calls that change an artifact, by the rule. */
  lemma GateExactly(members: Memberships, actor: Actor)
    ensures IsGiven(members, actor, EffectiveRole(members, actor))
    ensures forall role :: IsGiven(members, actor, role) ==> role == EffectiveRole(members, actor)
    ensures Can(EffectiveRole(members, actor), ArtifactWrite) <==> MayWork(members, actor)
    ensures Can(EffectiveRole(members, actor), ProposalCreate) <==> MayWork(members, actor)
    ensures Can(EffectiveRole(members, actor), ProposalMerge) <==> MaySteer(members, actor)
    ensures Can(EffectiveRole(members, actor), ReleaseCreate) <==> MaySteer(members, actor)
  {
  }

  datatype ProjectRow = ProjectRow(slug: string, members: Memberships)

  /** Slugs are unique in an org. */
  predicate DistinctSlugs(projects: seq<ProjectRow>) {
    forall i, j :: 0 <= i < j < |projects| ==> projects[i].slug != projects[j].slug
  }

  /** projectCtx: the project and the role the gate will use; None when the slug is unknown. */
  method ProjectCtx(projects: seq<ProjectRow>, actor: Actor, slug: string) returns (r: Option<Role>)
    requires DistinctSlugs(projects)
    ensures r.None? <==> forall p :: p in projects ==> p.slug != slug
    ensures forall p :: p in projects && p.slug == slug ==> r.Some? && IsGiven(p.members, actor, r.value)
  {
    r := None;
    for i := 0 to |projects|
      invariant r.None? <==> forall k :: 0 <= k < i ==> projects[k].slug != slug
      invariant forall k :: 0 <= k < i && projects[k].slug == slug ==>
          r.Some? && IsGiven(projects[k].members, actor, r.value)
    {
      if projects[i].slug == slug {
        var role := if actor.username in projects[i].members then projects[i].members[actor.username] else NoRole;
        if role == NoRole && OrgCanManage(actor.orgRole) {
          role := Maintainer;
        }
        r := Some(role);
      }
    }
  }

  /** WhoAmI lists exactly the projects on which the gate would use a role, with that role. */
  method WhoAmI(projects: seq<ProjectRow>, actor: Actor) returns (shown: map<string, Role>)
    requires DistinctSlugs(projects)
    ensures forall p :: p in projects ==>
              if IsGiven(p.members, actor, NoRole) then p.slug !in shown
              else p.slug in shown && IsGiven(p.members, actor, shown[p.slug])
    ensures forall slug :: slug in shown ==> exists p :: p in projects && p.slug == slug
  {
    shown := map[];
    for i := 0 to |projects|
      invariant forall k :: 0 <= k < i ==>
                  if IsGiven(projects[k].members, actor, NoRole) then projects[k].slug !in shown
                  else projects[k].slug in shown && IsGiven(projects[k].members, actor, shown[projects[k].slug])
      invariant forall slug :: slug in shown ==> exists k :: 0 <= k < i && projects[k].slug == slug
    {
      var p := projects[i];
      var role := if actor.username in p.members then p.members[actor.username] else NoRole;
      if role == NoRole && OrgCanManage(actor.orgRole) {
        role := Maintainer;
      }
      if role != NoRole {
        shown := shown[p.slug := role];
      }
    }
  }
}
