/** The roles service: creates roles under a unique name and resolves a role
    by identifier or, through the team and the membership, by (team, user). */
module RolesService {
  import opened Domain
  import opened MembershipsService

  /** The role repository's `findByName(name).isPresent()`. */
  predicate NameTaken(roles: map<Uuid, Role>, name: string) {
    exists id | id in roles :: roles[id].name == name
  }

  /** The role store's invariant: every role is stored under its own
      identifier and no two roles share a name. */
  predicate RolesInvariant(roles: map<Uuid, Role>) {
    && (forall id | id in roles :: roles[id].id == Some(id))
    && (forall a, b | a in roles && b in roles && roles[a].name == roles[b].name :: a == b)
  }

  /** `getRole(rid)`: the stored role, or NotFound naming the role and the
      identifier. */
  function GetRole(roles: map<Uuid, Role>, rid: Uuid): (r: Result<Role>)
    ensures r.Success? <==> rid in roles
    ensures r.Success? ==> r.value == roles[rid]
    ensures r.Failure? ==> r.error == NotFound(RoleClass, ById(rid))
  {
    if rid in roles then Success(roles[rid]) else Failure(NotFound(RoleClass, ById(rid)))
  }

  /** `getRoles()`: every stored role, in no particular order. */
  function GetRoles(roles: map<Uuid, Role>): (r: set<Role>)
    ensures forall id | id in roles :: roles[id] in r
    ensures forall x | x in r :: exists id | id in roles :: roles[id] == x
  {
    set id | id in roles :: roles[id]
  }

  /** In a store that keeps its invariant, the roles listed are exactly the
      roles that can be fetched by their own identifier. */
  lemma GetRolesAgreesWithGetRole(roles: map<Uuid, Role>)
    requires RolesInvariant(roles)
    ensures forall x | x in GetRoles(roles) :: x.id.Some? && GetRole(roles, x.id.value) == Success(x)
    ensures forall id | GetRole(roles, id).Success? :: GetRole(roles, id).value in GetRoles(roles)
  {
    forall x | x in GetRoles(roles) ensures x.id.Some? && GetRole(roles, x.id.value) == Success(x) {
      var id :| id in roles && roles[id] == x;
      assert x.id == Some(id);
    }
  }

  /** `getRole(teamId, userId)`: the team must exist, then the membership of
      the user in that team, then the role that membership refers to. Each
      step fails with its own error, and the membership lookup is made with
      the identifier the team directory reports for the team. */
  function GetRoleOf(teams: map<Uuid, Team>, ms: seq<Membership>, roles: map<Uuid, Role>,
                     teamId: Uuid, userId: Uuid): (r: Result<Role>)
    requires teamId in teams ==> forall x | x in ms && IsFor(x, userId, teams[teamId].id) :: RoleIdOf(x).Some?
    ensures teamId !in teams ==> r == Failure(NotFound(TeamClass, ById(teamId)))
    ensures teamId in teams && GetMembership(ms, teams[teamId].id, userId).Failure?
        ==> r == Failure(GetMembership(ms, teams[teamId].id, userId).error)
    ensures teamId in teams && GetMembership(ms, teams[teamId].id, userId).Success?
        ==> r == GetRole(roles, RoleIdOf(GetMembership(ms, teams[teamId].id, userId).value).value)
    ensures r.Success? ==> (teamId in teams && exists x :: (x in ms && IsFor(x, userId, teams[teamId].id)
        && RoleIdOf(x).value in roles && r.value == roles[RoleIdOf(x).value]))
  {
    if teamId !in teams then Failure(NotFound(TeamClass, ById(teamId)))
    else
      var team := teams[teamId];
      match GetMembership(ms, team.id, userId)
      case Failure(e) => Failure(e)
      case Success(membership) => GetRole(roles, RoleIdOf(membership).value)
  }

  /** Resolution through a stored membership: when the team exists under its
      own identifier and the user's membership in it refers to a stored role,
      `getRole(teamId, userId)` returns that role. */
  lemma GetRoleOfResolvesMembership(teams: map<Uuid, Team>, ms: seq<Membership>, roles: map<Uuid, Role>,
                                    teamId: Uuid, userId: Uuid, m: Membership)
    requires MembershipsInvariant(roles, teams, ms)
    requires teamId in teams && teams[teamId].id == teamId
    requires m in ms && IsFor(m, userId, teamId)
    ensures GetRoleOf(teams, ms, roles, teamId, userId) == Success(roles[RoleIdOf(m).value])
  {
    var found := GetMembership(ms, teamId, userId);
    assert found.Success?;
    var i :| 0 <= i < |ms| && ms[i] == found.value;
    var j :| 0 <= j < |ms| && ms[j] == m;
    assert i == j;
  }

  /** `createRole`: fails with Exists when a stored role already has the
      name; otherwise the role is saved under the identifier the store
      generates, and returned. */
  method CreateRole(store: Store, r: Role, freshId: Uuid) returns (res: Result<Role>)
    requires freshId !in store.roles
    modifies store`roles
    ensures NameTaken(old(store.roles), r.name) ==> res == Failure(Exists(RoleClass)) && store.roles == old(store.roles)
    ensures !NameTaken(old(store.roles), r.name) ==>
      && res == Success(r.(id := Some(freshId)))
      && store.roles == old(store.roles)[freshId := res.value]
      && GetRole(store.roles, freshId) == res
    ensures RolesInvariant(old(store.roles)) ==> RolesInvariant(store.roles)
    ensures MembershipsInvariant(old(store.roles), store.teams, store.memberships)
        ==> MembershipsInvariant(store.roles, store.teams, store.memberships)
  {
    if NameTaken(store.roles, r.name) {
      return Failure(Exists(RoleClass));
    }
    var saved := r.(id := Some(freshId));
    store.roles := store.roles[freshId := saved];
    res := Success(saved);
  }
}
