/** How the two services work together: a membership created through the
    memberships service is what the roles service resolves a role through. */
module Scenarios {
  import opened Domain
  import opened MembershipsService
  import opened RolesService

  /** After a membership is admitted into a store that keeps its invariant,
      `getRole(teamId, userId)` for its team and user returns the role it
      refers to, provided the team directory reports the team under its own
      identifier. */
  lemma CreatedMembershipResolvesRole(m: Membership, roles: map<Uuid, Role>, teams: map<Uuid, Team>, ms: seq<Membership>)
    requires MembershipsInvariant(roles, teams, ms)
    requires ValidateMembership(m, roles, teams, ms).Success?
    requires teams[m.teamId.value].id == m.teamId.value
    ensures forall x | x in ms + [m] :: RoleIdOf(x).Some?
    ensures GetRoleOf(teams, ms + [m], roles, m.teamId.value, m.userId.value) == Success(roles[RoleIdOf(m).value])
  {
    AdmittedIffInvariantKept(m, roles, teams, ms);
    GetRoleOfResolvesMembership(teams, ms + [m], roles, m.teamId.value, m.userId.value, m);
  }

  /** The team directory of the scenario: team 1, led by user 2, with
      members 3 and 4. */
  const ScenarioTeams: map<Uuid, Team> := map[1 := Team(1, Some(2), [3, 4])]

  /** The Developer role under identifier 5. */
  const Developer: Role := Role(Some(5), "Developer")

  /** User 3 as a Developer of team 1. */
  const DeveloperMembership: Membership := Membership(None, Some(Developer), Some(3), Some(1))

  /** A role named "Developer" is created under the generated identifier 5
      and a second role of that name is refused; user 3, a member of team 1,
      is then made a Developer of it. */
  method SetUpDeveloper() returns (store: Store)
    ensures fresh(store) && store.teams == ScenarioTeams
    ensures store.roles == map[5 := Developer]
    ensures store.memberships == [DeveloperMembership]
  {
    store := new Store(ScenarioTeams);
    var developer := CreateRole(store, Role(None, "Developer"), 5);
    assert developer == Success(Developer);

    assert NameTaken(store.roles, "Developer");
    var again := CreateRole(store, Role(None, "Developer"), 7);
    assert again == Failure(Exists(RoleClass));

    var created := CreateMembership(store, DeveloperMembership);
    assert created == Success(DeveloperMembership);
  }

  /** User 3 resolves to the Developer role in team 1; a lookup in the
      unknown team 6 fails naming that team. */
  method ResolveDeveloper() {
    var store := SetUpDeveloper();
    var resolved := GetRoleOf(store.teams, store.memberships, store.roles, 1, 3);
    assert resolved == Success(Developer);

    var lost := GetRoleOf(store.teams, store.memberships, store.roles, 6, 3);
    assert lost == Failure(NotFound(TeamClass, ById(6)));
  }

  /** The same membership a second time is refused as existing and leaves
      the store as it was. */
  method RepeatDeveloperMembership() {
    var store := SetUpDeveloper();
    assert DeveloperMembership in store.memberships;
    var duplicate := CreateMembership(store, DeveloperMembership);
    assert duplicate == Failure(Exists(MembershipClass));
    assert store.memberships == [DeveloperMembership];
  }

  /** A membership without a role, and one for user 9, who is neither lead
      nor member of team 1, are refused with their own errors. */
  method RejectInvalidMemberships() {
    var store := SetUpDeveloper();
    var roleless := CreateMembership(store, DeveloperMembership.(role := None));
    assert roleless == Failure(InvalidArgument(RoleClass, None));

    var outsider := CreateMembership(store, DeveloperMembership.(userId := Some(9)));
    assert outsider == Failure(InvalidArgument(MembershipClass, Some(NotInTeamReason)));
    assert store.memberships == [DeveloperMembership];
  }
}
