/** The memberships service: admits a membership after an ordered series of
    checks, and answers the membership queries. */
module MembershipsService {
  import opened Domain

  /** `ids.stream().anyMatch(userId::equals)`: scans the list in order. */
  function AnyMatch(ids: seq<Uuid>, userId: Uuid): (r: bool)
    ensures r <==> userId in ids
  {
    if |ids| == 0 then false
    else ids[0] == userId || AnyMatch(ids[1..], userId)
  }

  /** A user belongs to a team when it is the team's lead or one of its
      members. An absent lead matches nobody. */
  function UserBelongsToTeam(userId: Uuid, team: Team): (r: bool)
    ensures r <==> team.teamLeadId == Some(userId) || userId in team.teamMemberIds
  {
    var userIsTeamLead := team.teamLeadId == Some(userId);
    var userBelongsToMembers := AnyMatch(team.teamMemberIds, userId);
    userIsTeamLead || userBelongsToMembers
  }

  /** The membership repository's `findByUserIdAndTeamId`: the first stored
      membership of `userId` in `teamId`, if any. */
  function FindByUserIdAndTeamId(ms: seq<Membership>, userId: Uuid, teamId: Uuid): (r: Option<Membership>)
    ensures r.Some? <==> exists i :: 0 <= i < |ms| && IsFor(ms[i], userId, teamId)
    ensures r.Some? ==> r.value in ms && IsFor(r.value, userId, teamId)
  {
    if |ms| == 0 then None
    else if IsFor(ms[0], userId, teamId) then Some(ms[0])
    else FindByUserIdAndTeamId(ms[1..], userId, teamId)
  }

  /** The membership of `userId` in `teamId`, or NotFound naming the
      membership and the pair that was looked up. */
  function GetMembership(ms: seq<Membership>, teamId: Uuid, userId: Uuid): (r: Result<Membership>)
    ensures r.Success? <==> exists x :: x in ms && IsFor(x, userId, teamId)
    ensures r.Success? ==> r.value in ms && IsFor(r.value, userId, teamId)
    ensures r.Failure? ==> r.error == NotFound(MembershipClass, ByTeamAndUser(teamId, userId))
  {
    match FindByUserIdAndTeamId(ms, userId, teamId)
    case Some(x) => Success(x)
    case None => Failure(NotFound(MembershipClass, ByTeamAndUser(teamId, userId)))
  }

  /** `getMemberships(rid)`: the stored memberships whose role has
      identifier `rid`, in store order, each as often as it is stored. */
  function GetMemberships(ms: seq<Membership>, rid: Uuid): (r: seq<Membership>)
    ensures forall x :: x in r <==> x in ms && RoleIdOf(x) == Some(rid)
    ensures forall x :: multiset(r)[x] == if RoleIdOf(x) == Some(rid) then multiset(ms)[x] else 0
  {
    if |ms| == 0 then []
    else
      assert ms == [ms[0]] + ms[1..];
      var rest := GetMemberships(ms[1..], rid);
      if RoleIdOf(ms[0]) == Some(rid) then [ms[0]] + rest else rest
  }

  /** What every stored membership satisfied when it was admitted: its role
      exists, its user and team are given, the team exists and the user is
      its lead or one of its members. */
  predicate Legitimate(roles: map<Uuid, Role>, teams: map<Uuid, Team>, m: Membership) {
    && RoleIdOf(m).Some? && RoleIdOf(m).value in roles
    && m.userId.Some? && m.teamId.Some?
    && m.teamId.value in teams
    && UserBelongsToTeam(m.userId.value, teams[m.teamId.value])
  }

  /** The membership store's invariant: every membership is legitimate and
      no two memberships share a (user, team) pair. */
  predicate MembershipsInvariant(roles: map<Uuid, Role>, teams: map<Uuid, Team>, ms: seq<Membership>) {
    && (forall x | x in ms :: Legitimate(roles, teams, x))
    && (forall i, j | 0 <= i < |ms| && 0 <= j < |ms| && ms[i].userId == ms[j].userId && ms[i].teamId == ms[j].teamId :: i == j)
  }

  /** The checks of `createMembership`, in the order the service makes them;
      the first one that fails decides the error. */
  function ValidateMembership(m: Membership, roles: map<Uuid, Role>, teams: map<Uuid, Team>, ms: seq<Membership>): (r: Result<Membership>)
    ensures r.Success? ==> r.value == m
    ensures r == Failure(InvalidArgument(RoleClass, None)) <==> RoleIdOf(m).None?
    ensures (r.Failure? && r.error.NotFound? && r.error.entity == RoleClass)
        <==> (RoleIdOf(m).Some? && RoleIdOf(m).value !in roles)
    ensures r.Failure? && r.error.NotFound? && r.error.entity == RoleClass ==> r.error.key == ById(RoleIdOf(m).value)
    ensures r == Failure(InvalidArgument(UserClass, None))
        <==> (RoleIdOf(m).Some? && RoleIdOf(m).value in roles && m.userId.None?)
    ensures r == Failure(InvalidArgument(TeamClass, None))
        <==> (RoleIdOf(m).Some? && RoleIdOf(m).value in roles && m.userId.Some? && m.teamId.None?)
    ensures (r.Failure? && r.error.NotFound? && r.error.entity == TeamClass)
        <==> (RoleIdOf(m).Some? && RoleIdOf(m).value in roles && m.userId.Some? && m.teamId.Some? && m.teamId.value !in teams)
    ensures r.Failure? && r.error.NotFound? && r.error.entity == TeamClass ==> r.error.key == ById(m.teamId.value)
    ensures r == Failure(InvalidArgument(MembershipClass, Some(NotInTeamReason)))
        <==> (RoleIdOf(m).Some? && RoleIdOf(m).value in roles && m.userId.Some? && m.teamId.Some? && m.teamId.value in teams
              && !UserBelongsToTeam(m.userId.value, teams[m.teamId.value]))
    ensures r == Failure(Exists(MembershipClass))
        <==> (Legitimate(roles, teams, m) && exists x :: x in ms && IsFor(x, m.userId.value, m.teamId.value))
    ensures r.Success? <==> (Legitimate(roles, teams, m) && !exists x :: x in ms && IsFor(x, m.userId.value, m.teamId.value))
  {
    if RoleIdOf(m).None? then Failure(InvalidArgument(RoleClass, None))
    else if RoleIdOf(m).value !in roles then Failure(NotFound(RoleClass, ById(RoleIdOf(m).value)))
    else if m.userId.None? then Failure(InvalidArgument(UserClass, None))
    else if m.teamId.None? then Failure(InvalidArgument(TeamClass, None))
    else if m.teamId.value !in teams then Failure(NotFound(TeamClass, ById(m.teamId.value)))
    else if !UserBelongsToTeam(m.userId.value, teams[m.teamId.value]) then
      Failure(InvalidArgument(MembershipClass, Some(NotInTeamReason)))
    else if FindByUserIdAndTeamId(ms, m.userId.value, m.teamId.value).Some? then Failure(Exists(MembershipClass))
    else Success(m)
  }

  /** A membership is admitted exactly when storing it keeps the store's
      invariant. */
  lemma AdmittedIffInvariantKept(m: Membership, roles: map<Uuid, Role>, teams: map<Uuid, Team>, ms: seq<Membership>)
    requires MembershipsInvariant(roles, teams, ms)
    ensures ValidateMembership(m, roles, teams, ms).Success? <==> MembershipsInvariant(roles, teams, ms + [m])
  {
    var ms' := ms + [m];
    assert m in ms' && ms'[|ms|] == m;
    if ValidateMembership(m, roles, teams, ms).Success? {
      forall i | 0 <= i < |ms| ensures ms'[i] == ms[i] && !IsFor(ms[i], m.userId.value, m.teamId.value) {
        assert ms[i] in ms;
      }
    }
    if MembershipsInvariant(roles, teams, ms') {
      assert Legitimate(roles, teams, m);
      forall x | x in ms ensures !IsFor(x, m.userId.value, m.teamId.value) {
        var i :| 0 <= i < |ms| && ms[i] == x;
        assert ms'[i] == x;
      }
    }
  }

  /** Read after write: once a membership is admitted and stored, looking up
      its (team, user) pair returns it. */
  lemma AdmittedMembershipIsFound(m: Membership, roles: map<Uuid, Role>, teams: map<Uuid, Team>, ms: seq<Membership>)
    requires ValidateMembership(m, roles, teams, ms).Success?
    ensures GetMembership(ms + [m], m.teamId.value, m.userId.value) == Success(m)
  {
    var ms' := ms + [m];
    assert ms'[|ms|] == m;
    forall j | 0 <= j < |ms| ensures ms'[j] == ms[j] && !IsFor(ms[j], m.userId.value, m.teamId.value) {
      assert ms[j] in ms;
    }
  }

  /** A second membership for an already admitted (user, team) pair is
      refused with Exists, whichever stored role it refers to. */
  lemma SecondMembershipConflicts(m: Membership, m': Membership,
                                                     roles: map<Uuid, Role>, teams: map<Uuid, Team>, ms: seq<Membership>)
    requires ValidateMembership(m, roles, teams, ms).Success?
    requires RoleIdOf(m').Some? && RoleIdOf(m').value in roles
    requires m'.userId == m.userId && m'.teamId == m.teamId
    ensures ValidateMembership(m', roles, teams, ms + [m]) == Failure(Exists(MembershipClass))
  {
    assert m in ms + [m];
  }

  /** The checks that decide before any lookup is made do not depend on the
      stores: a missing role reference fails before the role store is
      consulted; a missing user or team id fails before the teams directory
      and the membership store are consulted; a user outside the team fails
      before the membership store is consulted. */
  lemma ValidationShortCircuits(m: Membership,
                                roles: map<Uuid, Role>, teams: map<Uuid, Team>, ms: seq<Membership>,
                                roles': map<Uuid, Role>, teams': map<Uuid, Team>, ms': seq<Membership>)
    ensures RoleIdOf(m).None? ==>
      ValidateMembership(m, roles, teams, ms) == ValidateMembership(m, roles', teams', ms')
    ensures (&& RoleIdOf(m).Some? && RoleIdOf(m).value in roles && RoleIdOf(m).value in roles'
             && (m.userId.None? || m.teamId.None?)) ==>
      ValidateMembership(m, roles, teams, ms) == ValidateMembership(m, roles', teams', ms')
    ensures (&& RoleIdOf(m).Some? && RoleIdOf(m).value in roles && m.userId.Some? && m.teamId.Some?
             && m.teamId.value in teams && !UserBelongsToTeam(m.userId.value, teams[m.teamId.value])) ==>
      ValidateMembership(m, roles, teams, ms) == ValidateMembership(m, roles, teams, ms')
  {
  }

  /** `createMembership`: the checks in order, each failing with its own
      error, then the membership is saved and returned as given. */
  method CreateMembership(store: Store, m: Membership) returns (r: Result<Membership>)
    modifies store`memberships
    ensures r == ValidateMembership(m, store.roles, store.teams, old(store.memberships))
    ensures store.memberships == if r.Success? then old(store.memberships) + [m] else old(store.memberships)
    ensures MembershipsInvariant(store.roles, store.teams, old(store.memberships))
        ==> MembershipsInvariant(store.roles, store.teams, store.memberships)
  {
    if m.role.None? || m.role.value.id.None? {
      return Failure(InvalidArgument(RoleClass, None));
    }
    var roleId := m.role.value.id.value;
    if roleId !in store.roles {
      return Failure(NotFound(RoleClass, ById(roleId)));
    }
    if m.userId.None? {
      return Failure(InvalidArgument(UserClass, None));
    }
    var userId := m.userId.value;
    if m.teamId.None? {
      return Failure(InvalidArgument(TeamClass, None));
    }
    var teamId := m.teamId.value;
    if teamId !in store.teams {
      return Failure(NotFound(TeamClass, ById(teamId)));
    }
    var team := store.teams[teamId];
    if !UserBelongsToTeam(userId, team) {
      return Failure(InvalidArgument(MembershipClass, Some(NotInTeamReason)));
    }
    if FindByUserIdAndTeamId(store.memberships, userId, teamId).Some? {
      return Failure(Exists(MembershipClass));
    }
    if MembershipsInvariant(store.roles, store.teams, store.memberships) {
      AdmittedIffInvariantKept(m, store.roles, store.teams, store.memberships);
    }
    store.memberships := store.memberships + [m];
    r := Success(m);
  }
}
