/** Entities, the error taxonomy and the persistent state shared by the
    roles and memberships services. */
module Domain {

  /** Identifiers (java.util.UUID); only equality is ever used on them. */
  type Uuid = nat

  /** A value that may be absent: a nullable Java reference or an Optional. */
  datatype Option<+T> = None | Some(value: T)

  /** The outcome of a service call: its value, or the exception it throws. */
  datatype Result<+T> = Success(value: T) | Failure(error: Error)

  /** A role. The identifier is absent until the role store generates one. */
  datatype Role = Role(id: Option<Uuid>, name: string)

  /** A team, as the external teams directory reports it. The lead may be
      absent; the member list is kept in the directory's order. */
  datatype Team = Team(id: Uuid, teamLeadId: Option<Uuid>, teamMemberIds: seq<Uuid>)

  /** A membership: the role a user holds in a team. Every reference is
      nullable on input, so each is an Option. */
  datatype Membership = Membership(
    id: Option<Uuid>,
    role: Option<Role>,
    userId: Option<Uuid>,
    teamId: Option<Uuid>)

  /** The entity class an exception names (Role.class, User.class, ...). */
  datatype EntityClass = RoleClass | UserClass | TeamClass | MembershipClass

  /** What a failed lookup was looking for. */
  datatype Key = ById(id: Uuid) | ByTeamAndUser(teamId: Uuid, userId: Uuid)

  /** The three exceptions of the service layer:
      InvalidArgumentException (entity class and an optional reason),
      ResourceNotFoundException (entity class and what was looked up) and
      ResourceExistsException (entity class). */
  datatype Error =
    | InvalidArgument(entity: EntityClass, reason: Option<string>)
    | NotFound(entity: EntityClass, key: Key)
    | Exists(entity: EntityClass)

  /** The reason given when a user is neither lead nor member of the team. */
  const NotInTeamReason: string := "The provided user doesn't belong to the provided team."

  /** The identifier of the role a membership refers to, absent when either
      the role or its identifier is null. */
  function RoleIdOf(m: Membership): (r: Option<Uuid>)
    ensures r.Some? <==> m.role.Some? && m.role.value.id.Some?
    ensures r.Some? ==> r.value == m.role.value.id.value
  {
    match m.role
    case None => None
    case Some(role) => role.id
  }

  /** True when a membership is the one of `userId` in `teamId`. */
  predicate IsFor(m: Membership, userId: Uuid, teamId: Uuid) {
    m.userId == Some(userId) && m.teamId == Some(teamId)
  }

  /** The state the services work on: the contents of the role repository
      (keyed by identifier), of the membership repository (in insertion
      order) and the teams directory, which the services only read. */
  class Store {
    var roles: map<Uuid, Role>
    var memberships: seq<Membership>
    const teams: map<Uuid, Team>

    constructor (teams: map<Uuid, Team>)
      ensures this.teams == teams
      ensures roles == map[] && memberships == []
    {
      this.teams := teams;
      roles := map[];
      memberships := [];
    }
  }
}
