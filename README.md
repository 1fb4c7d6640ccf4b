# Roles and memberships: a Dafny model of the service layer

This project models the service layer of a small role-resolution backend. A
**Role** is a named position with a globally unique name. A **Team** comes
from an external teams directory: it has a lead and a list of member ids. A
**Membership** assigns one role to one user within one team. The layer has
two services:

- the **memberships service** admits a membership after seven ordered checks.
  The first failing check decides the error. It also lists the memberships of
  a role.
- the **roles service** creates roles under a unique name. It fetches a role by
  id, lists all roles, and resolves the role a user holds in a team in three
  hops: team, then membership, then role.

Files:

- `domain.dfy` (module `Domain`) holds the entities and the error taxonomy.
  An error is `InvalidArgument`, `NotFound` or `Exists`, and names the entity
  class plus the key or reason. It also holds the class `Store`: the role
  repository's contents (a map from id to role), the membership repository's
  contents (a sequence in insertion order) and the read-only teams directory.
- `memberships_service.dfy` (module `MembershipsService`) models
  `MembershipsServiceImpl`. The checks of `createMembership` are the pure
  function `ValidateMembership`. The method `CreateMembership` runs the same
  guards one by one on a `Store` and appends to the membership store. Its
  contract ties it to `ValidateMembership`.
- `roles_service.dfy` (module `RolesService`) models `RolesServiceImpl`.
  `CreateRole` is a method on the `Store`. The lookups are functions over
  the store's contents.
- `scenarios.dfy` (module `Scenarios`) shows the two services working
  together: a created membership resolves to its role. It also walks through
  a concrete scenario, checked by the verifier: create a role, admit a
  membership, resolve it, then reach each failure path.

The store invariants are value predicates:

- `RolesInvariant`: each role is stored under its own id, and role names are
  pairwise distinct.
- `MembershipsInvariant`: each stored membership refers to a stored role and
  to an existing team, and its user is that team's lead or a member. No two
  memberships share a (user, team) pair.

The mutating methods promise to keep these invariants. They do not require
them, because the services demand nothing of their callers.

"The service does not consult collaborator X on this path" is stated as
independence: on that path the result is the same whatever X holds.
`ValidationShortCircuits` says this for `createMembership`. The first two
ensures of `GetRoleOf` say it for `getRole(teamId, userId)`.

Points where the model follows the code closely:

- `createMembership` checks that the role exists through the role repository
  (`roleRepository.findById`, MembershipsServiceImpl.java:49-50). The unit
  test mocks `rolesService.getRole` at MembershipsServiceTest.java:45 and 60
  instead. Both fail with NotFound naming the role and its id, so the model
  states that one outcome.
- A duplicate membership or role name raises `ResourceExistsException`
  (MembershipsServiceImpl.java:68, RolesServiceImpl.java:46). It is modelled
  as `Exists`.
- `createMembership` returns `membershipRepository.save(m)`
  (MembershipsServiceImpl.java:71), which carries the id the repository
  generates. The model does not generate membership ids: it stores and
  returns the membership as given (see "## Left out").
- `getRole(teamId, userId)` looks up the membership with `team.getId()`, the
  id the directory reports for the team (RolesServiceImpl.java:63).

`getMembership(teamId, userId)` is called by the roles service, but neither
the memberships service nor its interface defines it. It is modelled as a
lookup by (user, team) that fails with `NotFound` naming the membership and
the pair. This is the behaviour the roles-service unit tests stub.

## Model

| member | source | states |
|---|---|---|
| `MembershipsService.AnyMatch` | src/main/java/com/ecore/roles/service/impl/MembershipsServiceImpl.java:78-80 | scanning the member list finds the user exactly when the user is in the list |
| `MembershipsService.UserBelongsToTeam` | src/main/java/com/ecore/roles/service/impl/MembershipsServiceImpl.java:74-83 | holds exactly when the user is the team's lead or appears among its member ids; an absent lead matches nobody |
| `MembershipsService.FindByUserIdAndTeamId` | src/main/java/com/ecore/roles/service/impl/MembershipsServiceImpl.java:66-67 | finds a membership exactly when one is stored for the (user, team) pair, and what it finds is a stored membership of that pair |
| `MembershipsService.GetMembership` | src/main/java/com/ecore/roles/service/impl/RolesServiceImpl.java:63 | succeeds exactly when a membership of the user in the team is stored and returns one; otherwise fails with NotFound naming Membership and the (team, user) pair |
| `MembershipsService.GetMemberships` | src/main/java/com/ecore/roles/service/impl/MembershipsServiceImpl.java:85-88 | returns exactly the stored memberships whose role id is the given id, each as often as it is stored; empty when none match |
| `MembershipsService.ValidateMembership` | src/main/java/com/ecore/roles/service/impl/MembershipsServiceImpl.java:43-71 | each error arises exactly when every earlier check passed and its own check fails, in the order role reference, role exists, user id, team id, team exists, user in team, no existing membership; success returns the input |
| `MembershipsService.AdmittedIffInvariantKept` | src/main/java/com/ecore/roles/service/impl/MembershipsServiceImpl.java:61-71 | in a store that keeps the invariant, a membership is admitted exactly when storing it keeps the invariant (role exists, user belongs to team, one membership per pair) |
| `MembershipsService.AdmittedMembershipIsFound` | src/main/java/com/ecore/roles/service/impl/MembershipsServiceImpl.java:66-71 | after an admitted membership is stored, the lookup of its (team, user) pair returns it |
| `MembershipsService.SecondMembershipConflicts` | src/test/java/com/ecore/roles/service/MembershipsServiceTest.java:70-87 | once a membership is stored, another one for the same (user, team) pair fails with Exists(Membership), whichever stored role it refers to |
| `MembershipsService.ValidationShortCircuits` | src/test/java/com/ecore/roles/service/MembershipsServiceTest.java:90-158 | a missing role reference decides the result whatever the stores hold; a missing user or team id decides it whatever the teams directory and the membership store hold; a user outside the team decides it whatever the membership store holds |
| `MembershipsService.CreateMembership` | src/main/java/com/ecore/roles/service/impl/MembershipsServiceImpl.java:43-72 | returns the first failing check's error or the input; appends the membership to the store only on success and changes nothing else; keeps the membership store invariant |
| `RolesService.GetRole` | src/main/java/com/ecore/roles/service/impl/RolesServiceImpl.java:51-55 | returns the stored role exactly when the id is stored; otherwise NotFound naming Role and the id |
| `RolesService.GetRoles` | src/main/java/com/ecore/roles/service/impl/RolesServiceImpl.java:68-71 | contains every stored role and nothing else |
| `RolesService.GetRolesAgreesWithGetRole` | src/main/java/com/ecore/roles/service/impl/RolesServiceImpl.java:69-71 | in a store that keeps the invariant, every listed role is fetched by its own id, and every role fetched by id is listed |
| `RolesService.GetRoleOf` | src/main/java/com/ecore/roles/service/impl/RolesServiceImpl.java:57-66 | an unknown team fails with NotFound(Team, teamId) whatever the stores hold; a failed membership lookup's error is returned unchanged whatever the role store holds; otherwise the result is the role lookup of the membership's role id; a success is the role of a stored membership of the user in the team |
| `RolesService.GetRoleOfResolvesMembership` | src/main/java/com/ecore/roles/service/impl/RolesServiceImpl.java:60-65 | if the team exists under its own id and a stored membership of the user in it refers to role R, the resolution returns R |
| `RolesService.CreateRole` | src/main/java/com/ecore/roles/service/impl/RolesServiceImpl.java:43-49 | fails with Exists(Role) and leaves the store unchanged exactly when a stored role has the name; otherwise stores the role under the generated id, returns it, and it can then be fetched by that id; keeps names unique and keeps the membership invariant |
| `Scenarios.CreatedMembershipResolvesRole` | src/main/java/com/ecore/roles/service/impl/RolesServiceImpl.java:58-66 | after a membership is admitted, resolving the role of its user in its team returns the role it refers to |

## Left out

- The HTTP layer is not modelled: REST controllers, API interfaces, DTO conversion and the mapping of error kinds to status codes.
- The service interfaces are not modelled. They only declare signatures.
- Persistence is modelled as in-memory contents of the two repositories. Storage failures are not modelled.
- The teams directory is an HTTP client. It is modelled as a fixed map that the services only read. Changes to teams over time are not modelled.
- Logging, Lombok-generated code and the lazy wiring between the two services are not modelled.
- Concurrency is not modelled: the race between the uniqueness lookup and the save is a storage concern.
- Exception messages are kept as the error kind, the entity class and the key. The formatted text is not modelled, except the reason given for a user outside the team.
- Blank or missing role names are not modelled. Bean validation rejects them before the service runs, and the service does not check them.
- Null arguments marked non-null are not modelled. Dafny's types exclude them.
- `CreateRole`: the role store generates the id, which is passed in as a fresh id. The store always saves the role under that id. The repository's merge behaviour for an input that already carries an id is not modelled.
- `CreateMembership`: the membership is saved and returned as given. The store's id generation for memberships is not modelled.
- `GetRoles`: returns a set, not the repository's list. Order is not modelled. Duplicates cannot occur because roles are stored under distinct ids.
- `GetRoleOf`: requires that, when the team exists, every stored membership of the user in that team carries a role id. If the membership found lacks one, the source throws a NullPointerException at `membership.getRole().getId()`. That exception is not modelled. `CreateMembership` never stores such a membership.
- `UserBelongsToTeam`: a team whose member list is null makes the source throw. This is not modelled: the member list is always a sequence.
