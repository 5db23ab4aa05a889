/** The two route tables: which gates of the permissions middleware stand in
    front of each endpoint, and what the chain of gates admits. Authentication
    runs first on every route and is not part of this model; it supplies the
    caller's user id and whatever `userRole` the request already carries. */
module Routes {
  import opened Wrappers
  import opened Http
  import opened Entities
  import opened Access
  import opened Roles

  datatype Endpoint =
    // the task routes
    | ListTasks | CreateTask | UpdateTask | DeleteTask | BulkUpdate | CreateDependency | DeleteDependency
    // the project routes
    | ListProjects | CreateProject | GetProject | UpdateProject | DeleteProject
    | AssignUser | RemoveUser | UpdateUserRole

  /** One permission middleware in a route's chain. */
  datatype Gate = ProjectAccess | RoleGate(allowed: seq<string>)

  /** The permission gates of each route, in the order they run. Validators run
      after them and are modelled separately. */
  function Chain(e: Endpoint): (gates: seq<Gate>)
    ensures gates == [] <==> e in {BulkUpdate, CreateDependency, DeleteDependency, ListProjects, CreateProject}
    ensures ProjectAccess in gates <==>
              e in {ListTasks, CreateTask, GetProject, UpdateProject, DeleteProject, AssignUser, RemoveUser, UpdateUserRole}
    ensures ProjectAccess in gates ==> gates[0] == ProjectAccess
    ensures |gates| <= 2 && forall i :: 0 < i < |gates| ==> gates[i].RoleGate?
    ensures forall i :: 0 <= i < |gates| && gates[i].RoleGate? ==> gates[i].allowed in {OwnerRoles, AdminRoles, MemberRoles}
    ensures e == DeleteProject ==> RoleGate(OwnerRoles) in gates
    ensures e in {UpdateProject, AssignUser, RemoveUser, UpdateUserRole} ==> RoleGate(AdminRoles) in gates
    ensures e in {CreateTask, UpdateTask, DeleteTask} ==> RoleGate(MemberRoles) in gates
  {
    match e
    case ListTasks => [ProjectAccess]
    case CreateTask => [ProjectAccess, RoleGate(MemberRoles)]
    case UpdateTask => [RoleGate(MemberRoles)]
    case DeleteTask => [RoleGate(MemberRoles)]
    case BulkUpdate => []
    case CreateDependency => []
    case DeleteDependency => []
    case ListProjects => []
    case CreateProject => []
    case GetProject => [ProjectAccess]
    case UpdateProject => [ProjectAccess, RoleGate(AdminRoles)]
    case DeleteProject => [ProjectAccess, RoleGate(OwnerRoles)]
    case AssignUser => [ProjectAccess, RoleGate(AdminRoles)]
    case RemoveUser => [ProjectAccess, RoleGate(AdminRoles)]
    case UpdateUserRole => [ProjectAccess, RoleGate(AdminRoles)]
  }

  /** Runs a chain of gates. The project-access gate sets the request's role
      to the effective role; a role gate checks whatever role the request
      carries at that point. The result is the role the handler sees. */
  function RunChain(gates: seq<Gate>, projects: map<int, Project>, assignments: Assignments,
                    projectId: int, userId: int, role: Option<string>): (r: Result<Option<string>, Failure>)
    ensures gates == [] ==> r == Success(role)
    ensures r.Failure? ==> Status(r.error) == 403
    ensures ProjectAccess in gates && r.Success? ==>
              CheckProjectAccess(projects, assignments, projectId, userId).Success?
              && r.value == Some(CheckProjectAccess(projects, assignments, projectId, userId).value)
    ensures ProjectAccess !in gates && r.Success? ==> r.value == role
    ensures (forall i :: 0 < i < |gates| ==> gates[i].RoleGate?) ==>
              var access := CheckProjectAccess(projects, assignments, projectId, userId);
              var seen := if |gates| > 0 && gates[0].ProjectAccess? && access.Success? then Some(access.value) else role;
              (r.Success? <==>
                 && (|gates| > 0 && gates[0].ProjectAccess? ==> access.Success?)
                 && forall i :: 0 <= i < |gates| && gates[i].RoleGate? ==> RequireRole(gates[i].allowed, seen).Success?)
    decreases |gates|
  {
    if gates == [] then Success(role)
    else
      var step := match gates[0]
        case ProjectAccess =>
          (match CheckProjectAccess(projects, assignments, projectId, userId)
           case Success(effective) => Success(Some(effective))
           case Failure(e) => Failure(e))
        case RoleGate(allowed) =>
          (match RequireRole(allowed, role)
           case Success(_) => Success(role)
           case Failure(e) => Failure(e));
      if step.Failure? then Failure(step.error)
      else
        assert gates == [gates[0]] + gates[1..];
        RunChain(gates[1..], projects, assignments, projectId, userId, step.value)
  }

  /** Whether a request reaches the handler of endpoint `e`; `preRole` is the
      role the request carries before the chain runs. */
  function Admit(e: Endpoint, projects: map<int, Project>, assignments: Assignments,
                 projectId: int, userId: int, preRole: Option<string>): Result<Option<string>, Failure>
  {
    RunChain(Chain(e), projects, assignments, projectId, userId, preRole)
  }

  /** Listing a project's tasks and reading a project need access to the
      project and nothing more; the handler sees the effective role. */
  lemma ReadRoutesNeedAccess(e: Endpoint, projects: map<int, Project>, assignments: Assignments,
                             projectId: int, userId: int, preRole: Option<string>)
    requires e == ListTasks || e == GetProject
    ensures var r := Admit(e, projects, assignments, projectId, userId, preRole);
            var access := CheckProjectAccess(projects, assignments, projectId, userId);
            (r.Success? <==> access.Success?) && (r.Success? ==> r.value == Some(access.value))
            && (r.Failure? ==> r.error == access.error)
  {
    assert Chain(e)[1..] == [];
  }

  /** Creating a task, and every project-scoped write (update, delete,
      assigning, removing and re-roling users), is admitted exactly when the
      effective role on the project is "owner": the project's owner, or a user
      whose assignment records the role "owner". An admin or member assignment
      is refused with the gate's 403. */
  lemma ScopedWritesOwnerOnly(e: Endpoint, projects: map<int, Project>, assignments: Assignments,
                              projectId: int, userId: int, preRole: Option<string>)
    requires e in {CreateTask, UpdateProject, DeleteProject, AssignUser, RemoveUser, UpdateUserRole}
    ensures var r := Admit(e, projects, assignments, projectId, userId, preRole);
            r.Success? <==> CheckProjectAccess(projects, assignments, projectId, userId) == Success("owner")
    ensures var r := Admit(e, projects, assignments, projectId, userId, preRole);
            var access := CheckProjectAccess(projects, assignments, projectId, userId);
            access.Success? && access.value in {"admin", "member"} ==>
              r.Failure? && r.error.InsufficientRole? && r.error.current == access.value
  {
    var allowed := ScopedRoles(e);
    AccessThenRole(allowed, projects, assignments, projectId, userId, preRole);
    var access := CheckProjectAccess(projects, assignments, projectId, userId);
    if access.Success? {
      OwnerBar(allowed, access.value);
      if access.value in {"admin", "member"} {
        assert HasRole(Some(access.value));
      }
    }
  }

  /** The role list of a project-scoped write's role gate; its chain is the
      access gate, then that role gate. */
  function ScopedRoles(e: Endpoint): (allowed: seq<string>)
    requires e in {CreateTask, UpdateProject, DeleteProject, AssignUser, RemoveUser, UpdateUserRole}
    ensures Chain(e) == [ProjectAccess, RoleGate(allowed)]
    ensures allowed in {OwnerRoles, AdminRoles, MemberRoles}
  {
    if e == CreateTask then MemberRoles else if e == DeleteProject then OwnerRoles else AdminRoles
  }

  /** The three gates the routes use all admit exactly the role "owner". */
  lemma OwnerBar(allowed: seq<string>, role: string)
    requires allowed in {OwnerRoles, AdminRoles, MemberRoles}
    ensures RequireRole(allowed, Some(role)).Success? <==> role == "owner"
  {
    if allowed == OwnerRoles {
      assert RequireOwner(Some(role)) == RequireRole(allowed, Some(role));
    } else if allowed == AdminRoles {
      assert RequireAdmin(Some(role)) == RequireRole(allowed, Some(role));
    } else {
      assert RequireMember(Some(role)) == RequireRole(allowed, Some(role));
    }
  }

  /** A project-access gate followed by a role gate: the role gate judges the
      effective role the access check resolved. */
  lemma AccessThenRole(allowed: seq<string>, projects: map<int, Project>, assignments: Assignments,
                       projectId: int, userId: int, preRole: Option<string>)
    ensures var r := RunChain([ProjectAccess, RoleGate(allowed)], projects, assignments, projectId, userId, preRole);
            var access := CheckProjectAccess(projects, assignments, projectId, userId);
            && (access.Failure? ==> r == Failure(access.error))
            && (access.Success? ==> (r.Success? <==> RequireRole(allowed, Some(access.value)).Success?))
            && (access.Success? && r.Failure? ==> r.error == RequireRole(allowed, Some(access.value)).error)
  {
    var gates := [ProjectAccess, RoleGate(allowed)];
    var access := CheckProjectAccess(projects, assignments, projectId, userId);
    if access.Success? {
      assert gates[1..] == [RoleGate(allowed)] && gates[1..][1..] == [];
      assert RunChain(gates, projects, assignments, projectId, userId, preRole)
          == RunChain(gates[1..], projects, assignments, projectId, userId, Some(access.value));
    }
  }

  /** Updating and deleting a task check only the role the request already
      carries, never the task's project: the outcome is the same for every
      store and every caller id, and only a carried role "owner" passes. */
  lemma TaskWritesIgnoreProject(e: Endpoint, projects: map<int, Project>, assignments: Assignments,
                                projectId: int, userId: int, preRole: Option<string>)
    requires e == UpdateTask || e == DeleteTask
    ensures var r := Admit(e, projects, assignments, projectId, userId, preRole);
            r == Admit(e, map[], map[], 0, 0, preRole)
    ensures Admit(e, projects, assignments, projectId, userId, preRole).Success? <==> preRole == Some("owner")
    ensures preRole.None? ==> Admit(e, projects, assignments, projectId, userId, preRole)
                                == Failure(Forbidden("Access denied"))
  {
    assert Chain(e)[1..] == [];
  }

  /** The bulk update, both dependency routes and the project list and create
      routes have no permission gate: every authenticated request reaches the
      handler, whatever projects it touches. */
  lemma UngatedRoutesAdmitAll(e: Endpoint, projects: map<int, Project>, assignments: Assignments,
                              projectId: int, userId: int, preRole: Option<string>)
    requires e in {BulkUpdate, CreateDependency, DeleteDependency, ListProjects, CreateProject}
    ensures Admit(e, projects, assignments, projectId, userId, preRole) == Success(preRole)
  {
  }
}
