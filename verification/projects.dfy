/** The project handlers: listing, reading, creating and updating projects, and
    managing the (project, user) assignments that carry non-owner roles. */
module Projects {
  import opened Wrappers
  import opened Http
  import opened Body
  import opened Entities
  import opened Access
  import opened Validation

  type ProjectStore = map<int, Project>

  const DefaultColor: string := "#3b82f6"

  /** Every assignment names an existing project and an existing user, as the
      store's foreign keys guarantee. */
  predicate AssignmentsConsistent(projects: ProjectStore, users: set<int>, assignments: Assignments) {
    forall k :: k in assignments ==> k.0 in projects && k.1 in users
  }

  // ---------------------------------------------------------------------------
  // getAllProjects and getProject

  /** A project tagged with the caller's role on it. */
  datatype Tagged = Tagged(project: Project, userRole: string)

  datatype ProjectListing = ProjectListing(owned: map<int, Tagged>, shared: map<int, Tagged>, total: nat)

  /** `getAllProjects`: the caller's own projects tagged "owner", the projects
      they are assigned to tagged with the assignment's role, and the sum of
      both counts as the total. */
  function GetAllProjects(projects: ProjectStore, users: set<int>, assignments: Assignments, userId: int)
    : (r: ProjectListing)
    requires AssignmentsConsistent(projects, users, assignments)
    ensures forall pid :: pid in r.owned <==> Owns(projects, pid, userId)
    ensures forall pid :: pid in r.owned ==> pid in projects && r.owned[pid] == Tagged(projects[pid], "owner")
    ensures forall pid :: pid in r.shared <==> (pid, userId) in assignments
    ensures forall pid :: pid in r.shared ==> r.shared[pid] == Tagged(projects[pid], assignments[(pid, userId)])
    ensures r.total == |r.owned| + |r.shared|
  {
    var owned := map pid | pid in projects && projects[pid].ownerId == userId :: Tagged(projects[pid], "owner");
    var shared := map pid | pid in projects && (pid, userId) in assignments
                      :: Tagged(projects[pid], assignments[(pid, userId)]);
    ProjectListing(owned, shared, |owned| + |shared|)
  }

  /** The listing shows exactly the projects the caller can open, and for a
      project listed only once its tag is the effective role the access check
      resolves. */
  lemma ListingMatchesAccess(projects: ProjectStore, users: set<int>, assignments: Assignments, userId: int, pid: int)
    requires AssignmentsConsistent(projects, users, assignments)
    ensures var l := GetAllProjects(projects, users, assignments, userId);
            (pid in l.owned || pid in l.shared) <==> CheckProjectAccess(projects, assignments, pid, userId).Success?
    ensures var l := GetAllProjects(projects, users, assignments, userId);
            pid in l.owned ==> CheckProjectAccess(projects, assignments, pid, userId) == Success(l.owned[pid].userRole)
    ensures var l := GetAllProjects(projects, users, assignments, userId);
            pid in l.shared && pid !in l.owned ==>
              CheckProjectAccess(projects, assignments, pid, userId) == Success(l.shared[pid].userRole)
  {
  }

  /** An owner who also holds an assignment on their project sees it twice,
      once in each list, and it is counted twice in the total. */
  lemma OwnerWithAssignmentCountedTwice(projects: ProjectStore, users: set<int>, assignments: Assignments,
                                        userId: int, pid: int)
    requires AssignmentsConsistent(projects, users, assignments)
    requires Owns(projects, pid, userId) && (pid, userId) in assignments
    ensures var l := GetAllProjects(projects, users, assignments, userId);
            pid in l.owned && pid in l.shared && l.total >= 2
  {
    var l := GetAllProjects(projects, users, assignments, userId);
    assert pid in l.owned.Keys && pid in l.shared.Keys;
  }

  /** `getProject`: the project with the caller's resolved role, or 404. */
  function GetProject(projects: ProjectStore, projectId: int, userRole: string): (r: Result<Tagged, Failure>)
    ensures r.Success? <==> projectId in projects
    ensures r.Failure? ==> r.error == NotFound("Project not found")
    ensures r.Success? ==> r.value.project == projects[projectId] && r.value.userRole == userRole
  {
    if projectId in projects then Success(Tagged(projects[projectId], userRole))
    else Failure(NotFound("Project not found"))
  }

  /** Behind the access gate the 404 cannot happen: a caller who passes the
      access check owns or is assigned to the project, and assignments only
      name existing projects, so the project is found. */
  lemma AccessImpliesProjectFound(projects: ProjectStore, users: set<int>, assignments: Assignments,
                                  projectId: int, userId: int)
    requires AssignmentsConsistent(projects, users, assignments)
    requires CheckProjectAccess(projects, assignments, projectId, userId).Success?
    ensures var role := CheckProjectAccess(projects, assignments, projectId, userId).value;
            GetProject(projects, projectId, role) == Success(Tagged(projects[projectId], role))
  {
    if !Owns(projects, projectId, userId) {
      assert (projectId, userId) in assignments;
    }
  }

  // ---------------------------------------------------------------------------
  // createProject and updateProject

  /** Every stored colour matches the colour validator's pattern. */
  predicate ColorsValid(projects: ProjectStore) {
    forall pid :: pid in projects ==> IsHexColor(projects[pid].color)
  }

  /** The row `createProject` builds from a validated body: the caller owns
      it, a missing colour becomes the default blue, a missing end date null. */
  function NewProject(id: int, ownerId: int, b: ProjectBody): (p: Project)
    requires b.name.Given? && IsIsoDate(b.startDate)
    ensures p.id == id && p.ownerId == ownerId && p.name == b.name.value
    ensures p.description == (if b.description.Given? then Some(b.description.value) else None)
    ensures p.startDate == b.startDate.value.instant
    ensures b.endDate.Given? && b.endDate.value.Iso? ==> p.endDate == Some(b.endDate.value.instant)
    ensures !(b.endDate.Given? && b.endDate.value.Iso?) ==> p.endDate.None?
    ensures p.color == (if b.color.Given? && b.color.value != "" then b.color.value else DefaultColor)
    ensures b.color.Absent? || (b.color.Given? && IsHexColor(b.color.value)) ==> IsHexColor(p.color)
  {
    assert IsHexColor(DefaultColor);
    Project(
      id := id,
      name := b.name.value,
      description := if b.description.Given? then Some(b.description.value) else None,
      startDate := b.startDate.value.instant,
      endDate := if b.endDate.Given? && b.endDate.value.Iso? then Some(b.endDate.value.instant) else None,
      color := if TruthyString(b.color) then b.color.value else DefaultColor,
      ownerId := ownerId
    )
  }

  /** `createProject` behind the project validators; `id` is the fresh
      identifier the store assigns. */
  function CreateProject(projects: ProjectStore, ownerId: int, body: ProjectBody, id: int)
    : (r: Result<ProjectStore, Failure>)
    requires id !in projects
    ensures r.Success? <==> ProjectBodyValid(body)
    ensures r.Failure? ==> r.error == ValidationFailed
    ensures r.Success? ==> r.value.Keys == projects.Keys + {id}
    ensures r.Success? ==> forall k :: k in projects ==> r.value[k] == projects[k]
    ensures r.Success? ==> r.value[id] == NewProject(id, ownerId, ValidateProject(body).value)
    ensures r.Success? ==> r.value[id].ownerId == ownerId && r.value[id].name == Trim(body.name.value)
    ensures r.Success? && ColorsValid(projects) ==> ColorsValid(r.value)
  {
    var v := ValidateProject(body);
    if v.None? then Failure(ValidationFailed)
    else
      var p := NewProject(id, ownerId, v.value);
      assert IsHexColor(p.color);
      Success(projects[id := p])
  }

  /** Whether the store accepts every present field of an update body. */
  predicate ProjectMergeStorable(b: ProjectBody) {
    && !b.name.Null?
    && (b.startDate.Given? ==> b.startDate.value.Iso?)
    && !(b.endDate.Given? && b.endDate.value.Unparseable?)
    && !b.color.Null?
  }

  /** The controller's merge in `updateProject`: each present field overwrites
      its column; a present end date that is falsy clears the column. */
  function MergeProject(p: Project, b: ProjectBody): (r: Option<Project>)
    ensures r.Some? <==> ProjectMergeStorable(b)
    ensures r.Some? ==> r.value.id == p.id && r.value.ownerId == p.ownerId
    ensures r.Some? ==> r.value.name == Overwrite(p.name, b.name) && r.value.color == Overwrite(p.color, b.color)
    ensures r.Some? ==> r.value.description == OverwriteNullable(p.description, b.description)
    ensures r.Some? ==> r.value.startDate == OverwriteDate(p.startDate, b.startDate)
    ensures r.Some? && b.endDate.Absent? ==> r.value.endDate == p.endDate
    ensures r.Some? && (b.endDate.Null? || b.endDate == Given(Blank)) ==> r.value.endDate.None?
    ensures r.Some? && b.endDate.Given? && b.endDate.value.Iso? ==> r.value.endDate == Some(b.endDate.value.instant)
  {
    if !ProjectMergeStorable(b) then None
    else
      var endDate :=
        if b.endDate.Absent? then p.endDate
        else if b.endDate.Given? && b.endDate.value.Iso? then Some(b.endDate.value.instant)
        else None;
      Some(p.(name := Overwrite(p.name, b.name),
              description := OverwriteNullable(p.description, b.description),
              startDate := OverwriteDate(p.startDate, b.startDate),
              endDate := endDate,
              color := Overwrite(p.color, b.color)))
  }

  /** `updateProject` behind the project validators, which the update route
      also runs, so `name` and `startDate` are required even in an update.
      An unknown id is a store error; nothing but the named row changes. */
  function UpdateProject(projects: ProjectStore, projectId: int, body: ProjectBody)
    : (r: Result<ProjectStore, Failure>)
    ensures !ProjectBodyValid(body) ==> r == Failure(ValidationFailed)
    ensures r.Success? <==> ProjectBodyValid(body) && projectId in projects
    ensures ProjectBodyValid(body) && projectId !in projects ==> r == Failure(ServerError("Failed to update project"))
    ensures r.Success? ==> r.value.Keys == projects.Keys
    ensures r.Success? ==> forall k :: k in projects && k != projectId ==> r.value[k] == projects[k]
    ensures r.Success? ==> MergeProject(projects[projectId], ValidateProject(body).value) == Some(r.value[projectId])
    ensures r.Success? && ColorsValid(projects) ==> ColorsValid(r.value)
  {
    var v := ValidateProject(body);
    if v.None? then Failure(ValidationFailed)
    else if projectId !in projects then Failure(ServerError("Failed to update project"))
    else
      var p := MergeProject(projects[projectId], v.value).value;
      Success(projects[projectId := p])
  }

  /** Through the validated route an end date is never cleared: the validator
      admits only a missing or an ISO end date, so the merge's clearing branch
      is unreachable from the update endpoint. */
  lemma UpdateNeverClearsEndDate(projects: ProjectStore, projectId: int, body: ProjectBody)
    requires UpdateProject(projects, projectId, body).Success?
    requires projects[projectId].endDate.Some?
    ensures UpdateProject(projects, projectId, body).value[projectId].endDate.Some?
  {
  }

  // ---------------------------------------------------------------------------
  // Assignments

  /** `assignUser` behind the assignment validators: an unknown user is a 404;
      otherwise an upsert keyed by (project, user). An existing assignment gets
      the given role (an absent role leaves it as it was); a new one gets the
      given role or "member". */
  function AssignUser(projects: ProjectStore, users: set<int>, assignments: Assignments,
                      projectId: int, body: AssignmentBody): (r: Result<Assignments, Failure>)
    ensures ValidateAssignment(body).None? ==> r == Failure(ValidationFailed)
    ensures var v := ValidateAssignment(body);
            v.Some? && v.value.userId !in users ==> r == Failure(NotFound("User not found"))
    ensures var v := ValidateAssignment(body);
            r.Success? <==>
              v.Some? && v.value.userId in users && ((projectId, v.value.userId) in assignments || projectId in projects)
    ensures var v := ValidateAssignment(body);
            r.Success? ==>
              && r.value.Keys == assignments.Keys + {(projectId, v.value.userId)}
              && (forall k :: k in assignments && k != (projectId, v.value.userId) ==> r.value[k] == assignments[k])
    ensures var v := ValidateAssignment(body);
            r.Success? && body.role.Given? ==> r.value[(projectId, v.value.userId)] == body.role.value
    ensures var v := ValidateAssignment(body);
            r.Success? && body.role.Absent? && (projectId, v.value.userId) in assignments ==>
              r.value[(projectId, v.value.userId)] == assignments[(projectId, v.value.userId)]
    ensures var v := ValidateAssignment(body);
            r.Success? && body.role.Absent? && (projectId, v.value.userId) !in assignments ==>
              r.value[(projectId, v.value.userId)] == "member"
    ensures r.Success? && AssignmentsConsistent(projects, users, assignments) ==>
              AssignmentsConsistent(projects, users, r.value)
  {
    var v := ValidateAssignment(body);
    if v.None? then Failure(ValidationFailed)
    else
      var key := (projectId, v.value.userId);
      if v.value.userId !in users then Failure(NotFound("User not found"))
      else if key in assignments then
        Success(assignments[key := Overwrite(assignments[key], v.value.role)])
      else if projectId !in projects then Failure(ServerError("Failed to assign user"))
      else
        Success(assignments[key := if TruthyString(v.value.role) then v.value.role.value else "member"])
  }

  /** Assigning twice with the same request is assigning once. */
  lemma AssignUserIdempotent(projects: ProjectStore, users: set<int>, assignments: Assignments,
                             projectId: int, body: AssignmentBody)
    requires AssignUser(projects, users, assignments, projectId, body).Success?
    ensures var once := AssignUser(projects, users, assignments, projectId, body).value;
            AssignUser(projects, users, once, projectId, body) == Success(once)
  {
    var once := AssignUser(projects, users, assignments, projectId, body).value;
    var key := (projectId, ValidateAssignment(body).value.userId);
    assert once[key := Overwrite(once[key], body.role)] == once;
  }

  /** After an assignment the user reaches the project with the assigned role,
      unless they own it, in which case they remain "owner". */
  lemma AssignUserGrantsAccess(projects: ProjectStore, users: set<int>, assignments: Assignments,
                               projectId: int, body: AssignmentBody)
    requires AssignUser(projects, users, assignments, projectId, body).Success?
    ensures var after := AssignUser(projects, users, assignments, projectId, body).value;
            var userId := ValidateAssignment(body).value.userId;
            CheckProjectAccess(projects, after, projectId, userId)
              == Success(if Owns(projects, projectId, userId) then "owner" else after[(projectId, userId)])
  {
  }

  /** `removeUser`: deletes exactly the (project, user) assignment; a missing
      one is a store error. */
  function RemoveUser(assignments: Assignments, projectId: int, userId: int): (r: Result<Assignments, Failure>)
    ensures r.Success? <==> (projectId, userId) in assignments
    ensures r.Failure? ==> r.error == ServerError("Failed to remove user")
    ensures r.Success? ==> r.value.Keys == assignments.Keys - {(projectId, userId)}
    ensures r.Success? ==> forall k :: k in r.value ==> r.value[k] == assignments[k]
  {
    if (projectId, userId) in assignments then Success(assignments - {(projectId, userId)})
    else Failure(ServerError("Failed to remove user"))
  }

  /** Assigning a user who had no assignment and then removing them restores
      the assignments exactly. */
  lemma AssignThenRemoveRestores(projects: ProjectStore, users: set<int>, assignments: Assignments,
                                 projectId: int, body: AssignmentBody)
    requires AssignUser(projects, users, assignments, projectId, body).Success?
    requires (projectId, ValidateAssignment(body).value.userId) !in assignments
    ensures var after := AssignUser(projects, users, assignments, projectId, body).value;
            RemoveUser(after, projectId, ValidateAssignment(body).value.userId) == Success(assignments)
  {
    var after := AssignUser(projects, users, assignments, projectId, body).value;
    var key := (projectId, ValidateAssignment(body).value.userId);
    assert after - {key} == assignments;
  }

  /** After removal a user who does not own the project is denied access. */
  lemma RemoveUserRevokesAccess(projects: ProjectStore, assignments: Assignments, projectId: int, userId: int)
    requires RemoveUser(assignments, projectId, userId).Success?
    requires !Owns(projects, projectId, userId)
    ensures CheckProjectAccess(projects, RemoveUser(assignments, projectId, userId).value, projectId, userId)
              == Failure(Forbidden("Access denied to this project"))
  {
  }

  /** `updateUserRole` behind the role validator: replaces the role of that
      one assignment; a missing assignment is a store error. */
  function UpdateUserRole(assignments: Assignments, projectId: int, userId: int, role: Field<string>)
    : (r: Result<Assignments, Failure>)
    ensures ValidateRoleUpdate(role).None? ==> r == Failure(ValidationFailed)
    ensures r.Success? <==> ValidateRoleUpdate(role).Some? && (projectId, userId) in assignments
    ensures ValidateRoleUpdate(role).Some? && (projectId, userId) !in assignments ==>
              r == Failure(ServerError("Failed to update user role"))
    ensures r.Success? ==> r.value.Keys == assignments.Keys
    ensures r.Success? ==> forall k :: k in assignments && k != (projectId, userId) ==> r.value[k] == assignments[k]
    ensures r.Success? ==> r.value[(projectId, userId)] == role.value && role.value in RoleNames
  {
    match ValidateRoleUpdate(role)
    case None => Failure(ValidationFailed)
    case Some(newRole) =>
      if (projectId, userId) in assignments then Success(assignments[(projectId, userId) := newRole])
      else Failure(ServerError("Failed to update user role"))
  }

  /** Changing the role of an existing assignment does what re-assigning the
      user with that role does, and the user's access then resolves to the new
      role unless they own the project. */
  lemma UpdateUserRoleIsReassign(projects: ProjectStore, users: set<int>, assignments: Assignments,
                                 projectId: int, userId: int, role: string)
    requires AssignmentsConsistent(projects, users, assignments)
    requires (projectId, userId) in assignments && role in RoleNames
    ensures UpdateUserRole(assignments, projectId, userId, Given(role))
              == AssignUser(projects, users, assignments, projectId, AssignmentBody(Given(userId as real), Given(role)))
    ensures !Owns(projects, projectId, userId) ==>
              CheckProjectAccess(projects, UpdateUserRole(assignments, projectId, userId, Given(role)).value,
                                 projectId, userId) == Success(role)
  {
    var body := AssignmentBody(Given(userId as real), Given(role));
    assert (userId as real).Floor == userId;
    assert ValidateAssignment(body) == Some(AssignmentRequest(userId, Given(role)));
  }
}
