/** `checkProjectAccess`: the caller's effective role on a project is "owner"
    when they own it, else the role of their assignment, else access is denied. */
module Access {
  import opened Wrappers
  import opened Http
  import opened Entities

  predicate Owns(projects: map<int, Project>, projectId: int, userId: int) {
    projectId in projects && projects[projectId].ownerId == userId
  }

  /** The effective role, or a 403 when the caller neither owns nor is assigned
      to the project. Ownership is looked up first, so it wins over any
      assignment the owner also holds. */
  function CheckProjectAccess(projects: map<int, Project>, assignments: Assignments,
                              projectId: int, userId: int): (r: Result<string, Failure>)
    ensures r.Success? <==> Owns(projects, projectId, userId) || (projectId, userId) in assignments
    ensures Owns(projects, projectId, userId) ==> r == Success("owner")
    ensures !Owns(projects, projectId, userId) && (projectId, userId) in assignments ==>
              r == Success(assignments[(projectId, userId)])
    ensures r.Failure? ==> r.error == Forbidden("Access denied to this project")
  {
    if Owns(projects, projectId, userId) then Success("owner")
    else if (projectId, userId) in assignments then Success(assignments[(projectId, userId)])
    else Failure(Forbidden("Access denied to this project"))
  }

  /** An assignment never lowers the owner's effective role: whatever role an
      assignment row records for the owner, the resolved role is "owner". */
  lemma OwnershipWins(projects: map<int, Project>, assignments: Assignments,
                      projectId: int, userId: int, role: string)
    requires Owns(projects, projectId, userId)
    ensures CheckProjectAccess(projects, assignments[(projectId, userId) := role], projectId, userId)
              == CheckProjectAccess(projects, assignments, projectId, userId)
              == Success("owner")
  {
  }
}
