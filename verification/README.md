# Project/task manager backend: permissions, dependency graph and stores

This project is a Dafny model of the server core of a Gantt-style project and
task manager. The server is built on Express and Prisma. The model covers:

- **Permissions.** The `requireRole` middleware maps role names to levels and
  admits a request only when its level reaches the *highest* level in the
  gate's allowed list. `checkProjectAccess` resolves a caller's effective role
  on a project: "owner" if they own it, otherwise their assignment's role,
  otherwise a 403.
- **The route tables.** These fix which gates stand before each endpoint, and
  which request-body validators run: enumerations, integer and range checks,
  the hex colour pattern and the `trim()` sanitizer.
- **The task dependency graph.** `createDependency` refuses an edge whose
  target already reaches its source. It finds this out with a visited-set
  traversal (`hasPath`). The model defines reachability by paths and proves
  that the traversal decides it. It then proves that creating and deleting
  edges keep the graph acyclic.
- **The task, project and assignment stores.** These are maps from ids to
  rows. The operations on them are creation with its defaults and the partial
  updates, where only the fields present in the body change. The bulk
  reschedule is one all-or-nothing transaction. Assignments are upserted,
  removed and re-roled under the (project, user) key.

The modules, in dependency order:

- `Wrappers`: `Option` and `Result`.
- `Http`: the kinds of error response.
- `Body`: JSON field presence (`Absent`, `Null`, `Given`), JavaScript truthiness, `trim`, and the Prisma write helpers. A missing field leaves its column alone.
- `Entities`: the rows.
- `Roles`: the role gate.
- `Access`: project access.
- `Graph`: reachability and the traversal.
- `Validation`: the body validators.
- `Dependencies`: creating and deleting dependencies.
- `Tasks`: the task handlers.
- `Projects`: the project and assignment handlers.
- `Routes`: the gate chains.

Conventions of the model:

- A request body field is `Absent` (JavaScript `undefined`), `Null` or `Given(v)`.
- JSON numbers are `real`. An integer column accepts only integral values.
- Dates are opaque instants (`int`). A date input is blank (falsy), a string the ISO-8601 check accepts, or any other string, which the model takes to be refused by the store.
- A write the store would refuse is a 500 with the handler's own message. Examples: a null in a non-nullable column, an unknown row, a broken foreign key.
- The database schema is not part of this model, so which columns accept null is inferred from how the handlers use them. Non-nullable: a task's `text`, `type`, `start`, `end`, `duration`, `progress`, `order` and `open`, and a project's `name`, `startDate` and `color`. Nullable: a task's `color` and `parent`, and a project's `description` and `endDate`.
- The 400 a handler returns when validation fails is the single value `ValidationFailed`.

## Model

| member | source | states |
|---|---|---|
| Body.Trim | backend/src/routes/tasks.js:18 | the sanitizer's result is a slice of the input with no whitespace (JavaScript `\s` set) at either end |
| Body.TrimEmptyIffAllSpace | backend/src/routes/tasks.js:18 | trimming yields the empty string exactly when every character is whitespace |
| Body.TrimIdempotent | backend/src/routes/projects.js:18 | trimming an already trimmed string changes nothing |
| Roles.LevelOf | backend/src/middleware/permissions.js:59-66 | owner 4, admin 3, member 2, viewer 1, and every other string 0, each level held by exactly one name |
| Roles.RequiredLevel | backend/src/middleware/permissions.js:67-69 | the bar is the maximum level in the allowed list: it bounds every entry and is attained by one; for an empty list it is below every level |
| Roles.RequireRole | backend/src/middleware/permissions.js:52-81 | no role (undefined or empty) gives 403 "Access denied"; otherwise the gate passes iff the caller's level is at least the level of every allowed role; a refusal carries the allowed list and the caller's role |
| Roles.RequireOwner | backend/src/middleware/permissions.js:84 | passes iff the role is "owner" |
| Roles.RequireAdmin | backend/src/middleware/permissions.js:87 | passes iff the role is "owner"; an admin is refused with the insufficient-role 403 |
| Roles.RequireMember | backend/src/middleware/permissions.js:90 | passes iff the role is "owner"; members and admins are refused |
| Roles.GateIsMaxRule | backend/src/middleware/permissions.js:66-73 | the gate's outcome is the literal comparison of the caller's level with the maximum of the allowed levels |
| Roles.GateMonotone | backend/src/middleware/permissions.js:71 | a role with a level at least that of a passing role passes too |
| Access.CheckProjectAccess | backend/src/middleware/permissions.js:6-44 | access iff the caller owns the project or holds an assignment on it; ownership gives "owner", otherwise the assignment's role; otherwise 403 "Access denied to this project" |
| Access.OwnershipWins | backend/src/middleware/permissions.js:11-23 | whatever role an assignment records for the owner, the resolved role stays "owner" |
| Graph.HasPath | backend/src/controllers/taskController.js:205-220 | the visited-set traversal answers true iff the target is reachable from the start along outgoing edges, and expands each node at most once (at most one expansion per edge target plus the start) |
| Graph.InsertPreservesAcyclic | backend/src/controllers/taskController.js:170-181 | inserting an edge whose target does not reach its source keeps an acyclic edge set acyclic |
| Graph.RemovePreservesAcyclic | backend/src/controllers/taskController.js:195 | removing any edge keeps an acyclic edge set acyclic, and reachability only shrinks |
| Dependencies.KindOrDefault | backend/src/controllers/taskController.js:179 | the stored type code is the given one when non-empty, else "0" |
| Dependencies.CheckCircularDependency | backend/src/controllers/taskController.js:204-223 | reports a cycle iff the new target already reaches the new source; a self-loop is always a cycle |
| Dependencies.CreateDependency | backend/src/controllers/taskController.js:162-188 | invalid body gives 400; a circular request (including a self-loop) gives 400 "Circular dependency detected"; success iff valid, not circular and both endpoints exist, and then exactly the new edge with the defaulted type is added; acyclicity is preserved |
| Dependencies.DeleteDependency | backend/src/controllers/taskController.js:191-201 | removes exactly the named edge; an unknown id is a 500 with no change; acyclicity is preserved |
| Dependencies.ChainRejectsClosingEdge | backend/src/controllers/taskController.js:204-222 | for the chain T1 -> T2 -> T3 the graph is acyclic and T1 reaches T3, so a dependency T3 -> T1 is reported circular |
| Validation.NotBlankIffTrimNonEmpty | backend/src/routes/tasks.js:18 | `trim().notEmpty()` holds iff the field is present and its trimmed value is non-empty |
| Validation.ValidateTask | backend/src/routes/tasks.js:17-24 | accepts iff text is non-blank, type (if given) is task/summary/milestone, start and end are ISO dates, duration (if given) is an integer >= 0 and progress (if given) lies in [0, 1]; the accepted body has its text trimmed |
| Validation.ValidateDependency | backend/src/routes/tasks.js:26-30 | accepts iff both ids are integers and the type, if given, is "0" to "3"; the ids are carried over exactly |
| Validation.ValidateProject | backend/src/routes/projects.js:18-24 | accepts iff name is non-blank, startDate is an ISO date, endDate (if given) is an ISO date and colour (if given) is '#' and six hex digits; name and a given description are trimmed |
| Validation.ValidateAssignment | backend/src/routes/projects.js:26-29 | accepts iff userId is an integer and the role, if given, is one of owner/admin/member/viewer |
| Validation.ValidateRoleUpdate | backend/src/routes/projects.js:31-33 | accepts iff a role is given and is one of the four role names |
| Tasks.NewTask | backend/src/controllers/taskController.js:61-75 | creation defaults: type "task", duration 1 (also for a given 0), progress 0, order 0, open true, colour and parent null when missing |
| Tasks.CreateTask | backend/src/controllers/taskController.js:53-82 | invalid body gives 400; a value the store refuses gives 500; on success exactly the new row is added, built from the trimmed body |
| Tasks.CreatedTaskWellFormed | backend/src/controllers/taskController.js:61-75 | every valid, storable body is created, and the created task has a known type, duration >= 1, progress in [0, 1] and trimmed non-empty text |
| Tasks.MergeTask | backend/src/controllers/taskController.js:93-103 | every absent field keeps its value and every present field overwrites its column; refused iff the store rejects a present value |
| Tasks.MergeTaskIdempotent | backend/src/controllers/taskController.js:93-103 | merging the same body twice is merging it once |
| Tasks.UpdateTask | backend/src/controllers/taskController.js:85-115 | success iff the task exists and the store accepts the body; only the named row changes, and it becomes the merge; otherwise 500 |
| Tasks.UpdateTaskIdempotent | backend/src/controllers/taskController.js:105-108 | repeating an update leaves the store as the first one did |
| Tasks.EmptyUpdateChangesNothing | backend/src/controllers/taskController.js:93-108 | an update naming no field leaves the store unchanged |
| Tasks.ApplyItem | backend/src/controllers/taskController.js:139-150 | one bulk entry writes only start, end, duration, order, parent and progress, each only when present; a falsy date leaves its column alone |
| Tasks.ApplyAll | backend/src/controllers/taskController.js:139-153 | the transaction succeeds iff every entry is applicable; then no ids are added or lost, the non-schedule fields never change, tasks the batch does not name are unchanged, and every task ends as the entries naming it write it, in batch order |
| Tasks.SoleEntryWins | backend/src/controllers/taskController.js:139-151 | an entry that is the only one naming its task sets that task to exactly what the entry writes |
| Tasks.BulkUpdate | backend/src/controllers/taskController.js:131-159 | a non-array is a 400 with no change; any refused entry is a 500 with every task unchanged; success reports the batch length and every task ends as the entries naming it write it, in batch order |
| Tasks.BulkWritesSoleEntry | backend/src/controllers/taskController.js:139-154 | in a successful batch, an entry that is the only one naming its task is written to that task exactly |
| Tasks.BulkUnknownIdChangesNothing | backend/src/controllers/taskController.js:139-158 | an entry naming a missing task fails the whole batch and leaves the store exactly as it was |
| Tasks.BulkStoresUnvalidatedProgress | backend/src/controllers/taskController.js:148 | the bulk route stores a progress of 5.0, outside the [0, 1] range the create validator enforces |
| Tasks.GetProjectTasks | backend/src/controllers/taskController.js:7-50 | one view per row in the same order, echoing the row's fields, with exactly the dependencies whose source is that task as links; total is the row count |
| Tasks.LinksAreSuccessors | backend/src/controllers/taskController.js:37-42 | the link targets of a listed task are exactly its successors in the dependency graph |
| Projects.GetAllProjects | backend/src/controllers/projectController.js:6-40 | owned lists exactly the caller's projects tagged "owner", assigned lists exactly the projects they hold an assignment on tagged with its role, and total is the sum of both counts |
| Projects.ListingMatchesAccess | backend/src/controllers/projectController.js:30-34 | a project is listed iff the caller passes the access check on it, and its tag is the role that check resolves |
| Projects.OwnerWithAssignmentCountedTwice | backend/src/controllers/projectController.js:30-34 | an owner who also holds an assignment on the project sees it in both lists, counted twice |
| Projects.GetProject | backend/src/controllers/projectController.js:42-59 | the project with the caller's role when it exists, else 404 "Project not found" |
| Projects.AccessImpliesProjectFound | backend/src/controllers/projectController.js:53 | a caller who passed the access check always finds the project, so the 404 cannot happen behind the gate |
| Projects.NewProject | backend/src/controllers/projectController.js:67-74 | the caller becomes the owner, the colour defaults to "#3b82f6", a missing end date is null and a valid colour stays valid |
| Projects.CreateProject | backend/src/controllers/projectController.js:61-82 | success iff the body validates; exactly the new row is added, owned by the caller, with the trimmed name; every stored colour still matches the hex pattern |
| Projects.MergeProject | backend/src/controllers/projectController.js:90-95 | absent fields keep their value, present fields overwrite, and a present but falsy end date clears it |
| Projects.UpdateProject | backend/src/controllers/projectController.js:84-107 | invalid body gives 400 (name and startDate are required even here); a missing project gives 500; only the named row changes, becoming the merge; stored colours stay valid |
| Projects.UpdateNeverClearsEndDate | backend/src/controllers/projectController.js:94 | through the validated route an existing end date is never cleared, since the validator admits no falsy end date |
| Projects.AssignUser | backend/src/controllers/projectController.js:119-140 | invalid body gives 400; an unknown user gives 404 "User not found"; otherwise an upsert on (project, user): an existing assignment takes a given role or keeps its own, a new one takes the given role or "member"; no other assignment changes; consistency of the foreign keys is kept |
| Projects.AssignUserIdempotent | backend/src/controllers/projectController.js:129-134 | repeating an assignment request changes nothing more |
| Projects.AssignUserGrantsAccess | backend/src/controllers/projectController.js:129-134 | after assignment the user passes the access check with the assigned role, or "owner" if they own the project |
| Projects.RemoveUser | backend/src/controllers/projectController.js:142-152 | removes exactly the (project, user) assignment; a missing one is a 500 |
| Projects.AssignThenRemoveRestores | backend/src/controllers/projectController.js:144-146 | assigning a new user and then removing them restores the assignments exactly |
| Projects.RemoveUserRevokesAccess | backend/src/controllers/projectController.js:144-146 | after removal a user who does not own the project gets the access 403 |
| Projects.UpdateUserRole | backend/src/controllers/projectController.js:154-170 | invalid role gives 400; a missing assignment gives 500; otherwise only that assignment's role changes, to the given valid role |
| Projects.UpdateUserRoleIsReassign | backend/src/controllers/projectController.js:160-164 | on an existing assignment, changing the role equals re-assigning the user with that role, and a non-owner then resolves to the new role |
| Routes.Chain | backend/src/routes/tasks.js:33-51 | which permission gates guard each of the fifteen endpoints, here and in the project table at backend/src/routes/projects.js:35-42: none on bulk update, the two dependency routes, and listing and creating projects; the access gate (always first) on listing tasks, creating a task, reading a project and every project-scoped write; at most one role gate after it, `requireOwner` on project delete, `requireAdmin` on project update and the three assignment routes, `requireMember` on task create, update and delete |
| Routes.RunChain | backend/src/routes/projects.js:38 | middleware runs in order and each gate either calls the next or ends the request: a chain of an optional leading access gate and role gates admits iff the access check passes (when present) and every role gate accepts the role it sees, which is the effective role after an access gate and the carried role otherwise; any refusal is a 403, and the handler sees that role |
| Routes.AccessThenRole | backend/src/routes/projects.js:38 | an access gate followed by a role gate judges the effective role the access check resolved |
| Routes.OwnerBar | backend/src/middleware/permissions.js:84-90 | each of the three gates admits exactly the role "owner" |
| Routes.ReadRoutesNeedAccess | backend/src/routes/tasks.js:33 | listing a project's tasks (and reading a project) is admitted iff the access check passes, with the effective role handed on |
| Routes.ScopedWritesOwnerOnly | backend/src/routes/projects.js:38-42 | creating a task and every project update, delete and assignment route admit exactly callers whose effective role is "owner"; an admin or member assignment is refused with the insufficient-role 403 |
| Routes.TaskWritesIgnoreProject | backend/src/routes/tasks.js:39-42 | task update and delete look only at the role the request already carries, never at the project; only "owner" passes and no role gives "Access denied" |
| Routes.UngatedRoutesAdmitAll | backend/src/routes/tasks.js:45-51 | bulk update, both dependency routes, and listing and creating projects admit every authenticated request |

## Left out

- Authentication (`authenticateToken`), the auth routes and server wiring: the caller's user id and any role already on the request are parameters.
- The role that task update and delete see before their gate is a parameter, because nothing in the route chain sets it.
- `deleteTask` and `deleteProject`: what they cascade to depends on the database schema, which is not part of this model.
- Parsing route parameters with `parseInt`, and `NaN` ids: ids are integers.
- Body fields of the wrong JSON type (a string where a number is expected): each field has one type.
- The validators' per-field error list: every validation failure is the one value `ValidationFailed`.
- The 500 responses of read handlers and of `checkProjectAccess` when the store fails.
- Role names that are keys of `Object.prototype` (such as "constructor"), which the role table lookup would resolve to a function rather than to 0.
- ISO-8601 parsing and `Date` values: dates are opaque instants. `new Date(null)` is the instant 0.
- Date strings are classified by the ISO-8601 check alone. On the create routes (`createTask`, `createProject`), whose validators already refuse non-ISO strings, an ISO form `new Date` rejects (such as "2024-02-30") is treated as accepted. On the update and bulk routes, which run no validator, the same holds, and in addition a non-ISO string that `new Date` would parse (such as "2024/03/05") is treated as refused.
- The sanitizer turning a `null` description into an empty string.
- Ordering: `updatedAt` ordering of the project lists, the `order` sort of task rows, and the project filter of the task query. The listing takes the rows it is given. A task's links are a set, not an array in the store's order.
- The 32-bit range of the integer columns.
- Related data that the responses include (owners, counts, link target names).
- Concurrency: handlers run one at a time, so the race between the cycle check and the insert is not modelled.
- Graph.HasPath: the traversal is a worklist over a visited set rather than the recursive depth-first search. It returns the same answer and expands each node at most once, but the order in which it visits nodes is unspecified.
- The frontend.
