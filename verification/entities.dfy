/** The rows the controllers read and write. Dates are opaque integer
    instants; the progress column is a real number; identifiers are integers. */
module Entities {
  import opened Wrappers

  datatype Task = Task(
    id: int,
    projectId: int,
    text: string,
    /** "task", "summary" or "milestone" when created through the validated route. */
    kind: string,
    start: int,
    end: int,
    duration: int,
    progress: real,
    color: Option<string>,
    /** The parent task in the display tree, unrelated to dependency edges. */
    parent: Option<int>,
    order: int,
    open: bool
  )

  /** A dependency edge from `sourceId` to `targetId`. The type code is stored
      and echoed, never interpreted. */
  datatype Dependency = Dependency(id: int, sourceId: int, targetId: int, kind: string)

  datatype Project = Project(
    id: int,
    name: string,
    description: Option<string>,
    startDate: int,
    endDate: Option<int>,
    color: string,
    ownerId: int
  )

  /** Assignments are keyed by (project id, user id); the value is the role. */
  type AssignmentKey = (int, int)
  type Assignments = map<AssignmentKey, string>
}
