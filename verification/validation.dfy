/** The request-body validators the route tables attach to endpoints, with the
    sanitizing `trim()` steps applied to the bodies they accept. A validator
    returns the sanitized body, or `None` when the handler must answer 400. */
module Validation {
  import opened Wrappers
  import opened Body

  // ---------------------------------------------------------------------------
  // Request bodies

  datatype TaskBody = TaskBody(
    text: Field<string>,
    kind: Field<string>,
    start: Field<DateInput>,
    end: Field<DateInput>,
    duration: Field<real>,
    progress: Field<real>,
    color: Field<string>,
    parent: Field<real>,
    order: Field<real>,
    open: Field<bool>
  )

  datatype DependencyBody = DependencyBody(sourceId: Field<real>, targetId: Field<real>, kind: Field<string>)

  /** A dependency request that passed validation. */
  datatype DependencyRequest = DependencyRequest(sourceId: int, targetId: int, kind: Field<string>)

  datatype ProjectBody = ProjectBody(
    name: Field<string>,
    description: Field<string>,
    startDate: Field<DateInput>,
    endDate: Field<DateInput>,
    color: Field<string>
  )

  datatype AssignmentBody = AssignmentBody(userId: Field<real>, role: Field<string>)

  /** An assignment request that passed validation. */
  datatype AssignmentRequest = AssignmentRequest(userId: int, role: Field<string>)

  // ---------------------------------------------------------------------------
  // Field rules

  const TaskKinds: seq<string> := ["task", "summary", "milestone"]
  const DependencyKinds: seq<string> := ["0", "1", "2", "3"]
  const RoleNames: seq<string> := ["owner", "admin", "member", "viewer"]

  /** `.optional().isIn(list)`: only a missing field is skipped; `null` fails. */
  predicate OptionalIn(f: Field<string>, allowed: seq<string>) {
    f.Absent? || (f.Given? && f.value in allowed)
  }

  /** `.trim().notEmpty()`: present, and not all whitespace. */
  predicate NotBlank(f: Field<string>) {
    f.Given? && !AllSpace(f.value)
  }

  lemma NotBlankIffTrimNonEmpty(f: Field<string>)
    ensures NotBlank(f) <==> f.Given? && Trim(f.value) != ""
  {
    if f.Given? {
      TrimEmptyIffAllSpace(f.value);
    }
  }

  /** `.isISO8601()` on a required field. */
  predicate IsIsoDate(f: Field<DateInput>) {
    f.Given? && f.value.Iso?
  }

  /** `.isInt()` on a JSON number. */
  predicate IsIntField(f: Field<real>) {
    f.Given? && IsIntegral(f.value)
  }

  predicate IsHexDigit(c: char) {
    ('0' <= c <= '9') || ('A' <= c <= 'F') || ('a' <= c <= 'f')
  }

  /** `/^#[0-9A-Fa-f]{6}$/`: a '#' and exactly six hexadecimal digits. */
  predicate IsHexColor(s: string) {
    |s| == 7 && s[0] == '#' && forall i :: 1 <= i < 7 ==> IsHexDigit(s[i])
  }

  // ---------------------------------------------------------------------------
  // Task validation (the create-task route)

  predicate TaskBodyValid(b: TaskBody) {
    && NotBlank(b.text)
    && OptionalIn(b.kind, TaskKinds)
    && IsIsoDate(b.start)
    && IsIsoDate(b.end)
    && (b.duration.Absent? || (IsIntField(b.duration) && b.duration.value >= 0.0))
    && (b.progress.Absent? || (b.progress.Given? && 0.0 <= b.progress.value <= 1.0))
  }

  /** The task validator: the trim sanitizer rewrites `text`, then the checks
      run on the trimmed value. */
  function ValidateTask(b: TaskBody): (r: Option<TaskBody>)
    ensures r.Some? <==> TaskBodyValid(b)
    ensures r.Some? ==> r.value == b.(text := Given(Trim(b.text.value)))
    ensures r.Some? ==> r.value.text.value != "" && !IsSpace(r.value.text.value[0])
  {
    NotBlankIffTrimNonEmpty(b.text);
    if !b.text.Given? || Trim(b.text.value) == "" then None
    else if !OptionalIn(b.kind, TaskKinds) || !IsIsoDate(b.start) || !IsIsoDate(b.end) then None
    else if !(b.duration.Absent? || (IsIntField(b.duration) && b.duration.value >= 0.0)) then None
    else if !(b.progress.Absent? || (b.progress.Given? && 0.0 <= b.progress.value <= 1.0)) then None
    else Some(b.(text := Given(Trim(b.text.value))))
  }

  // ---------------------------------------------------------------------------
  // Dependency validation

  /** The dependency validator: both endpoints integers, the type code, if
      given, one of "0" to "3". */
  function ValidateDependency(b: DependencyBody): (r: Option<DependencyRequest>)
    ensures r.Some? <==> IsIntField(b.sourceId) && IsIntField(b.targetId) && OptionalIn(b.kind, DependencyKinds)
    ensures r.Some? ==> r.value.sourceId as real == b.sourceId.value
    ensures r.Some? ==> r.value.targetId as real == b.targetId.value
    ensures r.Some? ==> r.value.kind == b.kind
  {
    if IsIntField(b.sourceId) && IsIntField(b.targetId) && OptionalIn(b.kind, DependencyKinds) then
      Some(DependencyRequest(b.sourceId.value.Floor, b.targetId.value.Floor, b.kind))
    else None
  }

  // ---------------------------------------------------------------------------
  // Project validation (both the create and the update route)

  predicate ProjectBodyValid(b: ProjectBody) {
    && NotBlank(b.name)
    && IsIsoDate(b.startDate)
    && (b.endDate.Absent? || IsIsoDate(b.endDate))
    && (b.color.Absent? || (b.color.Given? && IsHexColor(b.color.value)))
  }

  /** The project validator; `name` and, when present, `description` are trimmed. */
  function ValidateProject(b: ProjectBody): (r: Option<ProjectBody>)
    ensures r.Some? <==> ProjectBodyValid(b)
    ensures r.Some? ==> r.value.name == Given(Trim(b.name.value)) && r.value.name.value != ""
    ensures r.Some? ==> r.value.startDate == b.startDate && r.value.endDate == b.endDate && r.value.color == b.color
    ensures r.Some? && b.description.Given? ==> r.value.description == Given(Trim(b.description.value))
    ensures r.Some? && !b.description.Given? ==> r.value.description == b.description
  {
    NotBlankIffTrimNonEmpty(b.name);
    if !b.name.Given? || Trim(b.name.value) == "" then None
    else if !IsIsoDate(b.startDate) || !(b.endDate.Absent? || IsIsoDate(b.endDate)) then None
    else if !(b.color.Absent? || (b.color.Given? && IsHexColor(b.color.value))) then None
    else
      var description := if b.description.Given? then Given(Trim(b.description.value)) else b.description;
      Some(b.(name := Given(Trim(b.name.value)), description := description))
  }

  // ---------------------------------------------------------------------------
  // Assignment validation

  /** The assignment validator: an integer user id and, if given, a known role. */
  function ValidateAssignment(b: AssignmentBody): (r: Option<AssignmentRequest>)
    ensures r.Some? <==> IsIntField(b.userId) && OptionalIn(b.role, RoleNames)
    ensures r.Some? ==> r.value.userId as real == b.userId.value && r.value.role == b.role
  {
    if IsIntField(b.userId) && OptionalIn(b.role, RoleNames) then
      Some(AssignmentRequest(b.userId.value.Floor, b.role))
    else None
  }

  /** The role-update validator: the role is required and must be a known role. */
  function ValidateRoleUpdate(role: Field<string>): (r: Option<string>)
    ensures r.Some? <==> role.Given? && role.value in RoleNames
    ensures r.Some? ==> r.value == role.value
  {
    if role.Given? && role.value in RoleNames then Some(role.value) else None
  }
}
