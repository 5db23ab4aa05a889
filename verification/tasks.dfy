/** The task handlers: creation with its defaults, the partial update, the
    all-or-nothing bulk reschedule, and the task listing with its links. */
module Tasks {
  import opened Wrappers
  import opened Http
  import opened Body
  import opened Entities
  import opened Graph
  import opened Validation

  type TaskStore = map<int, Task>

  // ---------------------------------------------------------------------------
  // createTask

  /** A task as the validated create route can produce it: a known kind, a
      positive duration, progress within [0, 1], and trimmed, non-empty text. */
  predicate WellFormedTask(t: Task) {
    && t.kind in TaskKinds
    && t.duration >= 1
    && 0.0 <= t.progress <= 1.0
    && t.text != "" && !IsSpace(t.text[0]) && !IsSpace(t.text[|t.text| - 1])
  }

  /** Whether the store accepts the row built from a validated body: `order`
      and `parent`, which the validators do not check, must be integral, and
      `open` must not be null. */
  predicate CreateStorable(b: TaskBody) {
    && (b.order.Given? ==> IsIntegral(b.order.value))
    && (b.parent.Given? ==> IsIntegral(b.parent.value))
    && !b.open.Null?
  }

  /** The row `createTask` builds from a validated body. Defaults: type
      "task", duration 1 (also for a given 0, since `duration || 1`), progress
      0, order 0, open true; a missing colour or parent is null. */
  function NewTask(id: int, projectId: int, b: TaskBody): (t: Task)
    requires b.text.Given? && IsIsoDate(b.start) && IsIsoDate(b.end)
    ensures t.id == id && t.projectId == projectId && t.text == b.text.value
    ensures t.kind == (if b.kind.Given? && b.kind.value != "" then b.kind.value else "task")
    ensures t.start == b.start.value.instant && t.end == b.end.value.instant
    ensures b.duration.Given? && b.duration.value != 0.0 ==> t.duration == b.duration.value.Floor
    ensures !b.duration.Given? || b.duration.value == 0.0 ==> t.duration == 1
    ensures t.progress == (if b.progress.Given? then b.progress.value else 0.0)
    ensures t.color == (if b.color.Given? then Some(b.color.value) else None)
    ensures t.parent == (if b.parent.Given? then Some(b.parent.value.Floor) else None)
    ensures b.order.Given? && b.order.value != 0.0 ==> t.order == b.order.value.Floor
    ensures !b.order.Given? || b.order.value == 0.0 ==> t.order == 0
    ensures t.open == (if b.open.Given? then b.open.value else true)
  {
    Task(
      id := id,
      projectId := projectId,
      text := b.text.value,
      kind := if TruthyString(b.kind) then b.kind.value else "task",
      start := b.start.value.instant,
      end := b.end.value.instant,
      duration := if TruthyNumber(b.duration) then b.duration.value.Floor else 1,
      progress := if TruthyNumber(b.progress) then b.progress.value else 0.0,
      color := if b.color.Given? then Some(b.color.value) else None,
      parent := if b.parent.Given? then Some(b.parent.value.Floor) else None,
      order := if TruthyNumber(b.order) then b.order.value.Floor else 0,
      open := if b.open.Given? then b.open.value else true
    )
  }

  /** `createTask` behind the task validators; `id` is the fresh identifier
      the store assigns. An invalid body is a 400, a value the store refuses a
      500, and a success adds exactly the new row, with trimmed text. */
  function CreateTask(tasks: TaskStore, projectId: int, body: TaskBody, id: int): (r: Result<TaskStore, Failure>)
    requires id !in tasks
    ensures !TaskBodyValid(body) ==> r == Failure(ValidationFailed)
    ensures TaskBodyValid(body) && !CreateStorable(body) ==> r == Failure(ServerError("Failed to create task"))
    ensures r.Success? <==> TaskBodyValid(body) && CreateStorable(body)
    ensures r.Success? ==> r.value.Keys == tasks.Keys + {id}
    ensures r.Success? ==> forall k :: k in tasks ==> r.value[k] == tasks[k]
    ensures r.Success? ==> r.value[id] == NewTask(id, projectId, body.(text := Given(Trim(body.text.value))))
  {
    var v := ValidateTask(body);
    if v.None? then Failure(ValidationFailed)
    else
      var b := v.value;
      assert b == body.(text := Given(Trim(body.text.value)));
      if !CreateStorable(b) then Failure(ServerError("Failed to create task"))
      else Success(tasks[id := NewTask(id, projectId, b)])
  }

  /** Every task the create route stores satisfies the invariants its
      validators promise. */
  lemma CreatedTaskWellFormed(tasks: TaskStore, projectId: int, body: TaskBody, id: int)
    requires id !in tasks
    requires TaskBodyValid(body) && CreateStorable(body)
    ensures CreateTask(tasks, projectId, body, id).Success?
    ensures WellFormedTask(CreateTask(tasks, projectId, body, id).value[id])
  {
    NotBlankIffTrimNonEmpty(body.text);
    if TruthyNumber(body.duration) {
      assert body.duration.value >= 1.0 by {
        assert body.duration.value.Floor >= 0;
      }
    }
  }

  // ---------------------------------------------------------------------------
  // updateTask

  /** Whether the store accepts every present field of an update body: no
      null in a non-nullable column, dates that parse (`null` becomes the
      epoch), integral numbers for the integer columns. */
  predicate UpdateStorable(b: TaskBody) {
    && !b.text.Null? && !b.kind.Null?
    && (b.start.Given? ==> b.start.value.Iso?)
    && (b.end.Given? ==> b.end.value.Iso?)
    && !b.duration.Null? && (b.duration.Given? ==> IsIntegral(b.duration.value))
    && !b.progress.Null?
    && (b.parent.Given? ==> IsIntegral(b.parent.value))
    && !b.order.Null? && (b.order.Given? ==> IsIntegral(b.order.value))
    && !b.open.Null?
  }

  /** A date column after `if (x !== undefined) data.x = new Date(x)`. */
  predicate DateFollows(before: int, f: Field<DateInput>, after: int) {
    && (f.Absent? ==> after == before)
    && (f.Null? ==> after == 0)
    && (f.Given? && f.value.Iso? ==> after == f.value.instant)
  }

  /** An integer column after a present-fields-only write. */
  predicate IntFollows(before: int, f: Field<real>, after: int) {
    && (f.Absent? ==> after == before)
    && (f.Given? ==> after as real == f.value)
  }

  predicate Follows<T(==)>(before: T, f: Field<T>, after: T) {
    && (f.Absent? ==> after == before)
    && (f.Given? ==> after == f.value)
  }

  /** The row after merging an update body into it: every absent field is left
      as it was, every present one overwrites its column; `None` when the
      store refuses a value. */
  function MergeTask(t: Task, b: TaskBody): (r: Option<Task>)
    ensures r.Some? <==> UpdateStorable(b)
    ensures r.Some? ==> r.value.id == t.id && r.value.projectId == t.projectId
    ensures r.Some? ==> Follows(t.text, b.text, r.value.text) && Follows(t.kind, b.kind, r.value.kind)
    ensures r.Some? ==> DateFollows(t.start, b.start, r.value.start) && DateFollows(t.end, b.end, r.value.end)
    ensures r.Some? ==> IntFollows(t.duration, b.duration, r.value.duration)
    ensures r.Some? ==> Follows(t.progress, b.progress, r.value.progress)
    ensures r.Some? ==> (b.color.Absent? ==> r.value.color == t.color) && (b.color.Null? ==> r.value.color.None?)
    ensures r.Some? && b.color.Given? ==> r.value.color == Some(b.color.value)
    ensures r.Some? ==> IntFollows(t.order, b.order, r.value.order) && Follows(t.open, b.open, r.value.open)
    ensures r.Some? && b.parent.Given? ==> r.value.parent.Some? && r.value.parent.value as real == b.parent.value
    ensures r.Some? && b.parent.Null? ==> r.value.parent.None?
    ensures r.Some? && b.parent.Absent? ==> r.value.parent == t.parent
  {
    if !UpdateStorable(b) then None
    else
      Some(t.(text := Overwrite(t.text, b.text),
              kind := Overwrite(t.kind, b.kind),
              start := OverwriteDate(t.start, b.start),
              end := OverwriteDate(t.end, b.end),
              duration := OverwriteInt(t.duration, b.duration),
              progress := Overwrite(t.progress, b.progress),
              color := OverwriteNullable(t.color, b.color),
              parent := OverwriteNullableInt(t.parent, b.parent),
              order := OverwriteInt(t.order, b.order),
              open := Overwrite(t.open, b.open)))
  }

  /** `updateTask`: the update route runs no validators, so any body reaches the
      merge; an unknown id is a store error. Nothing but the named row changes. */
  function UpdateTask(tasks: TaskStore, id: int, body: TaskBody): (r: Result<TaskStore, Failure>)
    ensures r.Success? <==> id in tasks && UpdateStorable(body)
    ensures r.Failure? ==> r.error == ServerError("Failed to update task")
    ensures r.Success? ==> r.value.Keys == tasks.Keys
    ensures r.Success? ==> forall k :: k in tasks && k != id ==> r.value[k] == tasks[k]
    ensures r.Success? ==> MergeTask(tasks[id], body) == Some(r.value[id])
  {
    if id !in tasks then Failure(ServerError("Failed to update task"))
    else match MergeTask(tasks[id], body)
      case None => Failure(ServerError("Failed to update task"))
      case Some(t) => Success(tasks[id := t])
  }

  lemma MergeTaskIdempotent(t: Task, b: TaskBody)
    requires UpdateStorable(b)
    ensures MergeTask(MergeTask(t, b).value, b) == MergeTask(t, b)
  {
  }

  /** Applying the same update twice is applying it once. */
  lemma UpdateTaskIdempotent(tasks: TaskStore, id: int, body: TaskBody)
    requires UpdateTask(tasks, id, body).Success?
    ensures UpdateTask(UpdateTask(tasks, id, body).value, id, body) == UpdateTask(tasks, id, body)
  {
    var tasks' := UpdateTask(tasks, id, body).value;
    MergeTaskIdempotent(tasks[id], body);
    assert tasks'[id := tasks'[id]] == tasks';
  }

  /** An update that names no field leaves the store as it was. */
  lemma EmptyUpdateChangesNothing(tasks: TaskStore, id: int)
    requires id in tasks
    ensures UpdateTask(tasks, id, TaskBody(Absent, Absent, Absent, Absent, Absent, Absent, Absent, Absent, Absent, Absent))
              == Success(tasks)
  {
    var t := tasks[id];
    var body := TaskBody(Absent, Absent, Absent, Absent, Absent, Absent, Absent, Absent, Absent, Absent);
    assert MergeTask(t, body).value == t;
    assert tasks[id := t] == tasks;
  }

  // ---------------------------------------------------------------------------
  // bulkUpdateTasks

  /** One entry of the bulk request: the target id and the six schedule fields. */
  datatype BulkItem = BulkItem(
    id: Field<real>,
    start: Field<DateInput>,
    end: Field<DateInput>,
    duration: Field<real>,
    order: Field<real>,
    parent: Field<real>,
    progress: Field<real>
  )

  /** The `tasks` member of the request body: not an array, or its entries. */
  datatype Batch = NotAnArray | Items(items: seq<BulkItem>)

  /** The store after the call, and the reported count or failure. */
  datatype BulkOutcome = BulkOutcome(store: TaskStore, result: Result<nat, Failure>)

  /** Whether the store accepts one entry, given the ids present: the id names
      an existing task, a truthy date parses, and the numeric columns receive
      integral, non-null values (`parent` may be null). Falsy dates are skipped. */
  predicate ItemApplicable(keys: set<int>, item: BulkItem) {
    && IsIntField(item.id) && item.id.value.Floor in keys
    && !(item.start.Given? && item.start.value.Unparseable?)
    && !(item.end.Given? && item.end.value.Unparseable?)
    && !item.duration.Null? && (item.duration.Given? ==> IsIntegral(item.duration.value))
    && !item.order.Null? && (item.order.Given? ==> IsIntegral(item.order.value))
    && (item.parent.Given? ==> IsIntegral(item.parent.value))
    && !item.progress.Null?
  }

  /** The fields a bulk entry never writes agree. */
  predicate SameExceptSchedule(a: Task, b: Task) {
    && a.id == b.id && a.projectId == b.projectId
    && a.text == b.text && a.kind == b.kind && a.color == b.color && a.open == b.open
  }

  /** The ids a batch names. */
  function BatchIds(items: seq<BulkItem>): set<int> {
    set i | 0 <= i < |items| && IsIntField(items[i].id) :: items[i].id.value.Floor
  }

  /** `task.x ? new Date(task.x) : undefined`: a falsy date becomes absent. */
  function KeepTruthyDate(f: Field<DateInput>): Field<DateInput> {
    if TruthyDate(f) then f else Absent
  }

  /** One entry's write into its row: only the six schedule columns, each
      present one overwritten; a falsy date leaves its column alone. */
  function ApplyItem(t: Task, item: BulkItem): (r: Task)
    requires ItemApplicable({t.id}, item.(id := Given(t.id as real)))
    ensures SameExceptSchedule(t, r)
    ensures item.start.Given? && item.start.value.Iso? ==> r.start == item.start.value.instant
    ensures !(item.start.Given? && item.start.value.Iso?) ==> r.start == t.start
    ensures item.end.Given? && item.end.value.Iso? ==> r.end == item.end.value.instant
    ensures !(item.end.Given? && item.end.value.Iso?) ==> r.end == t.end
    ensures IntFollows(t.duration, item.duration, r.duration) && IntFollows(t.order, item.order, r.order)
    ensures Follows(t.progress, item.progress, r.progress)
    ensures item.parent.Given? ==> r.parent.Some? && r.parent.value as real == item.parent.value
    ensures item.parent.Null? ==> r.parent.None?
    ensures item.parent.Absent? ==> r.parent == t.parent
  {
    t.(start := OverwriteDate(t.start, KeepTruthyDate(item.start)),
       end := OverwriteDate(t.end, KeepTruthyDate(item.end)),
       duration := OverwriteInt(t.duration, item.duration),
       order := OverwriteInt(t.order, item.order),
       parent := OverwriteNullableInt(t.parent, item.parent),
       progress := Overwrite(t.progress, item.progress))
  }

  /** Whether a bulk entry names the task with id `id`. */
  predicate Names(item: BulkItem, id: int) {
    IsIntField(item.id) && item.id.value.Floor == id
  }

  /** A task after the entries of a batch that name it, applied in order: the
      last entry to write a column wins. Entries naming other tasks, and
      entries the store would refuse, are passed over. */
  function ApplyMatching(t: Task, items: seq<BulkItem>): (r: Task)
    ensures r.id == t.id
    decreases |items|
  {
    if |items| == 0 then t
    else if Names(items[0], t.id) && ItemApplicable({t.id}, items[0]) then
      assert items[0].(id := Given(t.id as real)) == items[0];
      ApplyMatching(ApplyItem(t, items[0]), items[1..])
    else ApplyMatching(t, items[1..])
  }

  /** An entry the only one in the batch to name its task sets that task to
      exactly what the entry writes. */
  lemma {:induction false} SoleEntryWins(t: Task, items: seq<BulkItem>, i: int)
    requires 0 <= i < |items| && Names(items[i], t.id) && ItemApplicable({t.id}, items[i])
    requires forall j :: 0 <= j < |items| && j != i ==> !Names(items[j], t.id)
    ensures items[i].(id := Given(t.id as real)) == items[i]
    ensures ApplyMatching(t, items) == ApplyItem(t, items[i])
    decreases |items|
  {
    assert items[i].(id := Given(t.id as real)) == items[i];
    if i == 0 {
      NoneMatching(ApplyItem(t, items[0]), items[1..]);
    } else {
      assert !Names(items[0], t.id);
      assert forall j :: 0 <= j < |items| - 1 && j != i - 1 ==> items[1..][j] == items[j + 1];
      SoleEntryWins(t, items[1..], i - 1);
    }
  }

  /** Entries that do not name a task leave it alone. */
  lemma {:induction false} NoneMatching(t: Task, items: seq<BulkItem>)
    requires forall j :: 0 <= j < |items| ==> !Names(items[j], t.id)
    ensures ApplyMatching(t, items) == t
    decreases |items|
  {
    if |items| > 0 {
      assert forall j :: 0 <= j < |items| - 1 ==> items[1..][j] == items[j + 1];
      NoneMatching(t, items[1..]);
    }
  }

  /** The transaction: the entries applied in order to the evolving store, or
      `None` as soon as one is refused. */
  function ApplyAll(tasks: TaskStore, items: seq<BulkItem>): (r: Option<TaskStore>)
    requires forall k :: k in tasks ==> tasks[k].id == k
    ensures r.Some? <==> forall i :: 0 <= i < |items| ==> ItemApplicable(tasks.Keys, items[i])
    ensures r.Some? ==> r.value.Keys == tasks.Keys
    ensures r.Some? ==> forall k :: k in tasks ==> SameExceptSchedule(tasks[k], r.value[k])
    ensures r.Some? ==> forall k :: k in tasks && k !in BatchIds(items) ==> r.value[k] == tasks[k]
    ensures r.Some? ==> forall k :: k in tasks ==> r.value[k] == ApplyMatching(tasks[k], items)
    decreases |items|
  {
    if |items| == 0 then Some(tasks)
    else if !ItemApplicable(tasks.Keys, items[0]) then None
    else
      var k := items[0].id.value.Floor;
      var t := ApplyItem(tasks[k], items[0]);
      var tasks' := tasks[k := t];
      assert tasks'.Keys == tasks.Keys;
      assert BatchIds(items) == {k} + BatchIds(items[1..]) by {
        assert forall i :: 0 < i < |items| ==> items[i] == items[1..][i - 1];
      }
      ApplyAll(tasks', items[1..])
  }

  /** `bulkUpdateTasks`: a non-array is refused; otherwise all entries run in
      one transaction, so either every entry is written and the count is the
      batch length, or one is refused and no task changes. */
  function BulkUpdate(tasks: TaskStore, batch: Batch): (r: BulkOutcome)
    requires forall k :: k in tasks ==> tasks[k].id == k
    ensures batch.NotAnArray? ==> r == BulkOutcome(tasks, Failure(BadRequest("Tasks must be an array")))
    ensures r.result.Failure? ==> r.store == tasks
    ensures batch.Items? ==>
              (r.result.Success? <==> forall i :: 0 <= i < |batch.items| ==> ItemApplicable(tasks.Keys, batch.items[i]))
    ensures batch.Items? && r.result.Failure? ==> r.result.error == ServerError("Failed to update tasks")
    ensures r.result.Success? ==> r.result.value == |batch.items|
    ensures r.result.Success? ==> r.store.Keys == tasks.Keys
    ensures r.result.Success? ==> forall k :: k in tasks ==> SameExceptSchedule(tasks[k], r.store[k])
    ensures r.result.Success? ==> forall k :: k in tasks && k !in BatchIds(batch.items) ==> r.store[k] == tasks[k]
    ensures r.result.Success? ==> forall k :: k in tasks ==> r.store[k] == ApplyMatching(tasks[k], batch.items)
  {
    match batch
    case NotAnArray => BulkOutcome(tasks, Failure(BadRequest("Tasks must be an array")))
    case Items(items) =>
      match ApplyAll(tasks, items)
      case None => BulkOutcome(tasks, Failure(ServerError("Failed to update tasks")))
      case Some(store) => BulkOutcome(store, Success(|items|))
  }

  /** Atomicity: an entry naming a task that does not exist fails the whole
      batch and leaves every task as it was, whatever the other entries say. */
  lemma BulkUnknownIdChangesNothing(tasks: TaskStore, items: seq<BulkItem>, i: int)
    requires forall k :: k in tasks ==> tasks[k].id == k
    requires 0 <= i < |items| && IsIntField(items[i].id) && items[i].id.value.Floor !in tasks
    ensures BulkUpdate(tasks, Items(items)) == BulkOutcome(tasks, Failure(ServerError("Failed to update tasks")))
  {
    assert !ItemApplicable(tasks.Keys, items[i]);
  }

  /** Every entry of a successful batch is written: an entry that is the only
      one naming its task leaves that task exactly as the entry prescribes. */
  lemma BulkWritesSoleEntry(tasks: TaskStore, items: seq<BulkItem>, i: int)
    requires forall k :: k in tasks ==> tasks[k].id == k
    requires BulkUpdate(tasks, Items(items)).result.Success?
    requires 0 <= i < |items| && IsIntField(items[i].id)
    requires forall j :: 0 <= j < |items| && j != i ==> !Names(items[j], items[i].id.value.Floor)
    ensures items[i].id.value.Floor in tasks
    ensures var k := items[i].id.value.Floor;
            BulkUpdate(tasks, Items(items)).store[k] == ApplyItem(tasks[k], items[i])
  {
    var k := items[i].id.value.Floor;
    assert ItemApplicable(tasks.Keys, items[i]);
    SoleEntryWins(tasks[k], items, i);
  }

  /** The bulk route runs no validator: an entry may store a progress outside
      the range [0, 1] that the create route's validator enforces. */
  lemma BulkStoresUnvalidatedProgress(tasks: TaskStore, k: int)
    requires forall k :: k in tasks ==> tasks[k].id == k
    requires k in tasks
    ensures var item := BulkItem(Given(k as real), Absent, Absent, Absent, Absent, Absent, Given(5.0));
            var out := BulkUpdate(tasks, Items([item]));
            out.result == Success(1) && out.store[k].progress == 5.0
  {
    var item := BulkItem(Given(k as real), Absent, Absent, Absent, Absent, Absent, Given(5.0));
    assert (k as real).Floor == k;
    assert ItemApplicable(tasks.Keys, item);
    var tasks' := tasks[k := ApplyItem(tasks[k], item)];
    assert ApplyAll(tasks', []) == Some(tasks');
  }

  // ---------------------------------------------------------------------------
  // getProjectTasks

  datatype Link = Link(id: int, source: int, target: int, kind: string)

  /** One task as the listing formats it, with the edges leaving it as links. */
  datatype TaskView = TaskView(
    id: int, text: string, kind: string, start: int, end: int, duration: int, progress: real,
    color: Option<string>, parent: Option<int>, order: int, open: bool, links: set<Link>
  )

  datatype TaskListing = TaskListing(tasks: seq<TaskView>, total: nat)

  /** The links of a task: its outgoing dependencies. */
  function LinksOf(edges: Edges, taskId: int): set<Link> {
    set id | id in edges && edges[id].sourceId == taskId :: Link(id, taskId, edges[id].targetId, edges[id].kind)
  }

  function View(t: Task, edges: Edges): TaskView {
    TaskView(t.id, t.text, t.kind, t.start, t.end, t.duration, t.progress, t.color, t.parent, t.order, t.open,
             LinksOf(edges, t.id))
  }

  /** `getProjectTasks` applied to the rows the store returned for the project
      (in ascending `order`): one view per row, in the same order, echoing the
      row's fields, each carrying exactly the dependencies whose source it is. */
  function GetProjectTasks(rows: seq<Task>, edges: Edges): (r: TaskListing)
    ensures |r.tasks| == |rows| && r.total == |rows|
    ensures forall i :: 0 <= i < |rows| ==>
              && r.tasks[i].id == rows[i].id && r.tasks[i].text == rows[i].text && r.tasks[i].kind == rows[i].kind
              && r.tasks[i].start == rows[i].start && r.tasks[i].end == rows[i].end
              && r.tasks[i].duration == rows[i].duration && r.tasks[i].progress == rows[i].progress
              && r.tasks[i].color == rows[i].color && r.tasks[i].parent == rows[i].parent
              && r.tasks[i].order == rows[i].order && r.tasks[i].open == rows[i].open
    ensures forall i, l :: 0 <= i < |rows| && l in r.tasks[i].links ==>
              && l.source == rows[i].id && l.id in edges
              && edges[l.id].sourceId == l.source && edges[l.id].targetId == l.target && edges[l.id].kind == l.kind
    ensures forall i, id :: 0 <= i < |rows| && id in edges && edges[id].sourceId == rows[i].id ==>
              Link(id, rows[i].id, edges[id].targetId, edges[id].kind) in r.tasks[i].links
  {
    TaskListing(seq(|rows|, i requires 0 <= i < |rows| => View(rows[i], edges)), |rows|)
  }

  /** The link targets of a listed task are exactly its successors in the
      dependency graph the cycle check walks. */
  lemma LinksAreSuccessors(rows: seq<Task>, edges: Edges, i: int)
    requires 0 <= i < |rows|
    ensures (set l | l in GetProjectTasks(rows, edges).tasks[i].links :: l.target) == Succ(edges, rows[i].id)
  {
    var links := GetProjectTasks(rows, edges).tasks[i].links;
    forall m | m in Succ(edges, rows[i].id)
      ensures m in (set l | l in links :: l.target)
    {
      var id :| id in edges && edges[id].sourceId == rows[i].id && edges[id].targetId == m;
      assert Link(id, rows[i].id, m, edges[id].kind) in links;
    }
  }
}
