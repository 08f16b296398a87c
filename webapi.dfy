/**
 * The control API: create, delete, show and list over the task table. Each
 * handler is one statement against the database and so one atomic step.
 */
module WebApi {
  import opened TaskLib

  type StatusCode = int

  const OK: StatusCode := 200
  const NO_CONTENT: StatusCode := 204
  const NOT_FOUND: StatusCode := 404

  /**
   * The state a freshly inserted row takes. The insert names only the type and
   * the time, so this comes from a column default of the schema, which is not
   * part of this model: it is an assumption, not something verified.
   */
  const DefaultState: TaskState := Scheduled

  // ---------------------------------------------------------------- create

  datatype TaskCreationRequest = TaskCreationRequest(taskType: TaskType, executionTime: Time)

  datatype TaskCreationResponse = TaskCreationResponse(id: Id)

  /** The table after inserting a new row under the (fresh) id `id`. */
  function Insert(t: Table, id: Id, request: TaskCreationRequest): (r: Table)
    requires id !in t
    ensures r.Keys == t.Keys + {id} && |r| == |t| + 1
    ensures r[id] == Row(DefaultState, request.taskType, request.executionTime)
    ensures forall k :: k in t ==> r[k] == t[k]
  {
    t[id := Row(DefaultState, request.taskType, request.executionTime)]
  }

  /** An upper bound of a finite set of ids, which shows that a fresh id exists. */
  ghost function Bound(s: set<Id>): (b: Id)
    ensures forall k :: k in s ==> k < b
    decreases s
  {
    if s == {} then 0
    else
      var x :| x in s;
      var b' := Bound(s - {x});
      assert forall k :: k in s ==> k == x || k in s - {x};
      if b' > x then b' else x + 1
  }

  /**
   * `create_task`: insert a task with the requested type and time; the database
   * draws the new id, which may be any id not in the table.
   */
  method CreateTask(db: Store, request: TaskCreationRequest) returns (status: StatusCode, response: TaskCreationResponse)
    modifies db
    ensures status == OK
    ensures response.id !in old(db.tasks)
    ensures db.tasks == Insert(old(db.tasks), response.id, request)
  {
    assert Bound(db.tasks.Keys) !in db.tasks;
    var id: Id :| id !in db.tasks;
    db.tasks := Insert(db.tasks, id, request);
    status, response := OK, TaskCreationResponse(id);
  }

  // ---------------------------------------------------------------- delete

  /** Whether `delete from tasks where id = $1 and state = 'scheduled'` matches a row. */
  predicate Deletable(t: Table, id: Id)
    ensures Deletable(t, id) <==> Retrieve(t, id).Some? && Retrieve(t, id).value.state == Scheduled
  {
    id in t && t[id].state == Scheduled
  }

  /**
   * The guarded delete statement: the new table and the number of rows affected.
   * Only a scheduled row with that id goes; every other row stays as it was.
   */
  function DeleteScheduled(t: Table, id: Id): (r: (Table, nat))
    ensures r.0.Keys == if Deletable(t, id) then t.Keys - {id} else t.Keys
    ensures forall k :: k in r.0 ==> r.0[k] == t[k]
    ensures r.1 == |t| - |r.0|
    ensures r.1 <= 1
  {
    if Deletable(t, id) then (t - {id}, 1) else (t, 0)
  }

  /** `delete_task`: 404 when no row was affected, 204 otherwise. */
  method DeleteTask(db: Store, id: Id) returns (status: StatusCode)
    modifies db
    ensures status == NO_CONTENT <==> Deletable(old(db.tasks), id)
    ensures status == NOT_FOUND <==> !Deletable(old(db.tasks), id)
    ensures db.tasks == DeleteScheduled(old(db.tasks), id).0
  {
    var (tasks', rowsAffected) := DeleteScheduled(db.tasks, id);
    db.tasks := tasks';
    if rowsAffected == 0 {
      status := NOT_FOUND;
    } else {
      status := NO_CONTENT;
    }
  }

  /** A delete that answers 404 leaves the table exactly as it was. */
  lemma DeleteNotFoundUnchanged(t: Table, id: Id)
    requires DeleteScheduled(t, id).1 == 0
    ensures DeleteScheduled(t, id).0 == t
    ensures !Deletable(t, id)
  {
  }

  // ---------------------------------------------------------------- show

  datatype ShowTaskResponse = Datum(task: Task) | Error(message: string)

  /** `show_task`: 200 with the stored task when the id is present, else 404 "not found". */
  function ShowTask(t: Table, id: Id): (r: (StatusCode, ShowTaskResponse))
    ensures r.0 == OK <==> id in t
    ensures r.0 == OK || r.0 == NOT_FOUND
    ensures id in t ==> r.1.Datum? && r.1.task.id == id && RowOf(r.1.task) == t[id]
    ensures id !in t ==> r.1 == Error("not found")
  {
    match Retrieve(t, id)
    case Some(task) => (OK, Datum(task))
    case None => (NOT_FOUND, Error("not found"))
  }

  // ---------------------------------------------------------------- list

  datatype TaskListParams = TaskListParams(state: Option<TaskState>, taskType: Option<TaskType>)

  /** The `state` query parameter as the array bound to `state = ANY($1)`. */
  function StateFilter(p: Option<TaskState>): (r: seq<TaskState>)
    ensures forall s :: s in r <==> (p.None? || p == Some(s))
  {
    match p
    case None => StatesAreClosed(); AllStates
    case Some(s) => [s]
  }

  /** The `task_type` query parameter as the array bound to `task_type = ANY($2)`. */
  function TypeFilter(p: Option<TaskType>): (r: seq<TaskType>)
    ensures forall k :: k in r <==> (p.None? || p == Some(k))
  {
    match p
    case None => TypesAreClosed(); AllTypes
    case Some(k) => [k]
  }

  /** Whether a stored row satisfies both filters of a list request. */
  predicate Selected(row: Row, params: TaskListParams)
    ensures Selected(row, params) <==>
      (params.state.None? || row.state == params.state.value) && (params.taskType.None? || row.taskType == params.taskType.value)
  {
    row.state in StateFilter(params.state) && row.taskType in TypeFilter(params.taskType)
  }

  /** `m` is the smallest id of `s`. */
  predicate IsLeast(m: Id, s: set<Id>)
  {
    m in s && forall k :: k in s ==> m <= k
  }

  /** A smallest element of a non-empty set of ids exists. */
  lemma {:induction false} MinExists(s: set<Id>)
    requires s != {}
    ensures exists m :: IsLeast(m, s)
  {
    var x :| x in s;
    if s == {x} {
      assert IsLeast(x, s);
    } else {
      MinExists(s - {x});
      var m :| IsLeast(m, s - {x});
      assert forall k :: k in s ==> k == x || k in s - {x};
      if x < m {
        assert IsLeast(x, s);
      } else {
        assert IsLeast(m, s);
      }
    }
  }

  /** The ids of a set in ascending order, each once. */
  function SortedIds(s: set<Id>): (r: seq<Id>)
    ensures forall k :: k in r <==> k in s
    ensures forall i, j :: 0 <= i < j < |r| ==> r[i] < r[j]
    decreases s
  {
    if s == {} then []
    else
      MinExists(s);
      var m :| IsLeast(m, s);
      [m] + SortedIds(s - {m})
  }

  /** The tasks of the rows under `keys`, in that order, that satisfy the filters. */
  function SelectRows(t: Table, keys: seq<Id>, params: TaskListParams): (r: seq<Task>)
    requires forall k :: k in keys ==> k in t
    ensures forall task :: task in r <==>
      task.id in keys && task.id in t && RowOf(task) == t[task.id] && Selected(t[task.id], params)
    ensures forall i :: 0 <= i < |r| ==> exists j :: 0 <= j < |keys| && keys[j] == r[i].id
    ensures (forall i, j :: 0 <= i < j < |keys| ==> keys[i] < keys[j]) ==>
      forall i, j :: 0 <= i < j < |r| ==> r[i].id < r[j].id
  {
    if keys == [] then []
    else
      var rest := SelectRows(t, keys[1..], params);
      assert forall i :: 0 < i < |keys| ==> keys[i] in keys[1..];
      if Selected(t[keys[0]], params) then [FromRow(keys[0], t[keys[0]])] + rest else rest
  }

  /**
   * `list_tasks`: always 200, with exactly the tasks whose state and type pass
   * the filters, an omitted parameter passing every value; each task once, in
   * ascending id order.
   */
  function ListTasks(t: Table, params: TaskListParams): (r: (StatusCode, seq<Task>))
    ensures r.0 == OK
    ensures forall task :: task in r.1 <==>
      task.id in t && RowOf(task) == t[task.id]
      && (params.state.None? || task.state == params.state.value)
      && (params.taskType.None? || task.taskType == params.taskType.value)
    ensures forall i, j :: 0 <= i < j < |r.1| ==> r.1[i].id < r.1[j].id
  {
    (OK, SelectRows(t, SortedIds(t.Keys), params))
  }

  /** With neither parameter, the list holds every stored task. */
  lemma ListWithoutParamsIsEverything(t: Table)
    ensures forall id :: id in t ==> FromRow(id, t[id]) in ListTasks(t, TaskListParams(None, None)).1
    ensures forall task :: task in ListTasks(t, TaskListParams(None, None)).1 ==> Retrieve(t, task.id) == Some(task)
  {
    forall id | id in t
      ensures FromRow(id, t[id]) in ListTasks(t, TaskListParams(None, None)).1
    {
      StatesAreClosed();
      TypesAreClosed();
    }
  }

  /** A list with one given state (and any type) holds only tasks in that state. */
  lemma ListByStateOnly(t: Table, s: TaskState, k: Option<TaskType>)
    ensures forall task :: task in ListTasks(t, TaskListParams(Some(s), k)).1 ==> task.state == s
    ensures forall id :: id in t && t[id].state == s && (k.None? || t[id].taskType == k.value) ==>
      FromRow(id, t[id]) in ListTasks(t, TaskListParams(Some(s), k)).1
  {
  }
}
