/**
 * The shared data model of the task scheduler: the two closed enumerations with
 * the labels they are stored under, the task record and its field mapping from a
 * table row, the task table itself, and the point lookup `retrieve`.
 */
module TaskLib {

  datatype Option<+T> = None | Some(value: T)

  /** Task ids are opaque; the database generates them. */
  type Id = nat

  /** Timestamps (`execute_at`, `current_timestamp`) as integers. */
  type Time = int

  /** The `task_type` enumeration: a closed set of three kinds. */
  datatype TaskType = A | B | C

  /** The `task_state` enumeration. */
  datatype TaskState = Scheduled | Executing | Finished

  const AllTypes: seq<TaskType> := [A, B, C]
  const AllStates: seq<TaskState> := [Scheduled, Executing, Finished]

  /** Every task type is one of A, B and C, and the three are distinct. */
  lemma TypesAreClosed()
    ensures forall k :: k in AllTypes
    ensures |AllTypes| == 3 && AllTypes[0] != AllTypes[1] && AllTypes[1] != AllTypes[2] && AllTypes[0] != AllTypes[2]
  {
    forall k: TaskType
      ensures k in AllTypes
    {
      match k
      case A =>
      case B =>
      case C =>
    }
  }

  /** Every task state is one of the three, and the three are distinct. */
  lemma StatesAreClosed()
    ensures forall s :: s in AllStates
    ensures |AllStates| == 3 && AllStates[0] != AllStates[1] && AllStates[1] != AllStates[2] && AllStates[0] != AllStates[2]
  {
    forall s: TaskState
      ensures s in AllStates
    {
      match s
      case Scheduled =>
      case Executing =>
      case Finished =>
    }
  }

  /** The label a state is stored under in the `task_state` column. */
  function StateLabel(s: TaskState): string
  {
    match s
    case Scheduled => "scheduled"
    case Executing => "executing"
    case Finished => "finished"
  }

  /** Decoding a stored `task_state` label; anything else is not a state. */
  function StateOfLabel(l: string): (r: Option<TaskState>)
    ensures r.Some? ==> StateLabel(r.value) == l
    ensures r.None? ==> forall s :: StateLabel(s) != l
  {
    if l == "scheduled" then Some(Scheduled)
    else if l == "executing" then Some(Executing)
    else if l == "finished" then Some(Finished)
    else None
  }

  /** Decoding the label of a state yields that state, so the labels are distinct. */
  lemma StateLabelRoundTrip(s: TaskState)
    ensures StateOfLabel(StateLabel(s)) == Some(s)
    ensures forall s' :: StateLabel(s') == StateLabel(s) ==> s' == s
  {
    forall s' | StateLabel(s') == StateLabel(s)
      ensures s' == s
    {
      assert StateOfLabel(StateLabel(s')) == StateOfLabel(StateLabel(s));
    }
  }

  /** The label a type is stored under: the variant's own name. */
  function TypeLabel(k: TaskType): string
  {
    match k
    case A => "A"
    case B => "B"
    case C => "C"
  }

  /** Decoding a stored `task_type` label; anything else is not a type. */
  function TypeOfLabel(l: string): (r: Option<TaskType>)
    ensures r.Some? ==> TypeLabel(r.value) == l
    ensures r.None? ==> forall k :: TypeLabel(k) != l
  {
    if l == "A" then Some(A)
    else if l == "B" then Some(B)
    else if l == "C" then Some(C)
    else None
  }

  /** Decoding the label of a type yields that type. */
  lemma TypeLabelRoundTrip(k: TaskType)
    ensures TypeOfLabel(TypeLabel(k)) == Some(k)
    ensures forall k' :: TypeLabel(k') == TypeLabel(k) ==> k' == k
  {
    forall k' | TypeLabel(k') == TypeLabel(k)
      ensures k' == k
    {
      assert TypeOfLabel(TypeLabel(k')) == TypeOfLabel(TypeLabel(k));
    }
  }

  /** The columns of `tasks` other than the key. */
  datatype Row = Row(state: TaskState, taskType: TaskType, executeAt: Time)

  /** The `tasks` table, keyed by id (one row per id). */
  type Table = map<Id, Row>

  /** A task as handed to clients: the key together with the other columns. */
  datatype Task = Task(id: Id, state: TaskState, taskType: TaskType, executeAt: Time)

  /** The stored columns of a task. */
  function RowOf(task: Task): Row
  {
    Row(task.state, task.taskType, task.executeAt)
  }

  /** `Task::from_row`: the task whose id is the selected key and whose other fields are the row's. */
  function FromRow(id: Id, row: Row): (task: Task)
    ensures task.id == id && RowOf(task) == row
  {
    Task(id, row.state, row.taskType, row.executeAt)
  }

  /** `retrieve`: a read-only select of the row with the given id. */
  function Retrieve(t: Table, id: Id): (r: Option<Task>)
    ensures r.None? <==> id !in t
    ensures r.Some? ==> r.value.id == id && RowOf(r.value) == t[id]
  {
    if id in t then Some(FromRow(id, t[id])) else None
  }

  /** The database: the one piece of state shared by the API and the workers. */
  class Store {
    var tasks: Table

    constructor ()
      ensures tasks == map[]
    {
      tasks := map[];
    }
  }
}
