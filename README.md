# task-scheduler, modelled in Dafny

A model of a small deferred task queue kept in one Postgres table. Clients
create, show, list and cancel tasks through an HTTP API. Worker processes poll
the table. Each poll claims one due task in a transaction, runs it and marks it
finished.

The table is modelled as `map<Id, Row>`. The state-changing operations
(`CreateTask`, `DeleteTask` and the worker's steps) take a `Store` object holding
that map; the read-only ones (`Retrieve`, `ShowTask`, `ListTasks`) are functions
of the table, and `Lifecycle` works on a `System` value that holds the table.
Ids are opaque naturals. Time is an integer. Each SQL statement or transaction
is one atomic step; the database's row locking is not modelled.

- `task_lib.dfy`, module `TaskLib` (`src/lib.rs`): the closed enumerations
  `TaskType` and `TaskState` with their stored labels and decoders, the `Task`
  record and `from_row`, the table, and `retrieve` as a lookup returning an
  `Option`.
- `webapi.dfy`, module `WebApi` (`src/bin/webapi.rs`): `create_task` and
  `delete_task` are methods that change the store; `show_task` and `list_tasks`
  are pure functions of the table. Create, delete and show answer the source's
  status codes; list returns a plain `Json` body, so it always answers 200.
- `worker.dfy`, module `Worker` (`src/bin/worker.rs`): one pass of the polling
  loop. `Claim` is the claim transaction, `Finish` is the completion update, and
  `Iterate` runs claim, idle-or-re-read, and finish.
- `lifecycle.dfy`, module `Lifecycle`: every statement that changes the table as
  one event of a single step relation. The worker's claim and its completion are separate steps, so
  other clients can act in between. The lemmas prove, over any run:
  - states only move forward;
  - a task that has started is never removed;
  - a claimed task can be re-read and shows executing after any number of
    other steps, until its own completion;
  - no task is claimed twice.

Three details of the code that the model follows:

- A task is claimable only when `execute_at < current_timestamp`; the comparison
  is strict (`src/bin/worker.rs:25`).
- `create_task` returns a plain `Json` body, so it answers 200
  (`src/bin/webapi.rs:71`).
- `TaskType` has no rename attribute, so its stored labels are the variant names
  `A`, `B`, `C`.

## Model

| member | source | states |
|---|---|---|
| `TaskLib.TypesAreClosed` | src/lib.rs:6-10 | every task type is one of A, B, C, and the three are distinct |
| `TaskLib.StatesAreClosed` | src/lib.rs:14-21 | every task state is one of Scheduled, Executing, Finished, and the three are distinct |
| `TaskLib.StateOfLabel` | src/lib.rs:14-21 | a decoded label is the label of the state it decodes to; a string that is no state's label decodes to None |
| `TaskLib.StateLabelRoundTrip` | src/lib.rs:15-20 | decoding the stored label of a state gives back that state; no two states share a label |
| `TaskLib.TypeOfLabel` | src/lib.rs:4-10 | a decoded type label is that type's label; any other string decodes to None |
| `TaskLib.TypeLabelRoundTrip` | src/lib.rs:4-10 | decoding a type's label gives back that type; the labels are distinct |
| `TaskLib.StateLabel` | src/lib.rs:15-20 | the stored labels `scheduled`, `executing`, `finished` of the three states |
| `TaskLib.TypeLabel` | src/lib.rs:6-10 | the stored labels of the three types: the variant names `A`, `B`, `C` |
| `TaskLib.FromRow` | src/lib.rs:32-39 | the task built from a row has the selected id and exactly the row's state, type and time |
| `TaskLib.Retrieve` | src/lib.rs:42-46 | None exactly when no row has the id; otherwise a task with the requested id and the stored row's fields; the table is only read |
| `WebApi.Insert` | src/bin/webapi.rs:64 | the insert adds exactly one row under the new id, with the requested type and time and the default state; every other row is kept |
| `WebApi.CreateTask` | src/bin/webapi.rs:55-72 | answers 200 with an id that was not in the table before; the new table is the old one plus that one row |
| `WebApi.Deletable` | src/bin/webapi.rs:84 | the delete's condition: the task is found by `retrieve` and its state is Scheduled |
| `WebApi.DeleteScheduled` | src/bin/webapi.rs:83-86 | the guarded delete removes the row only if it exists and is Scheduled; other rows are untouched; rows affected is the number of rows removed, at most one |
| `WebApi.DeleteTask` | src/bin/webapi.rs:74-92 | 204 exactly when the task existed and was Scheduled, 404 otherwise; the table afterwards is the guarded delete's result |
| `WebApi.DeleteNotFoundUnchanged` | src/bin/webapi.rs:84-88 | a delete that affects no row leaves the table unchanged, and happens only when the task is absent or not Scheduled |
| `WebApi.ShowTask` | src/bin/webapi.rs:101-123 | 200 with the stored task exactly when the id is present; otherwise 404 with the message "not found" |
| `WebApi.StateFilter` | src/bin/webapi.rs:142-143 | an omitted state passes all three states; a given state passes only itself |
| `WebApi.TypeFilter` | src/bin/webapi.rs:145-146 | an omitted type passes all three types; a given type passes only itself |
| `WebApi.Selected` | src/bin/webapi.rs:140 | the list's condition: the row's state matches the given state, or any state when it is omitted, and likewise its type |
| `WebApi.SelectRows` | src/bin/webapi.rs:148-149 | the rows under the given keys that pass both filters, mapped with `from_row` and kept in key order |
| `WebApi.ListTasks` | src/bin/webapi.rs:131-152 | answers 200; a task is listed exactly when it is stored with those fields and its state and type pass the filters; each task appears once |
| `WebApi.ListWithoutParamsIsEverything` | src/bin/webapi.rs:142-146 | with neither parameter, every stored task is listed, and only stored tasks |
| `WebApi.ListByStateOnly` | src/bin/webapi.rs:143 | with one given state, only tasks in that state are listed, and all of those that match the type filter |
| `Worker.Eligible` | src/bin/worker.rs:25 | the claim's condition: state Scheduled and `execute_at` strictly before now |
| `Worker.UpdateState` | src/bin/worker.rs:40-44 | the update changes only the state of the row with that id and affects one row exactly when the id is present |
| `Worker.Claim` | src/bin/worker.rs:20-52 | no claim exactly when no task is Scheduled and due strictly before now, and then nothing changes; otherwise the claimed task was eligible and only its state changes, to Executing |
| `Worker.Finish` | src/bin/worker.rs:69-72 | the completion update sets the task's state to Finished and changes nothing else |
| `Worker.Iterate` | src/bin/worker.rs:20-73 | idle exactly when nothing is eligible, and then the table is unchanged; otherwise exactly one eligible task is re-read as Executing and ends Finished, and nothing else changes |
| `Worker.RunClaimedLifecycle` | src/bin/worker.rs:40-72 | a run task goes Scheduled, then Executing (as re-read), then Finished; no other task or field changes |
| `Worker.IdleMeansNothingDue` | src/bin/worker.rs:25-37 | when the worker idles, every Scheduled task is due at or after now |
| `Lifecycle.Rank` | src/lib.rs:14-21 | the position of a state along the lifecycle: Scheduled first, Finished last |
| `Lifecycle.Inv` | src/bin/worker.rs:54-56 | every claimed and unfinished task is stored and executing, and every stored id has been issued |
| `Lifecycle.Enabled` | src/bin/worker.rs:20-73 | when each step can happen: create under a never-issued id, delete always, claim of an eligible task, idle when nothing is eligible, and completion only of a task this worker claimed and has not finished |
| `Lifecycle.Step` | src/bin/worker.rs:20-73 | each handler statement and each worker statement as one atomic step on the table: the guarded delete, the insert, the claim update and the completion update |
| `Lifecycle.StepIsForward` | src/bin/worker.rs:40-72 | any single step keeps the invariant, moves a state at most one step forward, removes only Scheduled tasks, adds only Scheduled tasks under new ids, and keeps every claimed task claimed until its own completion |
| `Lifecycle.ClaimedTaskIsRetrievable` | src/bin/worker.rs:54-59 | the one-step case of `ClaimedTaskStaysExecuting`: whatever single step another client takes between claim and re-read, the claimed task is still found and shows Executing |
| `Lifecycle.ClaimedTaskStaysExecuting` | src/bin/worker.rs:52-59 | after any number of other steps following the claim's commit, and before its own completion, the claimed task is still in flight, is found by `retrieve`, and shows Executing |
| `Lifecycle.ReachableStatesAreConsistent` | src/bin/worker.rs:54-59 | every state reached from the empty store satisfies the invariant, so every in-flight task can be retrieved |
| `Lifecycle.RunIsForward` | src/bin/worker.rs:40-72 | over any run no task's state moves backward and its type and time stay the same; a task that has left Scheduled is never removed; a removed id never returns |
| `Lifecycle.NoSecondClaim` | src/bin/worker.rs:25 | once a task has left Scheduled, no later claim of any worker can select it |
| `Lifecycle.IterationIsClaimThenComplete` | src/bin/worker.rs:40-72 | a running iteration is the claim step followed by the completion step, and together they only set that task to Finished |

## Left out

- HTTP routing, the server, the JSON extractors and serde encoding are left out of the model. A request body that does not parse is rejected before `create_task` runs, so the model's requests are already typed.
- The connection pool, connection strings and the async runtime are left out.
- The `expect` panics on store errors are left out. Two failure paths that need no store error are proved unreachable. The `affected_rows != 1` bail-out in the claim (`src/bin/worker.rs:45-50`) is ruled out by an assertion in `Worker.Claim`. The re-read's `expect` (`src/bin/worker.rs:57-59`) cannot fire: `Lifecycle.ClaimedTaskStaysExecuting` shows the claimed task is still found, and still executing, after any number of other steps.
- The `println!` logging is left out. Both 5-second sleeps are left out too: the idle sleep is the `Idle` outcome and the "work" sleep does nothing to the table.
- The endless `loop` is modelled as one iteration (`Worker.Iterate`). Runs of many steps are the event sequences of `Lifecycle`.
- Concurrency is left out: `FOR UPDATE SKIP LOCKED` and Postgres row locking. Each claim transaction is one atomic step, so at-most-once claiming is proved for interleaved atomic steps, not for truly concurrent transactions.
- UUID generation is modelled as a choice of any id not in the table (`WebApi.CreateTask`). `Lifecycle` also assumes ids are never drawn twice (the `issued` set), which stands in for UUID uniqueness.
- The schema is not part of this model. The `scheduled` state of a new row comes from its column default; this is the assumption `WebApi.DefaultState`, not verified behaviour.
- chrono time values are integers.
- `WebApi.ListTasks`: the query has no `ORDER BY`, so the source's order is whatever Postgres returns. The model fixes ascending id order as one admissible order.
- `Worker.Finish`: the completion statement has no state guard, so the model lets it act on any id. Only `Lifecycle` restricts it to a claimed, in-flight id, which is the only way the worker uses it.
- A worker crashing between claim and completion is not modelled as an event. Such a task simply stays executing, and no recovery exists in the source.
