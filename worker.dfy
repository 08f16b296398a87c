/**
 * One pass of the worker's polling loop: claim an eligible task in a
 * transaction, re-read it, run it, and mark it finished; or, when nothing is
 * eligible, change nothing and idle.
 */
module Worker {
  import opened TaskLib

  /** The claim query's condition: scheduled, and due strictly before `now`. */
  predicate Eligible(row: Row, now: Time)
  {
    row.state == Scheduled && row.executeAt < now
  }

  /** Whether the claim query finds a row at all. */
  predicate SomeEligible(t: Table, now: Time)
  {
    exists id :: id in t && Eligible(t[id], now)
  }

  /**
   * `update tasks set state = s where id = $1`: the new table and the number of
   * rows affected. Only the row with that id changes, and only in its state.
   */
  function UpdateState(t: Table, id: Id, s: TaskState): (r: (Table, nat))
    ensures r.0.Keys == t.Keys
    ensures r.1 == (if id in t then 1 else 0)
    ensures id in t ==> r.0[id].state == s && r.0[id].taskType == t[id].taskType && r.0[id].executeAt == t[id].executeAt
    ensures forall k :: k in t && k != id ==> r.0[k] == t[k]
  {
    if id in t then (t[id := t[id].(state := s)], 1) else (t, 0)
  }

  /**
   * The claim transaction: select one eligible row for update, set it to
   * executing, commit. Which of several eligible rows is taken is not specified.
   */
  method Claim(db: Store, now: Time) returns (claimed: Option<Id>)
    modifies db
    ensures claimed.None? <==> !SomeEligible(old(db.tasks), now)
    ensures claimed.None? ==> db.tasks == old(db.tasks)
    ensures claimed.Some? ==> claimed.value in old(db.tasks) && Eligible(old(db.tasks)[claimed.value], now)
    ensures claimed.Some? ==> db.tasks == UpdateState(old(db.tasks), claimed.value, Executing).0
  {
    if id :| id in db.tasks && Eligible(db.tasks[id], now) {
      var (tasks', affectedRows) := UpdateState(db.tasks, id, Executing);
      // The row was selected in this same atomic step, so the update finds it:
      // the bail-out for `affected_rows != 1` cannot be taken.
      assert affectedRows == 1;
      db.tasks := tasks';
      claimed := Some(id);
    } else {
      claimed := None;
    }
  }

  /** The completion statement for the claimed id; the statement has no state guard. */
  method Finish(db: Store, id: Id)
    modifies db
    ensures db.tasks == UpdateState(old(db.tasks), id, Finished).0
  {
    var (tasks', _) := UpdateState(db.tasks, id, Finished);
    db.tasks := tasks';
  }

  /** What one pass of the loop did: went idle, or ran the (re-read) task. */
  datatype Outcome = Idle | Ran(task: Task)

  /**
   * One iteration of the loop. Executing the task itself is opaque and changes
   * nothing in the table; the idle sleep is the `Idle` outcome.
   */
  method Iterate(db: Store, now: Time) returns (outcome: Outcome)
    modifies db
    ensures outcome.Idle? <==> !SomeEligible(old(db.tasks), now)
    ensures outcome.Idle? ==> db.tasks == old(db.tasks)
    ensures outcome.Ran? ==>
      var id := outcome.task.id;
      && id in old(db.tasks) && Eligible(old(db.tasks)[id], now)
      && outcome.task == FromRow(id, old(db.tasks)[id].(state := Executing))
      && db.tasks == old(db.tasks)[id := old(db.tasks)[id].(state := Finished)]
  {
    var claimed := Claim(db, now);
    if claimed.None? {
      return Idle;
    }
    var id := claimed.value;
    var task := Retrieve(db.tasks, id);
    // Only scheduled tasks can be deleted, so the claimed one is still there.
    assert task.Some? && task.value.state == Executing;
    Finish(db, id);
    outcome := Ran(task.value);
  }

  /** The table after one iteration that ran the task `id`: claimed, then finished. */
  function RunClaimed(t: Table, id: Id): Table
  {
    UpdateState(UpdateState(t, id, Executing).0, id, Finished).0
  }

  /**
   * An iteration that runs a task takes it from scheduled through executing to
   * finished, touches no other task, and changes no other field of it.
   */
  lemma RunClaimedLifecycle(t: Table, id: Id, now: Time)
    requires id in t && Eligible(t[id], now)
    ensures t[id].state == Scheduled
    ensures Retrieve(UpdateState(t, id, Executing).0, id) == Some(FromRow(id, t[id].(state := Executing)))
    ensures RunClaimed(t, id) == t[id := t[id].(state := Finished)]
    ensures forall k :: k != id ==> (k in t <==> k in RunClaimed(t, id)) && (k in t ==> RunClaimed(t, id)[k] == t[k])
  {
  }

  /** When nothing is eligible, no row is both scheduled and due. */
  lemma IdleMeansNothingDue(t: Table, now: Time)
    requires !SomeEligible(t, now)
    ensures forall id :: id in t && t[id].state == Scheduled ==> now <= t[id].executeAt
  {
  }
}
