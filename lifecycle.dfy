/**
 * The task lifecycle across all of the system's operations. The database makes
 * each API handler and each claim transaction one atomic step; what is left is
 * the order in which those steps happen. In particular a worker finishes a task
 * in a later statement than the one that claimed it, so other clients may act on
 * the table in between. This module puts every statement that changes the table
 * into one step relation and proves that tasks only move forward along Scheduled, Executing, Finished.
 */
module Lifecycle {
  import opened TaskLib
  import opened WebApi
  import opened Worker

  /** Position of a state along the lifecycle. */
  function Rank(s: TaskState): (n: nat)
    ensures n < 3
    ensures n == 0 <==> s == Scheduled
    ensures n == 2 <==> s == Finished
  {
    match s
    case Scheduled => 0
    case Executing => 1
    case Finished => 2
  }

  /** The only two state changes there are: claim and completion. */
  predicate Advances(from: TaskState, to: TaskState)
  {
    (from == Scheduled && to == Executing) || (from == Executing && to == Finished)
  }

  /**
   * The table, the ids that workers have claimed and not yet finished, and every
   * id ever handed out (ids are never reused).
   */
  datatype System = System(tasks: Table, inFlight: set<Id>, issued: set<Id>)

  /** Every claimed-but-unfinished task is still stored and executing; every stored id was issued. */
  predicate Inv(sys: System)
  {
    && sys.tasks.Keys <= sys.issued
    && forall id :: id in sys.inFlight ==> id in sys.tasks && sys.tasks[id].state == Executing
  }

  /** The empty store. */
  function Initial(): (sys: System)
    ensures Inv(sys) && sys.tasks == map[]
  {
    System(map[], {}, {})
  }

  /** One atomic step of some client or worker. */
  datatype Event =
    | Submit(id: Id, request: TaskCreationRequest)  // create_task; `id` is the one the database draws
    | Cancel(id: Id)                                // delete_task
    | ClaimTask(id: Id, now: Time)                  // a worker's claim transaction that selects `id`
    | IdleWait(now: Time)                           // a worker's claim transaction that finds nothing
    | Complete(id: Id)                              // a worker's completion statement for its claimed id

  /** Whether the event can happen in this state. */
  predicate Enabled(sys: System, e: Event)
  {
    match e
    case Submit(id, _) => id !in sys.issued && id !in sys.tasks
    case Cancel(_) => true
    case ClaimTask(id, now) => id in sys.tasks && Eligible(sys.tasks[id], now)
    case IdleWait(now) => !SomeEligible(sys.tasks, now)
    case Complete(id) => id in sys.inFlight
  }

  /** The state after the event, built from the same statements the handlers and the worker run. */
  function Step(sys: System, e: Event): System
    requires Enabled(sys, e)
  {
    match e
    case Submit(id, request) => sys.(tasks := Insert(sys.tasks, id, request), issued := sys.issued + {id})
    case Cancel(id) => sys.(tasks := DeleteScheduled(sys.tasks, id).0)
    case ClaimTask(id, _) => sys.(tasks := UpdateState(sys.tasks, id, Executing).0, inFlight := sys.inFlight + {id})
    case IdleWait(_) => sys
    case Complete(id) => sys.(tasks := UpdateState(sys.tasks, id, Finished).0, inFlight := sys.inFlight - {id})
  }

  /** Between the two states, each task kept its type and time and its state stayed or moved one step forward. */
  predicate Forward(before: Table, after: Table)
  {
    forall id :: id in before && id in after ==>
      && after[id].taskType == before[id].taskType
      && after[id].executeAt == before[id].executeAt
      && (after[id].state == before[id].state || Advances(before[id].state, after[id].state))
  }

  /**
   * One step preserves the invariant, moves states only forward, removes only
   * scheduled tasks, adds only scheduled tasks under fresh ids, and leaves every
   * claimed task executing until its own completion.
   */
  lemma StepIsForward(sys: System, e: Event)
    requires Inv(sys) && Enabled(sys, e)
    ensures Inv(Step(sys, e))
    ensures Forward(sys.tasks, Step(sys, e).tasks)
    ensures forall id :: id in sys.tasks && id !in Step(sys, e).tasks ==> sys.tasks[id].state == Scheduled
    ensures forall id :: id in Step(sys, e).tasks && id !in sys.tasks ==>
      id !in sys.issued && Step(sys, e).tasks[id].state == Scheduled
    ensures sys.issued <= Step(sys, e).issued
    ensures forall id :: id in sys.inFlight && e != Complete(id) ==> id in Step(sys, e).inFlight
  {
  }

  /**
   * The one-step case of `ClaimedTaskStaysExecuting`: a claimed task can be
   * re-read, and shows executing, whatever single other step came in between.
   */
  lemma ClaimedTaskIsRetrievable(sys: System, e: Event, id: Id)
    requires Inv(sys) && Enabled(sys, e) && id in sys.inFlight && e != Complete(id)
    ensures Retrieve(Step(sys, e).tasks, id).Some?
    ensures Retrieve(Step(sys, e).tasks, id).value.state == Executing
  {
    StepIsForward(sys, e);
  }

  /** Every event of the sequence is enabled when it happens. */
  predicate Runs(sys: System, es: seq<Event>)
    decreases |es|
  {
    es == [] || (Enabled(sys, es[0]) && Runs(Step(sys, es[0]), es[1..]))
  }

  /** The state after the whole sequence. */
  function Final(sys: System, es: seq<Event>): System
    requires Runs(sys, es)
    decreases |es|
  {
    if es == [] then sys else Final(Step(sys, es[0]), es[1..])
  }

  /**
   * Over any run, states never move backward and other fields never change; a
   * task that has left Scheduled is never removed; a removed id never returns.
   */
  lemma {:induction false} RunIsForward(sys: System, es: seq<Event>)
    requires Inv(sys) && Runs(sys, es)
    ensures Inv(Final(sys, es))
    ensures forall id :: id in sys.tasks && id in Final(sys, es).tasks ==>
      && Rank(sys.tasks[id].state) <= Rank(Final(sys, es).tasks[id].state)
      && Final(sys, es).tasks[id].taskType == sys.tasks[id].taskType
      && Final(sys, es).tasks[id].executeAt == sys.tasks[id].executeAt
    ensures forall id :: id in sys.tasks && sys.tasks[id].state != Scheduled ==> id in Final(sys, es).tasks
    ensures forall id :: id in sys.issued && id !in sys.tasks ==> id !in Final(sys, es).tasks
    ensures sys.issued <= Final(sys, es).issued
    decreases |es|
  {
    if es != [] {
      var next := Step(sys, es[0]);
      StepIsForward(sys, es[0]);
      RunIsForward(next, es[1..]);
      var fin := Final(sys, es);
      assert fin == Final(next, es[1..]);
      forall id | id in sys.tasks && id in fin.tasks
        ensures Rank(sys.tasks[id].state) <= Rank(fin.tasks[id].state)
        ensures fin.tasks[id].taskType == sys.tasks[id].taskType && fin.tasks[id].executeAt == sys.tasks[id].executeAt
      {
        // A task removed by the first step could not be stored again afterwards.
        assert id in next.issued;
        assert id in next.tasks;
      }
      forall id | id in sys.tasks && sys.tasks[id].state != Scheduled
        ensures id in fin.tasks
      {
        assert id in next.tasks && next.tasks[id].state != Scheduled;
      }
    }
  }

  /**
   * A claimed task can be re-read, and shows executing, after any number of
   * other steps, as long as its own completion has not happened.
   */
  lemma {:induction false} ClaimedTaskStaysExecuting(sys: System, es: seq<Event>, id: Id)
    requires Inv(sys) && Runs(sys, es) && id in sys.inFlight
    requires forall i :: 0 <= i < |es| ==> es[i] != Complete(id)
    ensures id in Final(sys, es).inFlight
    ensures Retrieve(Final(sys, es).tasks, id).Some?
    ensures Retrieve(Final(sys, es).tasks, id).value.state == Executing
    decreases |es|
  {
    if es != [] {
      StepIsForward(sys, es[0]);
      assert forall i :: 0 <= i < |es[1..]| ==> es[1..][i] == es[i + 1];
      ClaimedTaskStaysExecuting(Step(sys, es[0]), es[1..], id);
    } else {
      RunIsForward(sys, es);
    }
  }

  /** Every state reached from the empty store satisfies the invariant. */
  lemma ReachableStatesAreConsistent(es: seq<Event>)
    requires Runs(Initial(), es)
    ensures Inv(Final(Initial(), es))
    ensures forall id :: id in Final(Initial(), es).inFlight ==> Retrieve(Final(Initial(), es).tasks, id).Some?
  {
    RunIsForward(Initial(), es);
  }

  /**
   * At most one claim per task: once a task has been claimed, no later claim
   * transaction of any worker can select it again.
   */
  lemma {:induction false} NoSecondClaim(sys: System, es: seq<Event>, id: Id, now: Time)
    requires Inv(sys) && Runs(sys, es)
    requires id in sys.tasks && sys.tasks[id].state != Scheduled
    ensures !Enabled(Final(sys, es), ClaimTask(id, now))
  {
    RunIsForward(sys, es);
    var fin := Final(sys, es);
    assert id in fin.tasks;
    assert Rank(sys.tasks[id].state) <= Rank(fin.tasks[id].state);
  }

  /** A worker iteration that runs a task is its claim step followed at once by its completion step. */
  lemma IterationIsClaimThenComplete(sys: System, id: Id, now: Time)
    requires Inv(sys) && id in sys.tasks && Eligible(sys.tasks[id], now)
    ensures Enabled(sys, ClaimTask(id, now))
    ensures Enabled(Step(sys, ClaimTask(id, now)), Complete(id))
    ensures Step(Step(sys, ClaimTask(id, now)), Complete(id)).tasks == sys.tasks[id := sys.tasks[id].(state := Finished)]
    ensures Step(Step(sys, ClaimTask(id, now)), Complete(id)).inFlight == sys.inFlight
  {
    assert id !in sys.inFlight;
  }
}
