/** core/executors/bulkexecutor.go: the container of a BulkExecutor. */
module BulkContainer {
  import opened ExecutorProtocol
  import opened ExecutorInvariants
  import opened ExecutorFlushing
  import opened ExecutorCalls

  /** The container asks to be flushed once it holds maxTasks tasks. */
  function BulkFull(maxTasks: int): Full
  {
    tasks => |tasks| >= maxTasks
  }

  class Container {
    var tasks: seq<Task>
    const maxTasks: int

    constructor (maxTasks: int)
      ensures this.maxTasks == maxTasks && tasks == []
    {
      this.maxTasks := maxTasks;
      tasks := [];
    }

    method AddTask(task: Task) returns (full: bool)
      modifies this
      ensures tasks == old(tasks) + [task] && full == BulkFull(maxTasks)(tasks)
      ensures full <==> |tasks| >= maxTasks
    {
      tasks := tasks + [task];
      full := |tasks| >= maxTasks;
    }

    method RemoveAll() returns (all: seq<Task>)
      modifies this
      ensures all == old(tasks) && tasks == []
    {
      all := tasks;
      tasks := [];
    }

    /** The container's part of the critical section of addAndCheck is the protocol's step. */
    method AddAndCheck(task: Task) returns (full: bool, batch: seq<Task>)
      modifies this
      ensures full == BulkFull(maxTasks)(old(tasks) + [task])
      ensures batch == (if full then old(tasks) + [task] else [])
      ensures tasks == (if full then [] else old(tasks) + [task])
    {
      batch := [];
      full := AddTask(task);
      if full {
        batch := RemoveAll();
      }
    }
  }

  /** The largest batch a bulk container hands out. */
  function Largest(maxTasks: int): nat
  {
    if maxTasks < 1 then 1 else maxTasks
  }

  ghost predicate Bounded(maxTasks: int, s: State)
  {
    && |s.container| < Largest(maxTasks)
    && (forall t | t in s.threads :: |Batch(s.threads[t])| <= Largest(maxTasks))
    && (s.commander.Holding? ==> |s.commander.batch| <= Largest(maxTasks))
  }

  /** A goroutine has the batch that it had, or takes one from another place. */
  lemma BatchFrom(full: Full, s: State, a: Action, s': State, t: Tid)
    requires Step(full, s, a, s') && t in s'.threads
    ensures var batch := Batch(s'.threads[t]);
            || batch == [] || batch == s.container || batch == s.container + [t]
            || (s.commander.Holding? && batch == s.commander.batch)
            || (t in s.threads && batch == Batch(s.threads[t]))
  {
    hide Step, Batch;
    if t in s.threads && a.t != t && !(a.Confirm? && a.u == t) {
      Elsewhere(full, s, a, s', t);
    } else {
      BatchMoved(full, s, a, s', t);
    }
  }

  lemma BatchMoved(full: Full, s: State, a: Action, s': State, t: Tid)
    requires Step(full, s, a, s') && t in s'.threads
    requires t in s.threads ==> a.t == t || (a.Confirm? && a.u == t)
    ensures var batch := Batch(s'.threads[t]);
            || batch == [] || batch == s.container || batch == s.container + [t]
            || (s.commander.Holding? && batch == s.commander.batch)
            || (t in s.threads && batch == Batch(s.threads[t]))
  {
    match a
    case StartAdd(t) =>
    case StartFlush(t) =>
    case StartWait(t) =>
    case AddAndCheck(t) =>
    case Spawn(t, u) =>
    case Send(t) =>
    case Confirm(t, u) =>
    case Receive(t) =>
    case Lower(t) =>
    case Enter(t) =>
    case Remove(t) =>
    case Execute(t, ok) =>
    case Finish(t) =>
    case Tick(t) =>
    case StayAwake(t) =>
    case ShallQuit(t) =>
    case Guard(t) =>
    case WakeUp(t) =>
    case Unguard(t) =>
  }

  /** The container takes a task while it is not full; the channel takes the batch of a goroutine. */
  lemma PlacesFrom(full: Full, s: State, a: Action, s': State)
    requires Step(full, s, a, s')
    ensures s'.container == [] || s'.container == s.container
            || (exists t :: s'.container == s.container + [t] && !full(s'.container))
    ensures s'.commander == Empty || s'.commander == s.commander
            || (a.Send? && a.t in s.threads && s'.commander == Holding(Batch(s.threads[a.t])))
  {
    match a
    case StartAdd(t) =>
    case StartFlush(t) =>
    case StartWait(t) =>
    case AddAndCheck(t) =>
    case Spawn(t, u) =>
    case Send(t) =>
    case Confirm(t, u) =>
    case Receive(t) =>
    case Lower(t) =>
    case Enter(t) =>
    case Remove(t) =>
    case Execute(t, ok) =>
    case Finish(t) =>
    case Tick(t) =>
    case StayAwake(t) =>
    case ShallQuit(t) =>
    case Guard(t) =>
    case WakeUp(t) =>
    case Unguard(t) =>
  }

  lemma BoundedStep(maxTasks: int, s: State, a: Action, s': State)
    requires Bounded(maxTasks, s) && Step(BulkFull(maxTasks), s, a, s')
    ensures Bounded(maxTasks, s')
  {
    hide Step, Batch;
    PlacesFrom(BulkFull(maxTasks), s, a, s');
    forall t | t in s'.threads ensures |Batch(s'.threads[t])| <= Largest(maxTasks) {
      BatchFrom(BulkFull(maxTasks), s, a, s', t);
    }
  }

  /** No batch that a bulk executor executes holds more than maxTasks tasks, whatever the interleaving. */
  lemma {:induction false} BatchesBounded(maxTasks: int, run: seq<State>, actions: seq<Action>, i: nat)
    requires Run(BulkFull(maxTasks), run, actions) && i < |run|
    ensures Bounded(maxTasks, run[i])
  {
    if i > 0 {
      BatchesBounded(maxTasks, run, actions, i - 1);
      BoundedStep(maxTasks, run[i - 1], actions[i - 1], run[i]);
    }
  }

  /** A batch that an Add hands to the flusher loop holds exactly maxTasks tasks, or one if the limit is less. */
  lemma CommandsExact(maxTasks: int, run: seq<State>, actions: seq<Action>, i: nat)
    requires Run(BulkFull(maxTasks), run, actions) && i < |run|
    ensures forall t | t in run[i].threads && WithCommand(run[i].threads[t]) ::
              |Batch(run[i].threads[t])| == Largest(maxTasks)
    ensures run[i].commander.Holding? ==> |run[i].commander.batch| == Largest(maxTasks)
  {
    hide WithCommand, Batch, Run;
    BatchesBounded(maxTasks, run, actions, i);
    CommandsFullRun(BulkFull(maxTasks), run, actions, i);
  }
}
