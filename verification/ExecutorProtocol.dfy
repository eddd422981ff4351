/** core/executors/periodicalexecutor.go as a protocol: goroutines that take atomic steps on
    the fields of one PeriodicalExecutor.  One goroutine makes one call of Add, Flush or Wait,
    or runs one background flusher; a task is named by the goroutine whose Add it was given to. */
module ExecutorProtocol {

  type Tid = nat
  type Task = Tid

  /** Who runs a Flush: the flusher loop, a flusher that quits, a caller, or Wait. */
  datatype Flusher = InLoop | AtQuit | ByCaller | InWait

  /** Where a goroutine stands. */
  datatype PC =
    // Add
    | AddBegin                                     // before taking the lock
    | AddSpawn(full: bool, batch: seq<Task>)       // set guarded; backgroundFlush is still to start its goroutine
    | AddSend(batch: seq<Task>)                    // at commander <- vals
    | AddConfirm                                   // at <-confirmChan
    | AddDone
    // the flusher loop
    | LoopSelect(commanded: bool)
    | LoopReceived(batch: seq<Task>)               // has received a batch, inflight not yet lowered
    | LoopEnter(batch: seq<Task>)                  // at enterExecution
    | LoopConfirm(batch: seq<Task>)                // at confirmChan <-
    | LoopExec(batch: seq<Task>)
    | LoopFinish                                   // at doneExecution
    | LoopIdle                                     // Flush had nothing to do: at shallQuit
    // Flush
    | FlushEnter(who: Flusher)                      // at enterExecution
    | FlushRemove(who: Flusher)
    | FlushExec(who: Flusher, batch: seq<Task>)
    | FlushFinish(who: Flusher, ok: bool)           // at doneExecution
    | FlushDone
    // Wait, after its Flush
    | WaitGuard                                    // at the barrier
    | WaitSleep                                    // holds the barrier, in waitGroup.Wait
    | WaitWake                                     // the counter was zero; still holds the barrier
    | WaitDone

  datatype Buffer = Empty | Holding(batch: seq<Task>)

  datatype State = State(
    threads: map<Tid, PC>,
    container: seq<Task>,
    commander: Buffer,       // the channel of capacity 1
    inflight: int,
    guarded: bool,
    waitGroup: int,
    barrier: bool,           // held by a Wait; every other use of it is within one step
    added: set<Task>,        // history: the tasks given to the container
    executed: seq<Task>      // history: the tasks executed, in order
  )

  datatype Action =
    | StartAdd(t: Tid) | StartFlush(t: Tid) | StartWait(t: Tid)
    | AddAndCheck(t: Tid)
    | Spawn(t: Tid, u: Tid)
    | Send(t: Tid)
    | Confirm(t: Tid, u: Tid)
    | Receive(t: Tid)
    | Lower(t: Tid)
    | Enter(t: Tid)
    | Remove(t: Tid)
    | Execute(t: Tid, ok: bool)
    | Finish(t: Tid)
    | Tick(t: Tid)
    | StayAwake(t: Tid)
    | ShallQuit(t: Tid)
    | Guard(t: Tid)
    | WakeUp(t: Tid)
    | Unguard(t: Tid)

  /** After an addition the container asks to be flushed.  Any such rule is covered. */
  type Full = seq<Task> -> bool

  ghost predicate Init(s: State)
  {
    s == State(map[], [], Empty, 0, false, 0, false, {}, [])
  }

  /** Where a Flush by `who` returns to. */
  function AfterFlush(who: Flusher, ok: bool): PC
  {
    match who
    case InLoop => if ok then LoopSelect(false) else LoopIdle
    case AtQuit => FlushDone
    case ByCaller => FlushDone
    case InWait => WaitGuard
  }

  function AfterSpawn(full: bool, batch: seq<Task>): PC
  {
    if full then AddSend(batch) else AddDone
  }

  /** One atomic step. */
  ghost predicate Step(full: Full, s: State, a: Action, s': State)
  {
    match a
    case StartAdd(t) => t !in s.threads && s' == s.(threads := s.threads[t := AddBegin])
    case StartFlush(t) => t !in s.threads && s' == s.(threads := s.threads[t := FlushEnter(ByCaller)])
    case StartWait(t) => t !in s.threads && s' == s.(threads := s.threads[t := FlushEnter(InWait)])
    case AddAndCheck(t) =>
      // one critical section of pe.lock
      && t in s.threads && s.threads[t] == AddBegin
      && var tasks := s.container + [t];
         var f := full(tasks);
         var batch := if f then tasks else [];
         s' == s.(threads := s.threads[t := if s.guarded then AfterSpawn(f, batch) else AddSpawn(f, batch)],
                  container := if f then [] else tasks,
                  inflight := s.inflight + (if f then 1 else 0),
                  guarded := true,
                  added := s.added + {t})
    case Spawn(t, u) =>
      && t in s.threads && s.threads[t].AddSpawn? && u !in s.threads
      && s' == s.(threads := s.threads[t := AfterSpawn(s.threads[t].full, s.threads[t].batch)][u := LoopSelect(false)])
    case Send(t) =>
      && t in s.threads && s.threads[t].AddSend? && s.commander.Empty?
      && s' == s.(threads := s.threads[t := AddConfirm], commander := Holding(s.threads[t].batch))
    case Confirm(t, u) =>
      // a rendezvous: any waiting Add may be the one that is confirmed
      && t in s.threads && s.threads[t].LoopConfirm? && u in s.threads && s.threads[u].AddConfirm?
      && s' == s.(threads := s.threads[t := LoopExec(s.threads[t].batch)][u := AddDone])
    case Receive(t) =>
      && t in s.threads && s.threads[t].LoopSelect? && s.commander.Holding?
      && s' == s.(threads := s.threads[t := LoopReceived(s.commander.batch)], commander := Empty)
    case Lower(t) =>
      && t in s.threads && s.threads[t].LoopReceived?
      && s' == s.(threads := s.threads[t := LoopEnter(s.threads[t].batch)], inflight := s.inflight - 1)
    case Enter(t) =>
      && t in s.threads && !s.barrier
      && (s.threads[t].LoopEnter? || s.threads[t].FlushEnter?)
      && s' == s.(threads := s.threads[t := if s.threads[t].LoopEnter? then LoopConfirm(s.threads[t].batch)
                                            else FlushRemove(s.threads[t].who)],
                  waitGroup := s.waitGroup + 1)
    case Remove(t) =>
      // one critical section of pe.lock
      && t in s.threads && s.threads[t].FlushRemove?
      && s' == s.(threads := s.threads[t := FlushExec(s.threads[t].who, s.container)], container := [])
    case Execute(t, ok) =>
      // a container that removes something other than a slice is executed even when it is empty
      && t in s.threads && (s.threads[t].LoopExec? || s.threads[t].FlushExec?)
      && (s.threads[t].batch != [] ==> ok)
      && s' == s.(threads := s.threads[t := if s.threads[t].LoopExec? then LoopFinish
                                            else FlushFinish(s.threads[t].who, ok)],
                  executed := s.executed + s.threads[t].batch)
    case Finish(t) =>
      && t in s.threads && (s.threads[t].LoopFinish? || s.threads[t].FlushFinish?)
      && s' == s.(threads := s.threads[t := if s.threads[t].LoopFinish? then LoopSelect(true)
                                            else AfterFlush(s.threads[t].who, s.threads[t].ok)],
                  waitGroup := s.waitGroup - 1)
    case Tick(t) =>
      && t in s.threads && s.threads[t].LoopSelect?
      && s' == s.(threads := s.threads[t := if s.threads[t].commanded then LoopSelect(false) else FlushEnter(InLoop)])
    case StayAwake(t) =>
      // the last execution is not yet idleRound intervals ago
      t in s.threads && s.threads[t].LoopIdle? && s' == s.(threads := s.threads[t := LoopSelect(false)])
    case ShallQuit(t) =>
      // one critical section of pe.lock
      && t in s.threads && s.threads[t].LoopIdle?
      && s' == if s.inflight == 0 then s.(threads := s.threads[t := FlushEnter(AtQuit)], guarded := false)
               else s.(threads := s.threads[t := LoopSelect(false)])
    case Guard(t) =>
      && t in s.threads && s.threads[t].WaitGuard? && !s.barrier
      && s' == s.(threads := s.threads[t := WaitSleep], barrier := true)
    case WakeUp(t) =>
      && t in s.threads && s.threads[t].WaitSleep? && s.waitGroup == 0
      && s' == s.(threads := s.threads[t := WaitWake])
    case Unguard(t) =>
      && t in s.threads && s.threads[t].WaitWake?
      && s' == s.(threads := s.threads[t := WaitDone], barrier := false)
  }

  /** The states of a run, from an initial state on. */
  ghost predicate Run(full: Full, run: seq<State>, actions: seq<Action>)
  {
    && |run| == |actions| + 1 && Init(run[0])
    && forall i | 0 <= i < |actions| :: Step(full, run[i], actions[i], run[i + 1])
  }
}
