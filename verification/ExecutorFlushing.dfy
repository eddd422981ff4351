/** What ticks are for: a task in the container is executed by the second tick of the flusher loop at the latest,
    if no batch comes in between; and a loop that quits leaves no task behind. */
module ExecutorFlushing {
  import opened Counting
  import opened ExecutorProtocol
  import opened ExecutorInvariants
  import opened ExecutorProperties

  /** A goroutine that can still take a step with a batch in its hands. */
  lemma BatchAdvances(full: Full, s: State, t: Tid)
    requires Inv(full, s) && t in s.threads && Batch(s.threads[t]) != []
    ensures CanAdvance(full, s)
  {
    var pc := s.threads[t];
    if Adding(pc) {
      AddAdvances(full, s, t);
    } else if Entered(pc) {
      EnteredAdvances(full, s, t);
    } else if pc.LoopEnter? {
      EnterAdvances(full, s, t);
    } else {
      Advance(full, s, Lower(t), s.(threads := s.threads[t := LoopEnter(pc.batch)], inflight := s.inflight - 1));
    }
  }

  /** Where no step is left, every task is in the container or has been executed. */
  lemma Settled(full: Full, s: State, x: Task)
    requires Inv(full, s) && !CanAdvance(full, s) && x in s.added
    ensures x in s.container || x in s.executed
  {
    var p :| x in Tasks(s, p);
    match p
    case InContainer =>
    case InCommander => HoldingAdvances(full, s);
    case With(t) => BatchAdvances(full, s, t);
    case Executed =>
  }

  /** A task that has left the container does not come back. */
  lemma StaysOut(full: Full, s: State, a: Action, s': State, x: Task)
    requires Inv(full, s) && Step(full, s, a, s') && x in s.added && x !in s.container
    ensures x in s'.added && x !in s'.container
  {
    hide Counted, Owned, Undisturbed, Attended, NeverFull;
    match a
    case StartAdd(t) =>
    case StartFlush(t) =>
    case StartWait(t) =>
    case AddAndCheck(t) =>
    case Spawn(t, u) =>
    case Send(t) =>
    case Confirm(t, u) =>
    case Receive(t) =>
    case Lower(t) =>
    case Enter(t) =>
    case Remove(t) =>
    case Execute(t, ok) =>
    case Finish(t) =>
    case Tick(t) =>
    case StayAwake(t) =>
    case ShallQuit(t) =>
    case Guard(t) =>
    case WakeUp(t) =>
    case Unguard(t) =>
  }

  /** In the loop or past it, with no batch received since the last tick. */
  predicate Uncommanded(pc: PC)
  {
    || pc == LoopSelect(false) || pc.LoopIdle? || pc.FlushDone?
    || ((pc.FlushEnter? || pc.FlushRemove? || pc.FlushExec? || pc.FlushFinish?)
        && (pc.who == InLoop || pc.who == AtQuit))
  }

  lemma UncommandedStep(full: Full, s: State, a: Action, s': State, t: Tid)
    requires Step(full, s, a, s') && t in s.threads && Uncommanded(s.threads[t]) && a != Receive(t)
    ensures t in s'.threads && Uncommanded(s'.threads[t])
  {
    if a.t != t && !(a.Confirm? && a.u == t) {
      Elsewhere(full, s, a, s', t);
    }
  }

  /** The steps of others leave a goroutine where it is, unless it waits to be confirmed. */
  lemma Elsewhere(full: Full, s: State, a: Action, s': State, t: Tid)
    requires Step(full, s, a, s') && t in s.threads && a.t != t && !(a.Confirm? && a.u == t)
    ensures t in s'.threads && s'.threads[t] == s.threads[t]
  {
    match a
    case StartAdd(_) =>
    case StartFlush(_) =>
    case StartWait(_) =>
    case AddAndCheck(_) =>
    case Spawn(_, u) =>
    case Send(_) =>
    case Confirm(_, u) =>
    case Receive(_) =>
    case Lower(_) =>
    case Enter(_) =>
    case Remove(_) =>
    case Execute(_, ok) =>
    case Finish(_) =>
    case Tick(_) =>
    case StayAwake(_) =>
    case ShallQuit(_) =>
    case Guard(_) =>
    case WakeUp(_) =>
    case Unguard(_) =>
  }

  lemma {:induction false} UncommandedRun(full: Full, run: seq<State>, actions: seq<Action>, t: Tid, i: nat, j: nat)
    requires Run(full, run, actions) && i < j <= |actions| && actions[i] == Tick(t)
    requires forall m | i < m < j :: actions[m] != Receive(t)
    ensures t in run[j].threads && Uncommanded(run[j].threads[t])
  {
    hide Init;
    if i < j - 1 {
      UncommandedRun(full, run, actions, t, i, j - 1);
      UncommandedStep(full, run[j - 1], actions[j - 1], run[j], t);
    }
  }

  /** At a Flush that is still to remove what the container holds. */
  predicate BeforeRemove(pc: PC)
  {
    pc.FlushEnter? || pc.FlushRemove?
  }

  lemma FlushStep(full: Full, s: State, a: Action, s': State, t: Tid, x: Task)
    requires Inv(full, s) && Step(full, s, a, s') && x in s.added
    requires x !in s.container || (t in s.threads && BeforeRemove(s.threads[t]))
    ensures x in s'.added && (x !in s'.container || (t in s'.threads && BeforeRemove(s'.threads[t])))
  {
    if x !in s.container {
      StaysOut(full, s, a, s', x);
    } else {
      hide Inv;
      AddedStays(full, s, a, s', x);
      if a.t != t && !(a.Confirm? && a.u == t) {
        Elsewhere(full, s, a, s', t);
      }
    }
  }

  lemma AddedStays(full: Full, s: State, a: Action, s': State, x: Task)
    requires Step(full, s, a, s') && x in s.added
    ensures x in s'.added
  {
  }

  lemma {:induction false} FlushRun(full: Full, run: seq<State>, actions: seq<Action>, t: Tid, x: Task, j: nat, k: nat)
    requires Run(full, run, actions) && j <= k <= |actions| && x in run[j].added
    requires x !in run[j].container || (t in run[j].threads && BeforeRemove(run[j].threads[t]))
    ensures x in run[k].added && (x !in run[k].container || (t in run[k].threads && BeforeRemove(run[k].threads[t])))
  {
    hide Step, Inv, Init, BeforeRemove;
    if j < k {
      FlushRun(full, run, actions, t, x, j, k - 1);
      InvRun(full, run, actions, k - 1);
      FlushStep(full, run[k - 1], actions[k - 1], run[k], t, x);
    }
  }

  /** A task that a Flush is going to meet has been executed where no step is left. */
  lemma FlushExecutes(full: Full, run: seq<State>, actions: seq<Action>, t: Tid, x: Task, j: nat, k: nat)
    requires Run(full, run, actions) && j <= k <= |actions| && x in run[j].added
    requires x !in run[j].container || (t in run[j].threads && BeforeRemove(run[j].threads[t]))
    requires !CanAdvance(full, run[k])
    ensures x in run[k].executed
  {
    FlushRun(full, run, actions, t, x, j, k);
    InvRun(full, run, actions, k);
    if x in run[k].container {
      if run[k].threads[t].FlushEnter? {
        EnterAdvances(full, run[k], t);
      } else {
        EnteredAdvances(full, run[k], t);
      }
    }
    Settled(full, run[k], x);
  }

  lemma {:induction false} AddedRun(full: Full, run: seq<State>, actions: seq<Action>, x: Task, i: nat, j: nat)
    requires Run(full, run, actions) && i <= j <= |actions| && x in run[i].added
    ensures x in run[j].added
  {
    hide Step, Init;
    if i < j {
      AddedRun(full, run, actions, x, i, j - 1);
      AddedStays(full, run[j - 1], actions[j - 1], run[j], x);
    }
  }

  /** After two ticks of a flusher loop with no batch received in between, every task that was in the container at the
      first has been executed, wherever the run settles. */
  lemma TicksFlush(full: Full, run: seq<State>, actions: seq<Action>, t: Tid, i: nat, j: nat, k: nat, x: Task)
    requires Run(full, run, actions) && i < j < k <= |actions| && actions[i] == Tick(t) && actions[j] == Tick(t)
    requires forall m | i < m < j :: actions[m] != Receive(t)
    requires x in run[i].container && !CanAdvance(full, run[k])
    ensures x in run[k].executed
  {
    InvRun(full, run, actions, i);
    assert x in Tasks(run[i], InContainer);
    AddedRun(full, run, actions, x, i, j + 1);
    UncommandedRun(full, run, actions, t, i, j);
    assert Step(full, run[j], actions[j], run[j + 1]);
    FlushExecutes(full, run, actions, t, x, j + 1, k);
  }

  /** A loop that finds nothing in flight when it asks whether to quit ends, and executes what is in the container
      first; one that finds something goes on. */
  lemma QuitFlushes(full: Full, run: seq<State>, actions: seq<Action>, t: Tid, i: nat, k: nat, x: Task)
    requires Run(full, run, actions) && i < k <= |actions| && actions[i] == ShallQuit(t)
    requires x in run[i].container && !CanAdvance(full, run[k])
    ensures run[i].inflight == 0 ==> x in run[k].executed && !run[i + 1].guarded
    ensures run[i].inflight == 0 ==> t in run[k].threads && !Looper(run[k].threads[t])
    ensures run[i].inflight != 0 ==> t in run[i + 1].threads && Looper(run[i + 1].threads[t]) && run[i + 1].guarded
  {
    assert Step(full, run[i], actions[i], run[i + 1]);
    InvRun(full, run, actions, i);
    assert x in Tasks(run[i], InContainer);
    AddedRun(full, run, actions, x, i, i + 1);
    if run[i].inflight == 0 {
      FlushExecutes(full, run, actions, t, x, i + 1, k);
      GoneRun(full, run, actions, t, i + 1, k);
    } else {
      CountMember(run[i].threads, Looper, t);
    }
  }

  /** Past its loop. */
  predicate Gone(pc: PC)
  {
    pc.FlushDone? || ((pc.FlushEnter? || pc.FlushRemove? || pc.FlushExec? || pc.FlushFinish?) && pc.who == AtQuit)
  }

  lemma {:induction false} GoneRun(full: Full, run: seq<State>, actions: seq<Action>, t: Tid, j: nat, k: nat)
    requires Run(full, run, actions) && j <= k <= |actions| && t in run[j].threads && Gone(run[j].threads[t])
    ensures t in run[k].threads && Gone(run[k].threads[t])
  {
    hide Step, Init, Gone;
    if j < k {
      GoneRun(full, run, actions, t, j, k - 1);
      GoneStep(full, run[k - 1], actions[k - 1], run[k], t);
    }
  }

  lemma GoneStep(full: Full, s: State, a: Action, s': State, t: Tid)
    requires Step(full, s, a, s') && t in s.threads && Gone(s.threads[t])
    ensures t in s'.threads && Gone(s'.threads[t])
  {
    if a.t != t && !(a.Confirm? && a.u == t) {
      Elsewhere(full, s, a, s', t);
    }
  }

  // ------------------------------------------------------------ a batch makes the loop skip one tick

  /** Has received a batch since the last tick. */
  predicate Commanded(pc: PC)
  {
    || pc.LoopReceived? || pc.LoopEnter? || pc.LoopConfirm? || pc.LoopExec? || pc.LoopFinish? || pc == LoopSelect(true)
  }

  lemma CommandedStep(full: Full, s: State, a: Action, s': State, t: Tid)
    requires Step(full, s, a, s') && t in s.threads && Commanded(s.threads[t]) && a != Tick(t)
    ensures t in s'.threads && Commanded(s'.threads[t])
  {
    if a.t != t && !(a.Confirm? && a.u == t) {
      Elsewhere(full, s, a, s', t);
    }
  }

  lemma {:induction false} CommandedRun(full: Full, run: seq<State>, actions: seq<Action>, t: Tid, i: nat, j: nat)
    requires Run(full, run, actions) && i < j <= |actions| && actions[i] == Receive(t)
    requires forall m | i < m < j :: actions[m] != Tick(t)
    ensures t in run[j].threads && Commanded(run[j].threads[t])
  {
    if i < j - 1 {
      CommandedRun(full, run, actions, t, i, j - 1);
      CommandedStep(full, run[j - 1], actions[j - 1], run[j], t);
    }
  }

  lemma {:induction false} SelectRun(full: Full, run: seq<State>, actions: seq<Action>, t: Tid, j: nat, k: nat)
    requires Run(full, run, actions) && j <= k <= |actions|
    requires t in run[j].threads && run[j].threads[t] == LoopSelect(false)
    requires forall m | j <= m < k :: actions[m] != Tick(t) && actions[m] != Receive(t)
    ensures t in run[k].threads && run[k].threads[t] == LoopSelect(false)
  {
    if j < k {
      SelectRun(full, run, actions, t, j, k - 1);
      if actions[k - 1].t != t && !(actions[k - 1].Confirm? && actions[k - 1].u == t) {
        Elsewhere(full, run[k - 1], actions[k - 1], run[k], t);
      }
    }
  }

  /** The first tick after a batch does not make the loop flush: until the next tick or batch it waits. */
  lemma CommandSkipsTick(full: Full, run: seq<State>, actions: seq<Action>, t: Tid, i: nat, j: nat, k: nat)
    requires Run(full, run, actions) && i < j < k <= |actions| && actions[i] == Receive(t) && actions[j] == Tick(t)
    requires forall m | i < m < j :: actions[m] != Tick(t)
    requires forall m | j < m < k :: actions[m] != Tick(t) && actions[m] != Receive(t)
    ensures t in run[k].threads && run[k].threads[t] == LoopSelect(false)
  {
    CommandedRun(full, run, actions, t, i, j);
    assert Step(full, run[j], actions[j], run[j + 1]);
    SelectRun(full, run, actions, t, j + 1, k);
  }

  // ------------------------------------------------------------ an idle loop can quit

  ghost predicate Steps(full: Full, path: seq<State>, actions: seq<Action>)
  {
    |path| == |actions| + 1 && forall i | 0 <= i < |actions| :: Step(full, path[i], actions[i], path[i + 1])
  }

  /** The state with one goroutine elsewhere, inside an execution or not. */
  function At(s: State, t: Tid, pc: PC, inside: bool): State
  {
    s.(threads := s.threads[t := pc], waitGroup := if inside then s.waitGroup + 1 else s.waitGroup)
  }

  lemma FlushBegins(full: Full, s: State, t: Tid)
    requires t in s.threads && s.threads[t] == LoopSelect(false) && s.container == [] && !s.barrier
    ensures Step(full, s, Tick(t), At(s, t, FlushEnter(InLoop), false))
    ensures Step(full, At(s, t, FlushEnter(InLoop), false), Enter(t), At(s, t, FlushRemove(InLoop), true))
    ensures Step(full, At(s, t, FlushRemove(InLoop), true), Remove(t), At(s, t, FlushExec(InLoop, []), true))
  {
  }

  lemma FlushEnds(full: Full, s: State, t: Tid)
    ensures Step(full, At(s, t, FlushExec(InLoop, []), true), Execute(t, false),
                 At(s, t, FlushFinish(InLoop, false), true))
    ensures Step(full, At(s, t, FlushFinish(InLoop, false), true), Finish(t), At(s, t, LoopIdle, false))
  {
    assert s.executed + [] == s.executed;
  }

  /** A tick makes a loop that waits, with nothing in the container, flush in vain. */
  lemma FlushInVain(full: Full, s: State, t: Tid) returns (path: seq<State>)
    requires t in s.threads && s.threads[t] == LoopSelect(false) && s.container == [] && !s.barrier
    ensures Steps(full, path, [Tick(t), Enter(t), Remove(t), Execute(t, false), Finish(t)]) && path[0] == s
    ensures path[5] == At(s, t, LoopIdle, false)
  {
    hide Step, At;
    FlushBegins(full, s, t);
    FlushEnds(full, s, t);
    path := [s, At(s, t, FlushEnter(InLoop), false), At(s, t, FlushRemove(InLoop), true),
             At(s, t, FlushExec(InLoop, []), true),
             At(s, t, FlushFinish(InLoop, false), true), At(s, t, LoopIdle, false)];
  }

  /** A loop that waits, with nothing in the container and nothing in flight, can flush in vain at a tick and quit. */
  lemma IdleCanQuit(full: Full, s: State, t: Tid) returns (path: seq<State>, actions: seq<Action>)
    requires t in s.threads && s.threads[t] == LoopSelect(false) && s.container == [] && s.inflight == 0 && !s.barrier
    ensures Steps(full, path, actions) && path[0] == s && forall a | a in actions :: a.t == t
    ensures var s' := path[|actions|]; !s'.guarded && t in s'.threads && Gone(s'.threads[t])
  {
    var before := FlushInVain(full, s, t);
    var s' := before[5].(threads := before[5].threads[t := FlushEnter(AtQuit)], guarded := false);
    assert Step(full, before[5], ShallQuit(t), s');
    hide Step;
    path := before + [s'];
    actions := [Tick(t), Enter(t), Remove(t), Execute(t, false), Finish(t)] + [ShallQuit(t)];
  }
}
