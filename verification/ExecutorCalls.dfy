/** What the calls of Add and Flush are for: an Add puts its task into the container, and hands over a batch only when
    the container is full; a Flush leaves nothing of what it found. */
module ExecutorCalls {
  import opened ExecutorProtocol
  import opened ExecutorInvariants
  import opened ExecutorProperties
  import opened ExecutorFlushing

  /** After a call of Flush returns, nothing that was in the container when it began is still there; all of it has
      been executed, wherever the run settles. */
  lemma CallFlushes(full: Full, run: seq<State>, actions: seq<Action>, t: Tid, i: nat, k: nat, x: Task)
    requires Run(full, run, actions) && i < k <= |actions| && actions[i] == StartFlush(t)
    requires x in run[i].container
    ensures t in run[k].threads && run[k].threads[t] == FlushDone ==> x !in run[k].container
    ensures !CanAdvance(full, run[k]) ==> x in run[k].executed
  {
    InvRun(full, run, actions, i);
    assert x in Tasks(run[i], InContainer);
    assert Step(full, run[i], actions[i], run[i + 1]);
    FlushRun(full, run, actions, t, x, i + 1, k);
    if !CanAdvance(full, run[k]) {
      FlushExecutes(full, run, actions, t, x, i + 1, k);
    }
  }

  lemma AddStep(full: Full, s: State, a: Action, s': State, t: Tid)
    requires Step(full, s, a, s') && t in s.threads && s.threads[t] == AddBegin
    ensures t in s'.threads && (s'.threads[t] == AddBegin || t in s'.added)
  {
    match a
    case StartAdd(t) =>
    case StartFlush(t) =>
    case StartWait(t) =>
    case AddAndCheck(t) =>
    case Spawn(t, u) =>
    case Send(t) =>
    case Confirm(t, u) =>
    case Receive(t) =>
    case Lower(t) =>
    case Enter(t) =>
    case Remove(t) =>
    case Execute(t, ok) =>
    case Finish(t) =>
    case Tick(t) =>
    case StayAwake(t) =>
    case ShallQuit(t) =>
    case Guard(t) =>
    case WakeUp(t) =>
    case Unguard(t) =>
  }

  /** A call of Add gives its task to the container before it goes on. */
  lemma {:induction false} AddRun(full: Full, run: seq<State>, actions: seq<Action>, t: Tid, i: nat, k: nat)
    requires Run(full, run, actions) && i < k <= |actions| && actions[i] == StartAdd(t)
    ensures t in run[k].added || (t in run[k].threads && run[k].threads[t] == AddBegin)
  {
    assert Step(full, run[k - 1], actions[k - 1], run[k]);
    hide Step, Init;
    if i < k - 1 {
      AddRun(full, run, actions, t, i, k - 1);
      if t in run[k - 1].added {
        AddedStays(full, run[k - 1], actions[k - 1], run[k], t);
      } else {
        AddStep(full, run[k - 1], actions[k - 1], run[k], t);
      }
    } else {
      AddStarts(full, run[i], t, run[i + 1]);
    }
  }

  lemma AddStarts(full: Full, s: State, t: Tid, s': State)
    requires Step(full, s, StartAdd(t), s')
    ensures t in s'.threads && s'.threads[t] == AddBegin
  {
  }

  /** Where a run settles, the task of every call of Add is in the container or has been executed. */
  lemma AddsSettle(full: Full, run: seq<State>, actions: seq<Action>, t: Tid, i: nat, k: nat)
    requires Run(full, run, actions) && i < k <= |actions| && actions[i] == StartAdd(t)
    requires !CanAdvance(full, run[k])
    ensures t in run[k].container || t in run[k].executed
  {
    AddRun(full, run, actions, t, i, k);
    InvRun(full, run, actions, k);
    if t !in run[k].added {
      AddAdvances(full, run[k], t);
    }
    Settled(full, run[k], t);
  }

  // ------------------------------------------------------------ an Add flushes only a full container

  /** Holds a batch that an Add took out of the container. */
  predicate WithCommand(pc: PC)
  {
    || (pc.AddSpawn? && pc.full) || pc.AddSend?
    || pc.LoopReceived? || pc.LoopEnter? || pc.LoopConfirm? || pc.LoopExec?
  }

  predicate FullBatch(full: Full, batch: seq<Task>)
  {
    batch != [] && full(batch)
  }

  ghost predicate CommandsFull(full: Full, s: State)
  {
    && (forall t | t in s.threads && WithCommand(s.threads[t]) :: FullBatch(full, Batch(s.threads[t])))
    && (s.commander.Holding? ==> FullBatch(full, s.commander.batch))
  }

  lemma CommandAdded(full: Full, s: State, t: Tid, s': State)
    requires Step(full, s, AddAndCheck(t), s') && WithCommand(s'.threads[t])
    ensures FullBatch(full, Batch(s'.threads[t]))
  {
  }

  lemma CommandFrom(full: Full, s: State, a: Action, s': State, t: Tid)
    requires Step(full, s, a, s') && t in s'.threads && WithCommand(s'.threads[t])
    ensures var batch := Batch(s'.threads[t]);
            || a == AddAndCheck(t)
            || (s.commander.Holding? && batch == s.commander.batch)
            || (t in s.threads && WithCommand(s.threads[t]) && batch == Batch(s.threads[t]))
  {
    hide Step, FullBatch, WithCommand, Batch;
    if t in s.threads && a.t != t && !(a.Confirm? && a.u == t) {
      Elsewhere(full, s, a, s', t);
    } else {
      CommandMoved(full, s, a, s', t);
    }
  }

  lemma CommandMoved(full: Full, s: State, a: Action, s': State, t: Tid)
    requires Step(full, s, a, s') && t in s'.threads && WithCommand(s'.threads[t])
    requires t in s.threads ==> a.t == t || (a.Confirm? && a.u == t)
    ensures var batch := Batch(s'.threads[t]);
            || a == AddAndCheck(t)
            || (s.commander.Holding? && batch == s.commander.batch)
            || (t in s.threads && WithCommand(s.threads[t]) && batch == Batch(s.threads[t]))
  {
    match a
    case StartAdd(t) =>
    case StartFlush(t) =>
    case StartWait(t) =>
    case AddAndCheck(t) =>
    case Spawn(t, u) =>
    case Send(t) =>
    case Confirm(t, u) =>
    case Receive(t) =>
    case Lower(t) =>
    case Enter(t) =>
    case Remove(t) =>
    case Execute(t, ok) =>
    case Finish(t) =>
    case Tick(t) =>
    case StayAwake(t) =>
    case ShallQuit(t) =>
    case Guard(t) =>
    case WakeUp(t) =>
    case Unguard(t) =>
  }

  lemma CommandSent(full: Full, s: State, a: Action, s': State)
    requires Step(full, s, a, s') && s'.commander.Holding? && s'.commander != s.commander
    ensures a.Send? && a.t in s.threads && WithCommand(s.threads[a.t])
    ensures s'.commander.batch == Batch(s.threads[a.t])
  {
  }

  /** Only a batch with which the container was full goes over the commander; what is less waits for a flush. */
  lemma {:induction false} CommandsFullRun(full: Full, run: seq<State>, actions: seq<Action>, i: nat)
    requires Run(full, run, actions) && i < |run|
    ensures CommandsFull(full, run[i])
  {
    hide Step, WithCommand, Batch, FullBatch;
    if i > 0 {
      var s, a, s' := run[i - 1], actions[i - 1], run[i];
      CommandsFullRun(full, run, actions, i - 1);
      forall t | t in s'.threads && WithCommand(s'.threads[t]) ensures FullBatch(full, Batch(s'.threads[t])) {
        CommandFrom(full, s, a, s', t);
        if a == AddAndCheck(t) {
          CommandAdded(full, s, t, s');
        }
      }
      if s'.commander.Holding? && s'.commander != s.commander {
        CommandSent(full, s, a, s');
      }
    }
  }
}
