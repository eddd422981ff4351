/** What callers of a periodical executor may rely on, over all runs. */
module ExecutorProperties {
  import opened Counting
  import opened ExecutorProtocol
  import opened ExecutorInvariants
  import opened Sequences

  // ------------------------------------------------------------ no task is lost or run twice

  /** In every reachable state a task given to the container is in exactly one place, once. */
  lemma ExactlyOnePlace(full: Full, run: seq<State>, actions: seq<Action>, i: nat, x: Task)
    requires Run(full, run, actions) && i < |run| && x in run[i].added
    ensures exists p :: x in Tasks(run[i], p) && forall q | x in Tasks(run[i], q) :: q == p
    ensures forall p :: NoDuplicates(Tasks(run[i], p))
  {
    InvRun(full, run, actions, i);
    var p :| x in Tasks(run[i], p);
    assert forall q | x in Tasks(run[i], q) :: q == p;
  }

  /** `guarded` holds just when one goroutine, and only one, runs the flusher loop or is about to start it. */
  lemma GuardedIffOneLoop(full: Full, run: seq<State>, actions: seq<Action>, i: nat)
    requires Run(full, run, actions) && i < |run|
    ensures run[i].guarded <==> exists t :: t in run[i].threads && Looper(run[i].threads[t])
    ensures forall t, u | t in run[i].threads && u in run[i].threads
              && Looper(run[i].threads[t]) && Looper(run[i].threads[u]) :: t == u
    ensures run[i].inflight > 0 ==> run[i].guarded
    ensures run[i].container != [] ==>
              exists t :: t in run[i].threads && (Looper(run[i].threads[t]) || Leaving(run[i].threads[t]))
  {
    InvRun(full, run, actions, i);
    var s := run[i];
    if s.guarded {
      var t := CountSome(s.threads, Looper);
    } else {
      CountZero(s.threads, Looper);
    }
    forall t, u | t in s.threads && u in s.threads && Looper(s.threads[t]) && Looper(s.threads[u]) ensures t == u {
      CountAtMostOne(s.threads, Looper, t, u);
    }
  }

  // ------------------------------------------------------------ Wait

  predicate Adding(pc: PC)
  {
    pc.AddBegin? || pc.AddSpawn? || pc.AddSend? || pc.AddConfirm?
  }

  /** No Add is in progress. */
  ghost predicate NoAdds(s: State)
  {
    forall t | t in s.threads :: !Adding(s.threads[t])
  }

  /** How far the Wait of w has got in making sure that nothing is left to execute. */
  ghost predicate Quiet(s: State, w: Tid)
  {
    && w in s.threads
    && match s.threads[w] {
         case FlushEnter(who) => who == InWait
         case FlushRemove(who) => who == InWait
         case FlushExec(who, _) => who == InWait && s.container == []
         case FlushFinish(who, _) => who == InWait && s.container == []
         case WaitGuard => s.container == []
         case WaitSleep => s.container == []
         case WaitWake => AllExecuted(s)
         case WaitDone => AllExecuted(s)
         case _ => false
       }
  }

  ghost predicate AllExecuted(s: State)
  {
    forall x | x in s.added :: x in s.executed
  }

  lemma NoAddsStep(full: Full, s: State, a: Action, s': State)
    requires NoAdds(s) && Step(full, s, a, s') && !a.StartAdd?
    ensures NoAdds(s')
  {
    match a
    case StartAdd(t) =>
    case StartFlush(t) =>
    case StartWait(t) =>
    case AddAndCheck(t) =>
    case Spawn(t, u) =>
    case Send(t) =>
    case Confirm(t, u) =>
    case Receive(t) =>
    case Lower(t) =>
    case Enter(t) =>
    case Remove(t) =>
    case Execute(t, ok) =>
    case Finish(t) =>
    case Tick(t) =>
    case StayAwake(t) =>
    case ShallQuit(t) =>
    case Guard(t) =>
    case WakeUp(t) =>
    case Unguard(t) =>
  }

  /** With no Add in progress, an empty container and nobody between enterExecution and doneExecution,
      every task has been executed: a confirmed batch has entered execution, and so has a Flush before it removes. */
  lemma NothingLeft(full: Full, s: State)
    requires Inv(full, s) && NoAdds(s) && s.container == [] && s.waitGroup == 0
    ensures AllExecuted(s)
  {
    CountZero(s.threads, Entered);
    if Count(s.threads, Confirming) > 0 {
      var t := CountSome(s.threads, Confirming);
      assert false;
    }
    CountZero(s.threads, Unconfirmed);
    forall x | x in s.added ensures x in s.executed {
      var p :| x in Tasks(s, p);
      assert p == Executed;
    }
  }

  /** A step of another goroutine. */
  lemma QuietOther(full: Full, s: State, a: Action, s': State, w: Tid)
    requires NoAdds(s) && Quiet(s, w) && Step(full, s, a, s') && a.t != w
    ensures Quiet(s', w)
  {
    if AllExecuted(s) {
      ExecutedStays(full, s, a, s');
    }
    hide AllExecuted;
    assert s'.threads[w] == s.threads[w] && (s.container == [] ==> s'.container == []);
  }

  lemma QuietStep(full: Full, s: State, a: Action, s': State, w: Tid)
    requires Inv(full, s) && NoAdds(s) && Quiet(s, w) && Step(full, s, a, s')
    ensures Quiet(s', w)
  {
    hide Inv, Step, Quiet;
    if a.t == w {
      QuietOwn(full, s, a, s', w);
    } else {
      QuietOther(full, s, a, s', w);
    }
  }

  /** A step of the Wait itself. */
  lemma QuietOwn(full: Full, s: State, a: Action, s': State, w: Tid)
    requires Inv(full, s) && NoAdds(s) && Quiet(s, w) && Step(full, s, a, s') && a.t == w
    ensures Quiet(s', w)
  {
    hide Inv, AllExecuted;
    if a.WakeUp? {
      NothingLeft(full, s);
      WokenExecuted(full, s, a, s');
    } else if a.Unguard? {
      ExecutedStays(full, s, a, s');
    }
  }

  lemma WokenExecuted(full: Full, s: State, a: Action, s': State)
    requires AllExecuted(s) && Step(full, s, a, s') && a.WakeUp?
    ensures AllExecuted(s')
  {
  }

  lemma ExecutedStays(full: Full, s: State, a: Action, s': State)
    requires NoAdds(s) && AllExecuted(s) && Step(full, s, a, s')
    ensures AllExecuted(s')
  {
    match a
    case StartAdd(t) =>
    case StartFlush(t) =>
    case StartWait(t) =>
    case AddAndCheck(t) =>
    case Spawn(t, u) =>
    case Send(t) =>
    case Confirm(t, u) =>
    case Receive(t) =>
    case Lower(t) =>
    case Enter(t) =>
    case Remove(t) =>
    case Execute(t, ok) =>
    case Finish(t) =>
    case Tick(t) =>
    case StayAwake(t) =>
    case ShallQuit(t) =>
    case Guard(t) =>
    case WakeUp(t) =>
    case Unguard(t) =>
  }

  lemma {:induction false} QuietRun(full: Full, run: seq<State>, actions: seq<Action>, w: Tid, i: nat, j: nat)
    requires Run(full, run, actions) && i <= j < |run|
    requires w in run[i].threads && run[i].threads[w] == FlushEnter(InWait)
    requires NoAdds(run[i]) && forall k | i <= k < j :: !actions[k].StartAdd?
    ensures NoAdds(run[j]) && Quiet(run[j], w)
  {
    if i < j {
      QuietRun(full, run, actions, w, i, j - 1);
      InvRun(full, run, actions, j - 1);
      NoAddsStep(full, run[j - 1], actions[j - 1], run[j]);
      QuietStep(full, run[j - 1], actions[j - 1], run[j], w);
    }
  }

  lemma WaitStarts(full: Full, s: State, w: Tid, s': State)
    requires Step(full, s, StartWait(w), s') && NoAdds(s)
    ensures NoAdds(s') && w in s'.threads && s'.threads[w] == FlushEnter(InWait)
  {
  }

  /** A Wait that starts with no Add in progress, and during which none starts, returns with every task executed. */
  lemma WaitCompletes(full: Full, run: seq<State>, actions: seq<Action>, w: Tid, i: nat, j: nat)
    requires Run(full, run, actions) && i < j <= |actions| && actions[i] == StartWait(w)
    requires NoAdds(run[i]) && forall k | i <= k < j :: !actions[k].StartAdd?
    ensures w in run[j].threads
    ensures run[j].threads[w] == WaitDone ==> forall x | x in run[j].added :: x in run[j].executed
  {
    WaitStarts(full, run[i], w, run[i + 1]);
    QuietRun(full, run, actions, w, i + 1, j);
  }

  // ------------------------------------------------------------ no deadlock

  /** Steps that wait neither for a new call nor for the ticker. */
  predicate Advances(a: Action)
  {
    !a.StartAdd? && !a.StartFlush? && !a.StartWait? && !a.Tick?
  }

  ghost predicate CanAdvance(full: Full, s: State)
  {
    exists a, s' :: Advances(a) && Step(full, s, a, s')
  }

  /** A call of Add, Flush or Wait that has not returned. */
  predicate InCall(pc: PC)
  {
    || Adding(pc) || pc.WaitGuard? || pc.WaitSleep? || pc.WaitWake?
    || pc.FlushEnter? || pc.FlushRemove? || pc.FlushExec? || pc.FlushFinish?
  }

  ghost function Fresh(threads: map<Tid, PC>): (t: Tid)
    ensures t !in threads
  {
    NotAll(threads.Keys, 0);
    var t: Tid :| t !in threads;
    t
  }

  /** Some number is in no finite set. */
  lemma NotAll(used: set<Tid>, from: Tid)
    ensures exists t: Tid :: t >= from && t !in used
    decreases used
  {
    if from in used {
      NotAll(used - {from}, from + 1);
      var t: Tid :| t >= from + 1 && t !in used - {from};
      assert t !in used;
    } else {
      assert from >= from;
    }
  }

  lemma Advance(full: Full, s: State, a: Action, s': State)
    requires Advances(a) && Step(full, s, a, s')
    ensures CanAdvance(full, s)
  {
  }

  lemma EnteredAdvances(full: Full, s: State, t: Tid)
    requires Inv(full, s) && t in s.threads && Entered(s.threads[t])
    ensures CanAdvance(full, s)
  {
    var pc := s.threads[t];
    if pc.LoopConfirm? {
      CountMember(s.threads, Unconfirmed, t);
      var u := CountSome(s.threads, Confirming);
      Advance(full, s, Confirm(t, u), s.(threads := s.threads[t := LoopExec(pc.batch)][u := AddDone]));
    } else if pc.LoopExec? {
      Advance(full, s, Execute(t, true), s.(threads := s.threads[t := LoopFinish], executed := s.executed + pc.batch));
    } else if pc.FlushExec? {
      Advance(full, s, Execute(t, true),
              s.(threads := s.threads[t := FlushFinish(pc.who, true)], executed := s.executed + pc.batch));
    } else if pc.FlushRemove? {
      Advance(full, s, Remove(t), s.(threads := s.threads[t := FlushExec(pc.who, s.container)], container := []));
    } else if pc.LoopFinish? {
      Advance(full, s, Finish(t), s.(threads := s.threads[t := LoopSelect(true)], waitGroup := s.waitGroup - 1));
    } else {
      Advance(full, s, Finish(t),
              s.(threads := s.threads[t := AfterFlush(pc.who, pc.ok)], waitGroup := s.waitGroup - 1));
    }
  }

  /** A Wait that holds the barrier sleeps only while someone can finish. */
  lemma BarrierAdvances(full: Full, s: State)
    requires Inv(full, s) && s.barrier
    ensures CanAdvance(full, s)
  {
    var g := CountSome(s.threads, Guarding);
    if s.threads[g].WaitWake? {
      Advance(full, s, Unguard(g), s.(threads := s.threads[g := WaitDone], barrier := false));
    } else if s.waitGroup == 0 {
      Advance(full, s, WakeUp(g), s.(threads := s.threads[g := WaitWake]));
    } else {
      var e := CountSome(s.threads, Entered);
      EnteredAdvances(full, s, e);
    }
  }

  lemma EnterAdvances(full: Full, s: State, t: Tid)
    requires Inv(full, s) && t in s.threads && (s.threads[t].LoopEnter? || s.threads[t].FlushEnter?)
    ensures CanAdvance(full, s)
  {
    if s.barrier {
      BarrierAdvances(full, s);
    } else {
      var pc := if s.threads[t].LoopEnter? then LoopConfirm(s.threads[t].batch) else FlushRemove(s.threads[t].who);
      Advance(full, s, Enter(t), s.(threads := s.threads[t := pc], waitGroup := s.waitGroup + 1));
    }
  }

  lemma SpawnAdvances(full: Full, s: State, t: Tid)
    requires t in s.threads && s.threads[t].AddSpawn?
    ensures CanAdvance(full, s)
  {
    var u := Fresh(s.threads);
    var pc := AfterSpawn(s.threads[t].full, s.threads[t].batch);
    Advance(full, s, Spawn(t, u), s.(threads := s.threads[t := pc][u := LoopSelect(false)]));
  }

  lemma LoopAdvances(full: Full, s: State, t: Tid)
    requires Inv(full, s) && t in s.threads && Looper(s.threads[t]) && s.commander.Holding?
    ensures CanAdvance(full, s)
  {
    var pc := s.threads[t];
    if Entered(pc) {
      EnteredAdvances(full, s, t);
    } else if pc.LoopEnter? || pc.FlushEnter? {
      EnterAdvances(full, s, t);
    } else if pc.AddSpawn? {
      SpawnAdvances(full, s, t);
    } else if pc.LoopSelect? {
      Advance(full, s, Receive(t),
              s.(threads := s.threads[t := LoopReceived(s.commander.batch)], commander := Empty));
    } else if pc.LoopReceived? {
      Advance(full, s, Lower(t), s.(threads := s.threads[t := LoopEnter(pc.batch)], inflight := s.inflight - 1));
    } else {
      Advance(full, s, StayAwake(t), s.(threads := s.threads[t := LoopSelect(false)]));
    }
  }

  /** A batch in the channel is looked after by a loop that can take a step. */
  lemma HoldingAdvances(full: Full, s: State)
    requires Inv(full, s) && s.commander.Holding?
    ensures CanAdvance(full, s)
  {
    var t := CountSome(s.threads, Looper);
    LoopAdvances(full, s, t);
  }

  lemma AddAdvances(full: Full, s: State, t: Tid)
    requires Inv(full, s) && t in s.threads && Adding(s.threads[t])
    ensures CanAdvance(full, s)
  {
    var pc := s.threads[t];
    if s.commander.Holding? {
      HoldingAdvances(full, s);
    } else if pc.AddBegin? {
      var tasks := s.container + [t];
      var f := full(tasks);
      var batch := if f then tasks else [];
      Advance(full, s, AddAndCheck(t),
              s.(threads := s.threads[t := if s.guarded then AfterSpawn(f, batch) else AddSpawn(f, batch)],
                 container := if f then [] else tasks, inflight := s.inflight + (if f then 1 else 0),
                 guarded := true, added := s.added + {t}));
    } else if pc.AddSpawn? {
      SpawnAdvances(full, s, t);
    } else if pc.AddSend? {
      Advance(full, s, Send(t), s.(threads := s.threads[t := AddConfirm], commander := Holding(pc.batch)));
    } else {
      CountMember(s.threads, Confirming, t);
      var u := CountSome(s.threads, Unconfirmed);
      var at := s.threads[u];
      if at.LoopReceived? {
        Advance(full, s, Lower(u), s.(threads := s.threads[u := LoopEnter(at.batch)], inflight := s.inflight - 1));
      } else if at.LoopEnter? {
        EnterAdvances(full, s, u);
      } else {
        EnteredAdvances(full, s, u);
      }
    }
  }

  /** While a call of Add, Flush or Wait has not returned, some goroutine can take a step that
      neither a new call nor the ticker brings about: the callers and the flusher never block each other for good. */
  lemma NoDeadlock(full: Full, run: seq<State>, actions: seq<Action>, i: nat, t: Tid)
    requires Run(full, run, actions) && i < |run|
    requires t in run[i].threads && InCall(run[i].threads[t])
    ensures CanAdvance(full, run[i])
  {
    InvRun(full, run, actions, i);
    var s := run[i];
    var pc := s.threads[t];
    if Adding(pc) {
      AddAdvances(full, s, t);
    } else if pc.FlushEnter? {
      EnterAdvances(full, s, t);
    } else if Entered(pc) {
      EnteredAdvances(full, s, t);
    } else if pc.WaitGuard? && !s.barrier {
      Advance(full, s, Guard(t), s.(threads := s.threads[t := WaitSleep], barrier := true));
    } else {
      if Guarding(pc) {
        CountMember(s.threads, Guarding, t);
      }
      BarrierAdvances(full, s);
    }
  }
}
