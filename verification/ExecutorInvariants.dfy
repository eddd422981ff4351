/** What every step of the periodical executor keeps. */
module ExecutorInvariants {
  import opened Counting
  import opened ExecutorProtocol
  import opened Sequences

  // ------------------------------------------------------------ kinds of places

  /** Runs the flusher loop, or is about to start it. */
  predicate Looper(pc: PC)
  {
    || pc.AddSpawn? || pc.LoopSelect? || pc.LoopReceived? || pc.LoopEnter? || pc.LoopConfirm?
    || pc.LoopExec? || pc.LoopFinish? || pc.LoopIdle?
    || ((pc.FlushEnter? || pc.FlushRemove? || pc.FlushExec? || pc.FlushFinish?) && pc.who == InLoop)
  }

  /** Has a batch that the flusher loop has not received yet, or not yet counted as received. */
  predicate Pending(pc: PC)
  {
    (pc.AddSpawn? && pc.full) || pc.AddSend? || pc.LoopReceived?
  }

  /** Between enterExecution and doneExecution. */
  predicate Entered(pc: PC)
  {
    pc.LoopConfirm? || pc.LoopExec? || pc.LoopFinish? || pc.FlushRemove? || pc.FlushExec? || pc.FlushFinish?
  }

  predicate Unconfirmed(pc: PC)
  {
    pc.LoopReceived? || pc.LoopEnter? || pc.LoopConfirm?
  }

  predicate Confirming(pc: PC)
  {
    pc.AddConfirm?
  }

  predicate Guarding(pc: PC)
  {
    pc.WaitSleep? || pc.WaitWake?
  }

  /** The tasks a goroutine has taken and not yet handed on. */
  function Batch(pc: PC): seq<Task>
  {
    match pc
    case AddSpawn(_, batch) => batch
    case AddSend(batch) => batch
    case LoopReceived(batch) => batch
    case LoopEnter(batch) => batch
    case LoopConfirm(batch) => batch
    case LoopExec(batch) => batch
    case FlushExec(_, batch) => batch
    case _ => []
  }

  // ------------------------------------------------------------ counting goroutines

  /** The counters of the executor say how many goroutines stand where. */
  ghost predicate Counted(s: State)
  {
    && Count(s.threads, Looper) == One(s.guarded)
    && s.inflight == Count(s.threads, Pending) + One(s.commander.Holding?)
    && s.waitGroup == Count(s.threads, Entered)
    && Count(s.threads, Confirming) == Count(s.threads, Unconfirmed) + One(s.commander.Holding?)
    && Count(s.threads, Guarding) == One(s.barrier)
  }

  /** Moving one goroutine changes each count by what it leaves and what it enters. */
  lemma CountMove(threads: map<Tid, PC>, t: Tid, pc: PC)
    ensures var after := threads[t := pc]; var was := t in threads;
            && Count(after, Looper) + One(was && Looper(threads[t])) == Count(threads, Looper) + One(Looper(pc))
            && Count(after, Pending) + One(was && Pending(threads[t])) == Count(threads, Pending) + One(Pending(pc))
            && Count(after, Entered) + One(was && Entered(threads[t])) == Count(threads, Entered) + One(Entered(pc))
            && Count(after, Unconfirmed) + One(was && Unconfirmed(threads[t]))
               == Count(threads, Unconfirmed) + One(Unconfirmed(pc))
            && Count(after, Confirming) + One(was && Confirming(threads[t]))
               == Count(threads, Confirming) + One(Confirming(pc))
            && Count(after, Guarding) + One(was && Guarding(threads[t])) == Count(threads, Guarding) + One(Guarding(pc))
  {
    CountUpdate(threads, t, pc, Looper);
    CountUpdate(threads, t, pc, Pending);
    CountUpdate(threads, t, pc, Entered);
    CountUpdate(threads, t, pc, Unconfirmed);
    CountUpdate(threads, t, pc, Confirming);
    CountUpdate(threads, t, pc, Guarding);
  }

  lemma CountedAdd(full: Full, s: State, a: Action, s': State)
    requires Counted(s) && Step(full, s, a, s') && (a.StartAdd? || a.AddAndCheck? || a.Send?)
    ensures Counted(s')
  {
    hide Count;
    CountMove(s.threads, a.t, s'.threads[a.t]);
  }

  lemma CountedSpawn(full: Full, s: State, a: Action, s': State)
    requires Counted(s) && Step(full, s, a, s') && (a.Spawn?)
    ensures Counted(s')
  {
    hide Count;
    CountMove(s.threads, a.t, s'.threads[a.t]);
    CountMove(s.threads[a.t := s'.threads[a.t]], a.u, s'.threads[a.u]);
  }

  lemma CountedConfirm(full: Full, s: State, a: Action, s': State)
    requires Counted(s) && Step(full, s, a, s') && (a.Confirm?)
    ensures Counted(s')
  {
    hide Count;
    CountMove(s.threads, a.t, s'.threads[a.t]);
    CountMove(s.threads[a.t := s'.threads[a.t]], a.u, s'.threads[a.u]);
  }

  lemma CountedReceive(full: Full, s: State, a: Action, s': State)
    requires Counted(s) && Step(full, s, a, s') && (a.Receive? || a.Lower?)
    ensures Counted(s')
  {
    hide Count;
    CountMove(s.threads, a.t, s'.threads[a.t]);
  }

  lemma CountedTick(full: Full, s: State, a: Action, s': State)
    requires Counted(s) && Step(full, s, a, s') && (a.Tick? || a.StayAwake? || a.ShallQuit?)
    ensures Counted(s')
  {
    hide Count;
    CountMove(s.threads, a.t, s'.threads[a.t]);
  }

  lemma CountedEnter(full: Full, s: State, a: Action, s': State)
    requires Counted(s) && Step(full, s, a, s') && (a.StartFlush? || a.StartWait? || a.Enter?)
    ensures Counted(s')
  {
    hide Count;
    CountMove(s.threads, a.t, s'.threads[a.t]);
  }

  lemma CountedExec(full: Full, s: State, a: Action, s': State)
    requires Counted(s) && Step(full, s, a, s') && (a.Remove? || a.Execute? || a.Finish?)
    ensures Counted(s')
  {
    hide Count;
    CountMove(s.threads, a.t, s'.threads[a.t]);
  }

  lemma CountedGuard(full: Full, s: State, a: Action, s': State)
    requires Counted(s) && Step(full, s, a, s') && (a.Guard? || a.WakeUp? || a.Unguard?)
    ensures Counted(s')
  {
    hide Count;
    CountMove(s.threads, a.t, s'.threads[a.t]);
  }

  lemma CountedStep(full: Full, s: State, a: Action, s': State)
    requires Counted(s) && Step(full, s, a, s')
    ensures Counted(s')
  {
    hide Counted, Step;
    if a.StartAdd? || a.AddAndCheck? || a.Send? {
      CountedAdd(full, s, a, s');
    } else if a.Spawn? {
      CountedSpawn(full, s, a, s');
    } else if a.Confirm? {
      CountedConfirm(full, s, a, s');
    } else if a.Receive? || a.Lower? {
      CountedReceive(full, s, a, s');
    } else if a.Tick? || a.StayAwake? || a.ShallQuit? {
      CountedTick(full, s, a, s');
    } else if a.StartFlush? || a.StartWait? || a.Enter? {
      CountedEnter(full, s, a, s');
    } else if a.Remove? || a.Execute? || a.Finish? {
      CountedExec(full, s, a, s');
    } else {
      CountedGuard(full, s, a, s');
    }
  }

  // ------------------------------------------------------------ where the tasks are

  datatype Place = InContainer | InCommander | With(t: Tid) | Executed

  function Tasks(s: State, p: Place): seq<Task>
  {
    match p
    case InContainer => s.container
    case InCommander => if s.commander.Holding? then s.commander.batch else []
    case With(t) => if t in s.threads then Batch(s.threads[t]) else []
    case Executed => s.executed
  }

  /** Every task ever added is in exactly one place, once; so none is lost and none runs twice. */
  ghost predicate Owned(s: State)
  {
    && (forall p :: NoDuplicates(Tasks(s, p)))
    && (forall p, q, x | x in Tasks(s, p) && x in Tasks(s, q) :: p == q)
    && (forall p, x | x in Tasks(s, p) :: x in s.added)
    && (forall x | x in s.added :: exists p :: x in Tasks(s, p))
  }

  /** What the places of the goroutines say about the histories. */
  ghost predicate Shaped(s: State)
  {
    && (forall t | t in s.threads && s.threads[t].AddSpawn? && !s.threads[t].full :: s.threads[t].batch == [])
    && (forall t | t in s.added :: t in s.threads && !s.threads[t].AddBegin?)
  }

  /** While a Wait that saw the counter at zero still holds the barrier, it stays there. */
  ghost predicate Undisturbed(s: State)
  {
    forall t | t in s.threads && s.threads[t].WaitWake? :: s.waitGroup == 0
  }

  ghost predicate SameTasks(s: State, s': State)
  {
    s'.added == s.added && forall p :: Tasks(s', p) == Tasks(s, p)
  }

  /** All the tasks at p have gone to q. */
  ghost predicate MovedTasks(s: State, s': State, p: Place, q: Place)
  {
    && s'.added == s.added && p != q
    && Tasks(s', p) == [] && Tasks(s', q) == Tasks(s, q) + Tasks(s, p)
    && forall r | r != p && r != q :: Tasks(s', r) == Tasks(s, r)
  }

  lemma OwnedMoved(s: State, s': State, p: Place, q: Place)
    requires Owned(s) && MovedTasks(s, s', p, q)
    ensures Owned(s')
  {
    hide Tasks;
    forall x | x in s'.added ensures exists r :: x in Tasks(s', r) {
      var r :| x in Tasks(s, r);
      assert x in Tasks(s', if r == p then q else r);
    }
    ConcatNoDuplicates(Tasks(s, q), Tasks(s, p));
    assert NoDuplicates(Tasks(s', q));
  }

  /** The container takes a task that it was never given before. */
  lemma OwnedAdded(s: State, s': State, x: Task)
    requires Owned(s) && x !in s.added && s' == s.(container := s.container + [x], added := s.added + {x})
    ensures Owned(s')
  {
    forall p ensures Tasks(s', p) == if p == InContainer then Tasks(s, p) + [x] else Tasks(s, p) {
    }
    assert x !in Tasks(s, InContainer);
    ConcatNoDuplicates(s.container, [x]);
    assert NoDuplicates(Tasks(s', InContainer));
    forall y | y in s'.added ensures exists p :: y in Tasks(s', p) {
      if y == x {
        assert y in Tasks(s', InContainer);
      } else {
        var p :| y in Tasks(s, p);
        assert y in Tasks(s', p);
      }
    }
  }

  lemma OwnedSame(s: State, s': State)
    requires Owned(s) && SameTasks(s, s')
    ensures Owned(s')
  {
    hide Tasks;
    forall x | x in s'.added ensures exists p :: x in Tasks(s', p) {
      var p :| x in Tasks(s, p);
      assert x in Tasks(s', p);
    }
  }

  lemma OwnedAddAndCheck(full: Full, s: State, a: Action, s': State)
    requires Owned(s) && Shaped(s) && a.AddAndCheck? && Step(full, s, a, s')
    ensures Owned(s')
  {
    var t := a.t;
    assert t !in s.added;
    hide Owned, Shaped;
    var s1 := s.(container := s.container + [t], added := s.added + {t});
    OwnedAdded(s, s1, t);
    if full(s.container + [t]) {
      assert MovedTasks(s1, s', InContainer, With(t));
      OwnedMoved(s1, s', InContainer, With(t));
    } else {
      assert SameTasks(s1, s');
      OwnedSame(s1, s');
    }
  }

  lemma OwnedHandedOn(full: Full, s: State, a: Action, s': State)
    requires Owned(s) && Step(full, s, a, s')
    requires a.Send? || a.Receive? || a.Remove? || a.Execute?
    ensures Owned(s')
  {
    hide Owned;
    var p := if a.Receive? then InCommander else if a.Remove? then InContainer else With(a.t);
    var q := if a.Send? then InCommander else if a.Execute? then Executed else With(a.t);
    assert MovedTasks(s, s', p, q);
    OwnedMoved(s, s', p, q);
  }

  /** Each step leaves the tasks where they are or moves them from one place to the next. */
  lemma OwnedStep(full: Full, s: State, a: Action, s': State)
    requires Owned(s) && Shaped(s) && Step(full, s, a, s')
    ensures Owned(s')
  {
    hide Owned;
    assert a.Spawn? ==> Batch(s'.threads[a.t]) == Batch(s.threads[a.t]);
    if a.AddAndCheck? {
      OwnedAddAndCheck(full, s, a, s');
    } else if a.Send? || a.Receive? || a.Remove? || a.Execute? {
      OwnedHandedOn(full, s, a, s');
    } else {
      assert SameTasks(s, s');
      OwnedSame(s, s');
    }
  }

  lemma ShapedStep(full: Full, s: State, a: Action, s': State)
    requires Shaped(s) && Step(full, s, a, s')
    ensures Shaped(s')
  {
    match a
    case StartAdd(t) =>
    case StartFlush(t) =>
    case StartWait(t) =>
    case AddAndCheck(t) =>
    case Spawn(t, u) =>
    case Send(t) =>
    case Confirm(t, u) =>
    case Receive(t) =>
    case Lower(t) =>
    case Enter(t) =>
    case Remove(t) =>
    case Execute(t, ok) =>
    case Finish(t) =>
    case Tick(t) =>
    case StayAwake(t) =>
    case ShallQuit(t) =>
    case Guard(t) =>
    case WakeUp(t) =>
    case Unguard(t) =>
  }

  lemma UndisturbedStep(full: Full, s: State, a: Action, s': State)
    requires Undisturbed(s) && Counted(s) && Step(full, s, a, s')
    ensures Undisturbed(s')
  {
    if a.Finish? {
      CountMember(s.threads, Entered, a.t);
    }
    forall t | t in s.threads && s.threads[t].WaitWake? ensures s.barrier {
      CountMember(s.threads, Guarding, t);
    }
    hide Counted, Count;
    match a
    case StartAdd(t) =>
    case StartFlush(t) =>
    case StartWait(t) =>
    case AddAndCheck(t) =>
    case Spawn(t, u) =>
    case Send(t) =>
    case Confirm(t, u) =>
    case Receive(t) =>
    case Lower(t) =>
    case Enter(t) =>
    case Remove(t) =>
    case Execute(t, ok) =>
    case Finish(t) =>
    case Tick(t) =>
    case StayAwake(t) =>
    case ShallQuit(t) =>
    case Guard(t) =>
    case WakeUp(t) =>
    case Unguard(t) =>
  }

  // ------------------------------------------------------------ who looks after the container

  /** A flusher that has left its loop and whose final Flush will still empty the container. */
  predicate Leaving(pc: PC)
  {
    (pc.FlushEnter? || pc.FlushRemove?) && pc.who == AtQuit
  }

  /** Tasks in the container have a flusher loop or a pending final Flush, and batches on their way a loop. */
  ghost predicate Attended(s: State)
  {
    && (s.container != [] ==> s.guarded || exists t :: t in s.threads && Leaving(s.threads[t]))
    && (s.inflight > 0 ==> s.guarded)
  }

  /** A container that asks to be flushed is emptied in the same critical section. */
  ghost predicate NeverFull(full: Full, s: State)
  {
    s.container == [] || !full(s.container)
  }

  lemma AttendedStep(full: Full, s: State, a: Action, s': State)
    requires Attended(s) && Step(full, s, a, s')
    ensures Attended(s')
  {
    if s'.container != [] && !s'.guarded {
      if a.ShallQuit? && s.inflight == 0 {
        assert Leaving(s'.threads[a.t]);
      } else {
        var t :| t in s.threads && Leaving(s.threads[t]);
        assert t in s'.threads && Leaving(s'.threads[t]);
      }
    }
  }

  lemma NeverFullStep(full: Full, s: State, a: Action, s': State)
    requires NeverFull(full, s) && Step(full, s, a, s')
    ensures NeverFull(full, s')
  {
  }

  ghost predicate Inv(full: Full, s: State)
  {
    Counted(s) && Shaped(s) && Undisturbed(s) && Owned(s) && Attended(s) && NeverFull(full, s)
  }

  lemma InvInit(full: Full, s: State)
    requires Init(s)
    ensures Inv(full, s)
  {
  }

  lemma InvStep(full: Full, s: State, a: Action, s': State)
    requires Inv(full, s) && Step(full, s, a, s')
    ensures Inv(full, s')
  {
    CountedStep(full, s, a, s');
    ShapedStep(full, s, a, s');
    UndisturbedStep(full, s, a, s');
    OwnedStep(full, s, a, s');
    AttendedStep(full, s, a, s');
    NeverFullStep(full, s, a, s');
    hide Counted, Shaped, Undisturbed, Owned, Attended, NeverFull, Step;
  }

  /** The invariant holds in every state of every run. */
  lemma {:induction false} InvRun(full: Full, run: seq<State>, actions: seq<Action>, i: nat)
    requires Run(full, run, actions) && i < |run|
    ensures Inv(full, run[i])
  {
    hide Inv, Step;
    if i == 0 {
      InvInit(full, run[0]);
    } else {
      InvRun(full, run, actions, i - 1);
      InvStep(full, run[i - 1], actions[i - 1], run[i]);
    }
  }
}
