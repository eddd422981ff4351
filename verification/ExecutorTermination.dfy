/** A periodical executor takes a bounded number of steps for each call and each tick; so every call returns. */
module ExecutorTermination {
  import opened Counting
  import opened ExecutorProtocol
  import opened ExecutorInvariants
  import opened ExecutorProperties

  const TOP := 10

  /** The most steps from the removal of a flush to where it returns to, and on from there. */
  function AfterRank(who: Flusher): nat
  {
    match who
    case InLoop => 5
    case AtQuit => 0
    case ByCaller => 0
    case InWait => 3
  }

  /** The most steps that a goroutine can still take without another call, tick or batch. */
  function Rank(pc: PC): (r: nat)
    ensures r <= TOP
  {
    match pc
    case AddBegin => 10
    case AddSpawn(_, _) => 9
    case AddSend(_) => 8
    case AddConfirm => 1
    case AddDone => 0
    case LoopSelect(_) => 0
    case LoopReceived(_) => 5
    case LoopEnter(_) => 4
    case LoopConfirm(_) => 3
    case LoopExec(_) => 2
    case LoopFinish => 1
    case LoopIdle => 5
    case FlushEnter(who) => AfterRank(who) + 4
    case FlushRemove(who) => AfterRank(who) + 3
    case FlushExec(who, _) => AfterRank(who) + 2
    case FlushFinish(who, _) => AfterRank(who) + 1
    case FlushDone => 0
    case WaitGuard => 3
    case WaitSleep => 2
    case WaitWake => 1
    case WaitDone => 0
  }

  /** The most steps that all goroutines together can still take without another call or tick. */
  ghost function Measure(s: State): nat
  {
    Weight(s.threads, Rank, TOP) + BufferRank(s.commander)
  }

  /** The steps that a call or a tick brings, itself included. */
  function Cost(a: Action): nat
  {
    match a
    case StartAdd(_) => 11
    case StartFlush(_) => 5
    case StartWait(_) => 8
    case Tick(_) => 10
    case _ => 0
  }

  function Costs(actions: seq<Action>): nat
  {
    if actions == [] then 0 else Costs(actions[..|actions| - 1]) + Cost(actions[|actions| - 1])
  }

  /** What one step does to a goroutine's rank. */
  lemma RankMove(threads: map<Tid, PC>, t: Tid, pc: PC)
    ensures Weight(threads[t := pc], Rank, TOP) + (if t in threads then Rank(threads[t]) else 0)
            == Weight(threads, Rank, TOP) + Rank(pc)
  {
    WeightUpdate(threads, t, pc, Rank, TOP);
  }

  /** A step of one goroutine changes its own place only. */
  lemma MovesOne(full: Full, s: State, a: Action, s': State)
    requires Step(full, s, a, s') && !a.Spawn? && !a.Confirm?
    ensures a.t in s'.threads && s'.threads == s.threads[a.t := s'.threads[a.t]]
  {
    match a
    case StartAdd(t) =>
    case StartFlush(t) =>
    case StartWait(t) =>
    case AddAndCheck(t) =>
    case Spawn(t, u) =>
    case Send(t) =>
    case Confirm(t, u) =>
    case Receive(t) =>
    case Lower(t) =>
    case Enter(t) =>
    case Remove(t) =>
    case Execute(t, ok) =>
    case Finish(t) =>
    case Tick(t) =>
    case StayAwake(t) =>
    case ShallQuit(t) =>
    case Guard(t) =>
    case WakeUp(t) =>
    case Unguard(t) =>
  }

  /** What a batch in the channel will cost. */
  function BufferRank(commander: Buffer): nat
  {
    if commander.Holding? then 6 else 0
  }

  lemma RankFallsInFlush(full: Full, s: State, a: Action, s': State)
    requires Step(full, s, a, s') && !a.Spawn? && !a.Confirm? && a.t in s'.threads
    requires a.Enter? || a.Remove? || a.Execute? || a.Finish?
    ensures BufferRank(s'.commander) + Rank(s'.threads[a.t]) + 1
            <= BufferRank(s.commander) + (if a.t in s.threads then Rank(s.threads[a.t]) else 0) + Cost(a)
  {
    match a
    case Enter(t) =>
    case Remove(t) =>
    case Execute(t, ok) =>
    case Finish(t) =>
    case _ =>
  }

  lemma RankFallsElsewhere(full: Full, s: State, a: Action, s': State)
    requires Step(full, s, a, s') && !a.Spawn? && !a.Confirm? && a.t in s'.threads
    requires !(a.Enter? || a.Remove? || a.Execute? || a.Finish?)
    ensures BufferRank(s'.commander) + Rank(s'.threads[a.t]) + 1
            <= BufferRank(s.commander) + (if a.t in s.threads then Rank(s.threads[a.t]) else 0) + Cost(a)
  {
    match a
    case StartAdd(t) =>
    case StartFlush(t) =>
    case StartWait(t) =>
    case AddAndCheck(t) =>
    case Send(t) =>
    case Receive(t) =>
    case Lower(t) =>
    case Tick(t) =>
    case StayAwake(t) =>
    case ShallQuit(t) =>
    case Guard(t) =>
    case WakeUp(t) =>
    case Unguard(t) =>
    case _ =>
  }

  lemma MeasureStep(full: Full, s: State, a: Action, s': State)
    requires Step(full, s, a, s')
    ensures Measure(s') + 1 <= Measure(s) + Cost(a)
  {
    hide Weight;
    if a.Spawn? || a.Confirm? {
      var threads := s.threads[a.t := s'.threads[a.t]];
      RankMove(s.threads, a.t, s'.threads[a.t]);
      RankMove(threads, a.u, s'.threads[a.u]);
      assert s'.threads == threads[a.u := s'.threads[a.u]];
    } else {
      hide Step, Rank, Cost, BufferRank;
      MovesOne(full, s, a, s');
      if a.Enter? || a.Remove? || a.Execute? || a.Finish? {
        RankFallsInFlush(full, s, a, s');
      } else {
        RankFallsElsewhere(full, s, a, s');
      }
      RankMove(s.threads, a.t, s'.threads[a.t]);
    }
  }

  lemma {:induction false} MeasureRun(full: Full, run: seq<State>, actions: seq<Action>, i: nat, j: nat)
    requires Run(full, run, actions) && i <= j <= |actions|
    ensures Measure(run[j]) + (j - i) <= Measure(run[i]) + Costs(actions[i..j])
  {
    hide Step, Measure, Cost, Init;
    if i < j {
      MeasureRun(full, run, actions, i, j - 1);
      MeasureStep(full, run[j - 1], actions[j - 1], run[j]);
      assert actions[i..j][..j - 1 - i] == actions[i..j - 1];
    }
  }

  /** However its goroutines are scheduled, a run takes no more steps than its calls and ticks bring. */
  lemma StepsBounded(full: Full, run: seq<State>, actions: seq<Action>)
    requires Run(full, run, actions)
    ensures |actions| <= Costs(actions)
  {
    MeasureRun(full, run, actions, 0, |actions|);
    assert actions[0..|actions|] == actions;
    WeightEmpty(run[0].threads, Rank, TOP);
  }

  lemma {:induction false} NoCosts(actions: seq<Action>)
    requires forall a | a in actions :: Advances(a)
    ensures Costs(actions) == 0
  {
    if actions != [] {
      assert actions[|actions| - 1] in actions;
      NoCosts(actions[..|actions| - 1]);
    }
  }

  /** From any reachable state, going on without new calls and ticks ends after at most Measure steps, however the
      goroutines are scheduled; and where it ends, every call of Add, Flush and Wait has returned. */
  lemma CallsReturn(full: Full, run: seq<State>, actions: seq<Action>, i: nat)
    requires Run(full, run, actions) && i <= |actions|
    requires forall a | a in actions[i..] :: Advances(a)
    ensures |actions| - i <= Measure(run[i])
    ensures CanAdvance(full, run[|actions|])
            || forall t | t in run[|actions|].threads :: !InCall(run[|actions|].threads[t])
  {
    MeasureRun(full, run, actions, i, |actions|);
    assert actions[i..|actions|] == actions[i..];
    NoCosts(actions[i..]);
    forall t | t in run[|actions|].threads && InCall(run[|actions|].threads[t])
      ensures CanAdvance(full, run[|actions|])
    {
      NoDeadlock(full, run, actions, |actions|, t);
    }
  }
}
