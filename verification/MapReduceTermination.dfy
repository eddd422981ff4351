/** A MapReduce takes a bounded number of steps for each item and each value written; so it returns. */
module MapReduceTermination {
  import opened Counting
  import opened MapReduceProtocol
  import opened MapReduceProperties

  const TOP := 5

  /** The most steps that a mapper can still take if it writes no more. */
  function MapperRank(pc: MapperPC): (r: nat)
    ensures r <= TOP
  {
    match pc
    case MRunning => 3
    case MSend(_) => 5        // one more for the value in the collector
    case MReturned => 2
    case MRelease => 1
    case MEnded => 0
  }

  function DispatcherRank(pc: DispatcherPC): nat
  {
    match pc
    case DSelect => 6
    case DReceive => 5
    case DSpawn(_) => 10      // and the steps of the mapper
    case DGiveUp => 4
    case DWait => 3
    case DClose => 2
    case DDrain => 1
    case DDone => 0
  }

  function ReducerRank(pc: ReducerPC): nat
  {
    match pc
    case RSend(_) => 5
    case RRunning => 4
    case RDrain => 3
    case RCloseDone => 2
    case RCloseOutput => 1
    case REnded => 0
  }

  function CallerRank(pc: CallerPC): nat
  {
    match pc
    case CSelect => 2
    case CRange(_) => 1
    case CReturned(_) => 0
    case CPanicked => 0
  }

  /** The most steps still to come if no item and no value is added. */
  ghost function Measure(s: State): nat
  {
    Weight(s.mappers, MapperRank, TOP) + Others(s)
  }

  ghost function Others(s: State): nat
  {
    |s.collector| + DispatcherRank(s.dispatcher) + ReducerRank(s.reducer) + CallerRank(s.caller) + One(!s.sourceClosed)
  }

  /** The steps that an item of the generator or a value written brings, itself included. */
  function Cost(a: Action): nat
  {
    match a
    case Dispatch(Handover) => 6
    case Dispatch(DrainItem) => 1
    case Map(_, Write(_)) => 3
    case Reduce(ReducerWrite(_)) => 2
    case _ => 0
  }

  function Costs(actions: seq<Action>): nat
  {
    if actions == [] then 0 else Costs(actions[..|actions| - 1]) + Cost(actions[|actions| - 1])
  }

  lemma RankMove(mappers: map<nat, MapperPC>, k: nat, pc: MapperPC)
    ensures Weight(mappers[k := pc], MapperRank, TOP) + (if k in mappers then MapperRank(mappers[k]) else 0)
            == Weight(mappers, MapperRank, TOP) + MapperRank(pc)
  {
    WeightUpdate(mappers, k, pc, MapperRank, TOP);
  }

  lemma DispatchOthers(workers: nat, s: State, d: DispatcherAction, s': State)
    requires DispatcherStep(workers, s, d, s')
    ensures Others(s') + 1 + (if d.Spawn? then MapperRank(MRunning) else 0) <= Others(s) + Cost(Dispatch(d))
  {
    match d
    case Handover =>
    case CloseSource =>
    case Acquire =>
    case SeeDone =>
    case SeeClosed =>
    case Spawn =>
    case GiveUp =>
    case WaitOver =>
    case CloseCollector =>
    case DrainItem =>
    case DrainOver =>
  }

  lemma MapOthers(workers: nat, s: State, k: nat, m: MapperAction, s': State)
    requires MapperStep(workers, s, k, m, s') && k in s.mappers && k in s'.mappers
    requires m.Send? ==> !s.collectorClosed
    ensures Others(s') + MapperRank(s'.mappers[k]) + 1 <= Others(s) + MapperRank(s.mappers[k]) + Cost(Map(k, m))
  {
    match m
    case Write(v) =>
    case Send =>
    case Return =>
    case Done =>
    case Release =>
  }

  lemma ReduceOthers(s: State, r: ReducerAction, s': State)
    requires ReducerStep(s, r, s') && Closing(s)
    ensures s'.mappers == s.mappers && Others(s') + 1 <= Others(s) + Cost(Reduce(r))
  {
    match r
    case Read =>
    case ReducerWrite(v) =>
    case ReducerReturn =>
    case DrainValue =>
    case DrainEnd =>
    case CloseDone =>
    case CloseOutput =>
    case Deliver =>
    case OutputOver =>
  }

  lemma MeasureStep(workers: nat, s: State, a: Action, s': State)
    requires Inv(workers, s) && Step(workers, s, a, s')
    ensures Measure(s') + 1 <= Measure(s) + Cost(a)
  {
    hide Weight, Others, DispatcherStep, MapperStep, ReducerStep, Cost, MapperRank;
    match a
    case Dispatch(d) =>
      DispatchOthers(workers, s, d, s');
      DispatchMoves(workers, s, d, s');
      if d.Spawn? {
        RankMove(s.mappers, s.dispatcher.item, MRunning);
      }
    case Map(k, m) =>
      MapMoves(workers, s, k, m, s');
      if m.Send? {
        SendWorks(workers, s, k, m, s');
        OpenForMapper(workers, s, k);
      }
      MapOthers(workers, s, k, m, s');
      RankMove(s.mappers, k, s'.mappers[k]);
    case Reduce(r) =>
      ReduceOthers(s, r, s');
  }

  lemma SendWorks(workers: nat, s: State, k: nat, m: MapperAction, s': State)
    requires MapperStep(workers, s, k, m, s') && m.Send?
    ensures k in s.mappers && Working(s.mappers[k])
  {
  }

  lemma {:induction false} MeasureRun(workers: nat, run: seq<State>, actions: seq<Action>, i: nat, j: nat)
    requires Run(workers, run, actions) && i <= j <= |actions|
    ensures Measure(run[j]) + (j - i) <= Measure(run[i]) + Costs(actions[i..j])
  {
    hide Step, Measure, Cost, Init, Inv;
    if i < j {
      MeasureRun(workers, run, actions, i, j - 1);
      InvRun(workers, run, actions, j - 1);
      MeasureStep(workers, run[j - 1], actions[j - 1], run[j]);
      assert actions[i..j][..j - 1 - i] == actions[i..j - 1];
    }
  }

  /** However its goroutines are scheduled, a run takes no more steps than its items and values bring, and 13. */
  lemma StepsBounded(workers: nat, run: seq<State>, actions: seq<Action>)
    requires Run(workers, run, actions)
    ensures |actions| <= 13 + Costs(actions)
  {
    MeasureRun(workers, run, actions, 0, |actions|);
    assert actions[0..|actions|] == actions;
    WeightEmpty(run[0].mappers, MapperRank, TOP);
  }

  lemma {:induction false} NoCosts(actions: seq<Action>)
    requires forall a | a in actions :: Cost(a) == 0
    ensures Costs(actions) == 0
  {
    if actions != [] {
      assert actions[|actions| - 1] in actions;
      NoCosts(actions[..|actions| - 1]);
    }
  }

  /** Some goroutine can take a step that neither an item nor a value written brings about, even if the reducer
      returns only when its pipe is closed and empty. */
  ghost predicate GoesOn(workers: nat, s: State)
  {
    exists a, s' :: Forced(s, a) && Cost(a) == 0 && Step(workers, s, a, s')
  }

  lemma ClosedGoesOn(workers: nat, s: State)
    requires CanStep(workers, s) && s.sourceClosed
    ensures GoesOn(workers, s)
  {
    var a, s' :| Forced(s, a) && Step(workers, s, a, s');
    assert a != Dispatch(Handover) && a != Dispatch(DrainItem);
    hide Step;
    assert Cost(a) == 0;
  }

  /** Once nothing more is written and no item is handed over, a run ends after at most Measure steps, however the
      goroutines are scheduled; and where it ends with the generator stopped, the caller has returned or panicked. */
  lemma Returns(workers: nat, run: seq<State>, actions: seq<Action>, i: nat)
    requires Run(workers, run, actions) && i <= |actions| && workers > 0
    requires forall a | a in actions[i..] :: Cost(a) == 0
    ensures |actions| - i <= Measure(run[i])
    ensures var s := run[|actions|];
            s.sourceClosed ==> GoesOn(workers, s) || s.caller.CReturned? || s.caller.CPanicked?
  {
    MeasureRun(workers, run, actions, i, |actions|);
    assert actions[i..|actions|] == actions[i..];
    NoCosts(actions[i..]);
    var s := run[|actions|];
    if s.sourceClosed && !s.caller.CReturned? && !s.caller.CPanicked? {
      NoDeadlock(workers, run, actions, |actions|);
      ClosedGoesOn(workers, s);
    }
  }
}
