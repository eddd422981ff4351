/** What the reducer of a MapReduce gets to read: nothing is thrown away while it runs. */
module MapReduceReading {
  import opened Counting
  import opened MapReduceProtocol
  import opened MapReduceProperties

  /** In user code, or sending what it wrote. */
  predicate Reducing(pc: ReducerPC)
  {
    pc.RRunning? || pc.RSend?
  }

  /** Until the reducer returns, all that was taken from the collector was read by it; then values may be drained. */
  ghost predicate Reading(s: State)
  {
    s.read <= s.taken && (Reducing(s.reducer) ==> s.read == s.taken)
  }

  /** Once a reducer has read its pipe to the end, nothing is left to drain. */
  ghost predicate ReadOut(s: State)
  {
    !Reducing(s.reducer) ==> s.read == s.taken && s.collector == [] && s.collectorClosed
  }

  /** The reducer returns at this step only if its pipe is closed and empty. */
  predicate ReadsToEnd(s: State, a: Action)
  {
    a == Reduce(ReducerReturn) ==> s.collectorClosed && s.collector == []
  }

  /** The dispatcher and the mappers take nothing from the collector. */
  lemma DispatchReads(workers: nat, s: State, d: DispatcherAction, s': State)
    requires DispatcherStep(workers, s, d, s')
    ensures s'.read == s.read && s'.taken == s.taken && s'.reducer == s.reducer && s'.collector == s.collector
    ensures s.collectorClosed ==> s'.collectorClosed
  {
    match d
    case Handover =>
    case CloseSource =>
    case Acquire =>
    case SeeDone =>
    case SeeClosed =>
    case Spawn =>
    case GiveUp =>
    case WaitOver =>
    case CloseCollector =>
    case DrainItem =>
    case DrainOver =>
  }

  lemma MapReads(workers: nat, s: State, k: nat, m: MapperAction, s': State)
    requires MapperStep(workers, s, k, m, s')
    ensures s'.read == s.read && s'.taken == s.taken && s'.reducer == s.reducer
    ensures s.collectorClosed ==> s'.collectorClosed && s'.collector == s.collector
  {
    match m
    case Write(v) =>
    case Send =>
    case Return =>
    case Done =>
    case Release =>
  }

  lemma ReduceReads(s: State, r: ReducerAction, s': State)
    requires ReducerStep(s, r, s') && Reading(s)
    ensures Reading(s')
    ensures ReadOut(s) && ReadsToEnd(s, Reduce(r)) ==> ReadOut(s')
  {
    match r
    case Read =>
    case ReducerWrite(v) =>
    case ReducerReturn =>
    case DrainValue =>
    case DrainEnd =>
    case CloseDone =>
    case CloseOutput =>
    case Deliver =>
    case OutputOver =>
  }

  lemma ReadingStep(workers: nat, s: State, a: Action, s': State)
    requires Step(workers, s, a, s') && Reading(s)
    ensures Reading(s')
    ensures ReadOut(s) && ReadsToEnd(s, a) ==> ReadOut(s')
  {
    hide DispatcherStep, MapperStep, ReducerStep;
    match a
    case Dispatch(d) => DispatchReads(workers, s, d, s');
    case Map(k, m) => MapReads(workers, s, k, m, s');
    case Reduce(r) => ReduceReads(s, r, s');
  }

  lemma ReadingInit(s: State)
    requires Init(s)
    ensures Reading(s) && ReadOut(s)
  {
  }

  lemma {:induction false} ReadingRun(workers: nat, run: seq<State>, actions: seq<Action>, i: nat)
    requires Run(workers, run, actions) && i < |run|
    ensures Reading(run[i])
  {
    hide Step, Reading, ReadOut, ReadsToEnd, Init;
    if i == 0 {
      ReadingInit(run[0]);
    } else {
      ReadingRun(workers, run, actions, i - 1);
      ReadingStep(workers, run[i - 1], actions[i - 1], run[i]);
    }
  }

  lemma {:induction false} ReadOutRun(workers: nat, run: seq<State>, actions: seq<Action>, i: nat)
    requires Run(workers, run, actions) && i < |run| && forall j | 0 <= j < i :: ReadsToEnd(run[j], actions[j])
    ensures ReadOut(run[i])
  {
    hide Step, Reading, ReadOut, ReadsToEnd, Init;
    if i == 0 {
      ReadingInit(run[0]);
    } else {
      ReadOutRun(workers, run, actions, i - 1);
      ReadingRun(workers, run, actions, i - 1);
      ReadingStep(workers, run[i - 1], actions[i - 1], run[i]);
    }
  }

  /** While the reducer has not returned, it has read all that has left the collector, in the order written. */
  lemma ReadsAllTaken(workers: nat, run: seq<State>, actions: seq<Action>, i: nat)
    requires Run(workers, run, actions) && i < |run| && Reducing(run[i].reducer)
    ensures run[i].written == run[i].read + run[i].collector
  {
    ReadingRun(workers, run, actions, i);
    InvRun(workers, run, actions, i);
  }

  /** When MapReduce returns, what the reducer read is a first part of what was written; and if the reducer returned
      only when its pipe was closed and empty, it has read all that every mapper wrote. */
  lemma ReturnsRead(workers: nat, run: seq<State>, actions: seq<Action>, i: nat)
    requires Run(workers, run, actions) && i < |run| && run[i].caller.CReturned?
    ensures run[i].read <= run[i].written
    ensures (forall j | 0 <= j < i :: ReadsToEnd(run[j], actions[j])) ==>
              && run[i].read == run[i].written
              && forall k | 0 <= k < run[i].generated :: k in run[i].calls && From(k, run[i].read) == run[i].calls[k]
  {
    ReadingRun(workers, run, actions, i);
    ReturnsComplete(workers, run, actions, i);
    InvRun(workers, run, actions, i);
    if forall j | 0 <= j < i :: ReadsToEnd(run[j], actions[j]) {
      ReadOutRun(workers, run, actions, i);
    }
  }
}
