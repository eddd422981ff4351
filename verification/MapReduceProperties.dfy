/** What a run of MapReduce keeps, and what its caller may rely on. */
module MapReduceProperties {
  import opened Counting
  import opened MapReduceProtocol

  /** Between wg.Add and wg.Done. */
  predicate Working(pc: MapperPC)
  {
    pc.MRunning? || pc.MSend? || pc.MReturned?
  }

  /** In user code. */
  predicate Mapping(pc: MapperPC)
  {
    pc.MRunning? || pc.MSend?
  }

  predicate HoldsToken(pc: MapperPC)
  {
    !pc.MEnded?
  }

  /** The values that mapper k sent, in order. */
  function From(k: nat, values: seq<(nat, Out)>): (r: seq<Out>)
  {
    if values == [] then []
    else
      var last := values[|values| - 1];
      From(k, values[..|values| - 1]) + (if last.0 == k then [last.1] else [])
  }

  function InFlight(pc: MapperPC): seq<Out>
  {
    if pc.MSend? then [pc.v] else []
  }

  // ------------------------------------------------------------ invariants

  /** Has left the dispatch loop, or is about to. */
  predicate Ending(pc: DispatcherPC)
  {
    pc.DGiveUp? || pc.DWait? || pc.DClose? || pc.DDrain? || pc.DDone?
  }

  /** The dispatcher gives the items it receives to mappers one by one. */
  ghost predicate Dispatching(s: State)
  {
    && s.generated == |s.started| + (if s.dispatcher.DSpawn? then 1 else 0)
    && (s.dispatcher.DSpawn? ==> s.dispatcher.item == |s.started|)
    && (forall i | 0 <= i < |s.started| :: s.started[i] == i)
    && (forall k | k in s.mappers :: k < |s.started|)
    && (forall k | 0 <= k < |s.started| :: k in s.mappers)
    && s.calls.Keys == s.mappers.Keys
    && (Ending(s.dispatcher) ==> s.sourceClosed)
  }

  ghost predicate Counted(workers: nat, s: State)
  {
    && s.wg == Count(s.mappers, Working)
    && s.tokens == Count(s.mappers, HoldsToken)
                   + One(s.dispatcher.DReceive? || s.dispatcher.DSpawn? || s.dispatcher.DGiveUp?)
    && s.tokens <= workers
    && (s.dispatcher.DClose? || s.dispatcher.DDrain? || s.dispatcher.DDone? ==> s.wg == 0)
  }

  /** Who closes what, and when. */
  ghost predicate Closing(s: State)
  {
    && (s.collectorClosed <==> s.dispatcher.DDrain? || s.dispatcher.DDone?)
    && (s.reducer.RCloseDone? || s.reducer.RCloseOutput? || s.reducer.REnded?
       ==> s.collectorClosed && s.collector == [])
    && (s.done <==> s.reducer.RCloseOutput? || s.reducer.REnded?)
    && (s.outputClosed <==> s.reducer.REnded?)
    && !s.crashed && s.lost == 0
  }

  /** What the mappers write is on its way to the reducer, in order. */
  ghost predicate Flowing(workers: nat, s: State)
  {
    && s.written == s.taken + s.collector
    && |s.collector| <= workers
    && (forall k | k in s.mappers && k in s.calls :: s.calls[k] == From(k, s.written) + InFlight(s.mappers[k]))
    && (forall i | 0 <= i < |s.written| :: s.written[i].0 in s.mappers)
  }

  /** What the reducer wrote is what the caller has or is about to get. */
  ghost predicate Delivered(s: State)
  {
    match s.caller
    case CSelect => s.wrote == if s.reducer.RSend? then [s.reducer.v] else []
    case CRange(Value(v)) => s.wrote == if s.reducer.RSend? then [v, s.reducer.v] else [v]
    case CRange(NoOutput) => s.wrote == [] && s.outputClosed
    case CReturned(Value(v)) => s.wrote == [v] && s.outputClosed
    case CReturned(NoOutput) => s.wrote == [] && s.outputClosed
    case CPanicked => |s.wrote| >= 2
  }

  ghost predicate Inv(workers: nat, s: State)
  {
    Dispatching(s) && Counted(workers, s) && Closing(s) && Flowing(workers, s) && Delivered(s)
  }

  // ------------------------------------------------------------ the dispatcher's steps

  lemma DispatchingDispatch(workers: nat, s: State, d: DispatcherAction, s': State)
    requires Dispatching(s) && Closing(s) && DispatcherStep(workers, s, d, s')
    ensures Dispatching(s')
  {
    match d
    case Handover =>
    case CloseSource =>
    case Acquire =>
    case SeeDone =>
    case SeeClosed =>
    case Spawn =>
    case GiveUp =>
    case WaitOver =>
    case CloseCollector =>
    case DrainItem =>
    case DrainOver =>
  }

  lemma CountedDispatch(workers: nat, s: State, d: DispatcherAction, s': State)
    requires Dispatching(s) && Counted(workers, s) && DispatcherStep(workers, s, d, s')
    ensures Counted(workers, s')
  {
    hide Count;
    if d.Spawn? {
      CountMove(s.mappers, s.dispatcher.item, MRunning);
    }
  }

  /** The dispatcher touches no value, and no mapper but the one it spawns. */
  lemma DispatchKeeps(workers: nat, s: State, d: DispatcherAction, s': State)
    requires DispatcherStep(workers, s, d, s')
    ensures s'.written == s.written && s'.taken == s.taken && s'.collector == s.collector
  {
    match d
    case Handover =>
    case CloseSource =>
    case Acquire =>
    case SeeDone =>
    case SeeClosed =>
    case Spawn =>
    case GiveUp =>
    case WaitOver =>
    case CloseCollector =>
    case DrainItem =>
    case DrainOver =>
  }

  lemma DispatchMoves(workers: nat, s: State, d: DispatcherAction, s': State)
    requires DispatcherStep(workers, s, d, s')
    ensures if d.Spawn?
            then s.dispatcher.DSpawn? && s'.mappers == s.mappers[s.dispatcher.item := MRunning]
                 && s'.calls == s.calls[s.dispatcher.item := []]
            else s'.mappers == s.mappers && s'.calls == s.calls
  {
    match d
    case Handover =>
    case CloseSource =>
    case Acquire =>
    case SeeDone =>
    case SeeClosed =>
    case Spawn =>
    case GiveUp =>
    case WaitOver =>
    case CloseCollector =>
    case DrainItem =>
    case DrainOver =>
  }

  lemma FlowingDispatch(workers: nat, s: State, d: DispatcherAction, s': State)
    requires Dispatching(s) && Flowing(workers, s) && DispatcherStep(workers, s, d, s')
    ensures Flowing(workers, s')
  {
    hide From, DispatcherStep;
    DispatchKeeps(workers, s, d, s');
    DispatchMoves(workers, s, d, s');
    if d.Spawn? {
      FromNone(s.dispatcher.item, s.written);
    }
  }

  lemma ClosingDispatch(workers: nat, s: State, d: DispatcherAction, s': State)
    requires Dispatching(s) && Closing(s) && DispatcherStep(workers, s, d, s')
    ensures Closing(s')
  {
    match d
    case Handover =>
    case CloseSource =>
    case Acquire =>
    case SeeDone =>
    case SeeClosed =>
    case Spawn =>
    case GiveUp =>
    case WaitOver =>
    case CloseCollector =>
    case DrainItem =>
    case DrainOver =>
  }

  lemma DeliveredDispatch(workers: nat, s: State, d: DispatcherAction, s': State)
    requires Delivered(s) && DispatcherStep(workers, s, d, s')
    ensures Delivered(s')
  {
    match d
    case Handover =>
    case CloseSource =>
    case Acquire =>
    case SeeDone =>
    case SeeClosed =>
    case Spawn =>
    case GiveUp =>
    case WaitOver =>
    case CloseCollector =>
    case DrainItem =>
    case DrainOver =>
  }

  lemma InvDispatch(workers: nat, s: State, d: DispatcherAction, s': State)
    requires Inv(workers, s) && DispatcherStep(workers, s, d, s')
    ensures Inv(workers, s')
  {
    hide DispatcherStep, Dispatching, Counted, Flowing, Closing, Delivered;
    DispatchingDispatch(workers, s, d, s');
    CountedDispatch(workers, s, d, s');
    FlowingDispatch(workers, s, d, s');
    ClosingDispatch(workers, s, d, s');
    DeliveredDispatch(workers, s, d, s');
  }

  // ------------------------------------------------------------ a mapper's steps

  lemma CountMove(mappers: map<nat, MapperPC>, k: nat, pc: MapperPC)
    ensures var after := mappers[k := pc]; var was := k in mappers;
            && Count(after, Working) + One(was && Working(mappers[k])) == Count(mappers, Working) + One(Working(pc))
            && Count(after, HoldsToken) + One(was && HoldsToken(mappers[k]))
               == Count(mappers, HoldsToken) + One(HoldsToken(pc))
  {
    CountUpdate(mappers, k, pc, Working);
    CountUpdate(mappers, k, pc, HoldsToken);
  }

  /** A mapper moves itself only. */
  lemma MapMoves(workers: nat, s: State, k: nat, m: MapperAction, s': State)
    requires MapperStep(workers, s, k, m, s')
    ensures k in s.mappers && k in s'.mappers && s'.mappers == s.mappers[k := s'.mappers[k]]
    ensures s'.dispatcher == s.dispatcher
  {
    match m
    case Write(v) =>
    case Send =>
    case Return =>
    case Done =>
    case Release =>
  }

  lemma MapKeeps(workers: nat, s: State, k: nat, m: MapperAction, s': State)
    requires MapperStep(workers, s, k, m, s') && k in s.calls
    ensures s'.generated == s.generated && s'.started == s.started && s'.sourceClosed == s.sourceClosed
    ensures s'.calls.Keys == s.calls.Keys
  {
    assert s.calls.Keys + {k} == s.calls.Keys;
    match m
    case Write(v) =>
    case Send =>
    case Return =>
    case Done =>
    case Release =>
  }

  /** It moves the counters by what it leaves and what it enters. */
  lemma MapWaitGroup(workers: nat, s: State, k: nat, m: MapperAction, s': State)
    requires MapperStep(workers, s, k, m, s') && k in s.mappers && k in s'.mappers
    ensures s'.wg + One(Working(s.mappers[k])) == s.wg + One(Working(s'.mappers[k])) && s'.wg <= s.wg
  {
    match m
    case Write(v) =>
    case Send =>
    case Return =>
    case Done =>
    case Release =>
  }

  lemma MapTokens(workers: nat, s: State, k: nat, m: MapperAction, s': State)
    requires MapperStep(workers, s, k, m, s') && k in s.mappers && k in s'.mappers
    ensures s'.tokens + One(HoldsToken(s.mappers[k])) == s.tokens + One(HoldsToken(s'.mappers[k]))
            && s'.tokens <= s.tokens
  {
    match m
    case Write(v) =>
    case Send =>
    case Return =>
    case Done =>
    case Release =>
  }

  lemma CountedMap(workers: nat, s: State, k: nat, m: MapperAction, s': State)
    requires Counted(workers, s) && MapperStep(workers, s, k, m, s')
    ensures Counted(workers, s')
  {
    hide Count, MapperStep, Working, HoldsToken;
    MapMoves(workers, s, k, m, s');
    MapWaitGroup(workers, s, k, m, s');
    MapTokens(workers, s, k, m, s');
    CountMove(s.mappers, k, s'.mappers[k]);
  }

  /** While a mapper is at work, the collector and done are open. */
  lemma OpenForMapper(workers: nat, s: State, k: nat)
    requires Counted(workers, s) && Closing(s) && k in s.mappers && Working(s.mappers[k])
    ensures !s.done && !s.collectorClosed
  {
    CountMember(s.mappers, Working, k);
  }

  lemma FromSnoc(k: nat, values: seq<(nat, Out)>, x: (nat, Out))
    ensures From(k, values + [x]) == From(k, values) + (if x.0 == k then [x.1] else [])
  {
  }

  lemma {:induction false} FromNone(k: nat, values: seq<(nat, Out)>)
    requires forall i | 0 <= i < |values| :: values[i].0 != k
    ensures From(k, values) == []
  {
    if values != [] {
      FromNone(k, values[..|values| - 1]);
    }
  }

  /** What a mapper writes is in flight until it is sent. */
  lemma MapValues(workers: nat, s: State, k: nat, m: MapperAction, s': State)
    requires MapperStep(workers, s, k, m, s') && k in s.mappers && k in s'.mappers && k in s.calls
    requires m.Write? || m.Send? ==> !s.collectorClosed && !s.done
    ensures s'.taken == s.taken && k in s'.calls
    ensures if m.Send?
            then s.mappers[k].MSend? && |s.collector| < workers && s'.calls == s.calls && InFlight(s'.mappers[k]) == []
                 && s'.written == s.written + [(k, s.mappers[k].v)]
                 && s'.collector == s.collector + [(k, s.mappers[k].v)]
            else s'.written == s.written && s'.collector == s.collector
    ensures !m.Send? ==>
              var more := if m.Write? then [m.v] else [];
              s'.calls == s.calls[k := s.calls[k] + more] && InFlight(s'.mappers[k]) == InFlight(s.mappers[k]) + more
  {
    match m
    case Write(v) =>
    case Send =>
    case Return => assert s.calls[k] + [] == s.calls[k];
    case Done => assert s.calls[k] + [] == s.calls[k];
    case Release => assert s.calls[k] + [] == s.calls[k];
  }

  lemma FlowingMap(workers: nat, s: State, k: nat, m: MapperAction, s': State)
    requires Flowing(workers, s) && s.calls.Keys == s.mappers.Keys && MapperStep(workers, s, k, m, s')
    requires m.Write? || m.Send? ==> !s.collectorClosed && !s.done
    ensures Flowing(workers, s')
  {
    hide From, MapperStep, InFlight;
    MapMoves(workers, s, k, m, s');
    assert k in s.calls.Keys;
    MapValues(workers, s, k, m, s');
    assert s.calls[k] == From(k, s.written) + InFlight(s.mappers[k]);
    if m.Send? {
      forall j | j in s'.mappers && j in s'.calls ensures s'.calls[j] == From(j, s'.written) + InFlight(s'.mappers[j]) {
        FromSnoc(j, s.written, (k, s.mappers[k].v));
        InFlightIs(s.mappers[k]);
      }
    }
  }

  lemma InFlightIs(pc: MapperPC)
    ensures InFlight(pc) == if pc.MSend? then [pc.v] else []
  {
  }

  lemma DispatchingMap(workers: nat, s: State, k: nat, m: MapperAction, s': State)
    requires Dispatching(s) && MapperStep(workers, s, k, m, s')
    ensures Dispatching(s')
  {
    hide MapperStep;
    MapMoves(workers, s, k, m, s');
    MapKeeps(workers, s, k, m, s');
  }

  lemma ClosingMap(workers: nat, s: State, k: nat, m: MapperAction, s': State)
    requires Closing(s) && Delivered(s) && MapperStep(workers, s, k, m, s')
    requires m.Write? || m.Send? ==> !s.collectorClosed && !s.done
    ensures Closing(s') && Delivered(s')
  {
    match m
    case Write(v) =>
    case Send =>
    case Return =>
    case Done =>
    case Release =>
  }

  lemma InvMap(workers: nat, s: State, k: nat, m: MapperAction, s': State)
    requires Inv(workers, s) && MapperStep(workers, s, k, m, s')
    ensures Inv(workers, s')
  {
    assert s.calls.Keys == s.mappers.Keys;
    if m.Write? || m.Send? {
      OpenForMapper(workers, s, k);
    }
    hide MapperStep, Dispatching, Counted, Flowing, Closing, Delivered;
    DispatchingMap(workers, s, k, m, s');
    CountedMap(workers, s, k, m, s');
    FlowingMap(workers, s, k, m, s');
    ClosingMap(workers, s, k, m, s');
  }

  // ------------------------------------------------------------ the reducer's and the caller's steps

  /** Only reading and draining touch the collector: its head moves to what was taken. */
  ghost predicate MovesOne(s: State, r: ReducerAction, s': State)
  {
    && s'.mappers == s.mappers && s'.calls == s.calls && s'.written == s.written
    && if r.Read? || r.DrainValue?
       then s.collector != [] && s'.collector == s.collector[1..] && s'.taken == s.taken + [s.collector[0]]
       else s'.collector == s.collector && s'.taken == s.taken
  }

  lemma ReduceMovesOne(s: State, r: ReducerAction, s': State)
    requires ReducerStep(s, r, s')
    ensures MovesOne(s, r, s')
  {
    match r
    case Read =>
    case ReducerWrite(v) =>
    case ReducerReturn =>
    case DrainValue =>
    case DrainEnd =>
    case CloseDone =>
    case CloseOutput =>
    case Deliver =>
    case OutputOver =>
  }

  lemma FlowingReduce(workers: nat, s: State, r: ReducerAction, s': State)
    requires Flowing(workers, s) && ReducerStep(s, r, s')
    ensures Flowing(workers, s')
  {
    hide From, ReducerStep;
    ReduceMovesOne(s, r, s');
  }

  lemma ClosingReduce(s: State, r: ReducerAction, s': State)
    requires Closing(s) && ReducerStep(s, r, s')
    ensures Closing(s')
  {
    match r
    case Read =>
    case ReducerWrite(v) =>
    case ReducerReturn =>
    case DrainValue =>
    case DrainEnd =>
    case CloseDone =>
    case CloseOutput =>
    case Deliver =>
    case OutputOver =>
  }

  lemma DeliveredReduce(s: State, r: ReducerAction, s': State)
    requires Closing(s) && Delivered(s) && ReducerStep(s, r, s')
    ensures Delivered(s')
  {
    match r
    case Read =>
    case ReducerWrite(v) =>
    case ReducerReturn =>
    case DrainValue =>
    case DrainEnd =>
    case CloseDone =>
    case CloseOutput =>
    case Deliver =>
    case OutputOver =>
  }

  lemma InvReduce(workers: nat, s: State, r: ReducerAction, s': State)
    requires Inv(workers, s) && ReducerStep(s, r, s')
    ensures Inv(workers, s')
  {
    hide From, Count;
    FlowingReduce(workers, s, r, s');
    ClosingReduce(s, r, s');
    DeliveredReduce(s, r, s');
    hide Flowing, Closing, Delivered;
  }

  lemma InvInit(workers: nat, s: State)
    requires Init(s)
    ensures Inv(workers, s)
  {
  }

  lemma {:induction false} InvRun(workers: nat, run: seq<State>, actions: seq<Action>, i: nat)
    requires Run(workers, run, actions) && i < |run|
    ensures Inv(workers, run[i])
  {
    if i == 0 {
      InvInit(workers, run[0]);
    } else {
      InvRun(workers, run, actions, i - 1);
      hide Inv, DispatcherStep, MapperStep, ReducerStep;
      match actions[i - 1]
      case Dispatch(d) => InvDispatch(workers, run[i - 1], d, run[i]);
      case Map(k, m) => InvMap(workers, run[i - 1], k, m, run[i]);
      case Reduce(r) => InvReduce(workers, run[i - 1], r, run[i]);
    }
  }

  // ------------------------------------------------------------ what the caller relies on

  /** At most `workers` mappers are in user code at once, and nobody ever sends to a closed collector. */
  lemma BoundedConcurrency(workers: nat, run: seq<State>, actions: seq<Action>, i: nat)
    requires Run(workers, run, actions) && i < |run|
    ensures Count(run[i].mappers, Mapping) <= workers
    ensures !run[i].crashed && run[i].lost == 0
    ensures run[i].collectorClosed ==> forall k | k in run[i].mappers :: !Working(run[i].mappers[k])
  {
    InvRun(workers, run, actions, i);
    CountNarrower(run[i].mappers, Mapping, HoldsToken);
    if run[i].collectorClosed {
      CountZero(run[i].mappers, Working);
    }
  }

  /** When MapReduce returns, each item the generator sent has been mapped, exactly once, and all that each
      mapper wrote has been read by the reducer or drained, in the order written; the result is what the
      reducer wrote, or that it wrote nothing. */
  lemma ReturnsComplete(workers: nat, run: seq<State>, actions: seq<Action>, i: nat)
    requires Run(workers, run, actions) && i < |run| && run[i].caller.CReturned?
    ensures var s := run[i];
            && s.sourceClosed && |s.started| == s.generated
            && (forall k | 0 <= k < s.generated :: s.started[k] == k && k in s.mappers && !Working(s.mappers[k]))
            && s.taken == s.written && s.collector == []
            && (forall k | 0 <= k < s.generated :: k in s.calls && From(k, s.taken) == s.calls[k])
            && (s.caller.r == NoOutput <==> s.wrote == [])
            && (forall v :: s.caller.r == Value(v) <==> s.wrote == [v])
  {
    InvRun(workers, run, actions, i);
    CountZero(run[i].mappers, Working);
  }

  /** The caller panics only when the reducer wrote more than one value, and then it never returns. */
  lemma PanicsOnSecondOutput(workers: nat, run: seq<State>, actions: seq<Action>, i: nat)
    requires Run(workers, run, actions) && i < |run|
    ensures run[i].caller == CPanicked ==> |run[i].wrote| >= 2
    ensures |run[i].wrote| >= 2 ==> !run[i].caller.CReturned?
  {
    InvRun(workers, run, actions, i);
  }

  // ------------------------------------------------------------ no deadlock

  /** Steps that are there even if user code does as little as it may: nothing is written, the generator never stops,
      and the reducer returns only when its pipe is closed and empty. */
  predicate Forced(s: State, a: Action)
  {
    match a
    case Dispatch(d) => !d.CloseSource?
    case Map(_, m) => !m.Write?
    case Reduce(r) => !r.ReducerWrite? && (r.ReducerReturn? ==> s.collectorClosed && s.collector == [])
  }

  ghost predicate CanStep(workers: nat, s: State)
  {
    exists a, s' :: Forced(s, a) && Step(workers, s, a, s')
  }

  lemma Witness(workers: nat, s: State, a: Action, s': State)
    requires Forced(s, a) && Step(workers, s, a, s')
    ensures CanStep(workers, s)
  {
  }

  lemma MapperCanStep(workers: nat, s: State, k: nat)
    requires Inv(workers, s) && k in s.mappers && HoldsToken(s.mappers[k]) && s.collector == [] && workers > 0
    requires !s.collectorClosed
    ensures CanStep(workers, s)
  {
    var pc := s.mappers[k];
    if pc.MRunning? {
      Witness(workers, s, Map(k, Return), s.(mappers := s.mappers[k := MReturned]));
    } else if pc.MSend? {
      Witness(workers, s, Map(k, Send), s.(mappers := s.mappers[k := MRunning],
                                           collector := s.collector + [(k, pc.v)],
                                           written := s.written + [(k, pc.v)]));
    } else if pc.MReturned? {
      Witness(workers, s, Map(k, Done), s.(mappers := s.mappers[k := MRelease], wg := s.wg - 1));
    } else {
      CountMember(s.mappers, HoldsToken, k);
      Witness(workers, s, Map(k, Release), s.(mappers := s.mappers[k := MEnded], tokens := s.tokens - 1));
    }
  }

  lemma DispatcherCanStep(workers: nat, s: State)
    requires Inv(workers, s) && s.collector == [] && !s.collectorClosed && workers > 0
    ensures CanStep(workers, s)
  {
    match s.dispatcher
    case DSelect =>
      if s.tokens < workers {
        Witness(workers, s, Dispatch(Acquire), s.(dispatcher := DReceive, tokens := s.tokens + 1));
      } else {
        var k := CountSome(s.mappers, HoldsToken);
        MapperCanStep(workers, s, k);
      }
    case DReceive =>
      if s.sourceClosed {
        Witness(workers, s, Dispatch(SeeClosed), s.(dispatcher := DGiveUp));
      } else {
        Witness(workers, s, Dispatch(Handover),
                    s.(generated := s.generated + 1, dispatcher := DSpawn(s.generated)));
      }
    case DSpawn(item) =>
      Witness(workers, s, Dispatch(Spawn),
                  s.(dispatcher := DSelect, wg := s.wg + 1, mappers := s.mappers[item := MRunning],
                     calls := s.calls[item := []], started := s.started + [item]));
    case DGiveUp =>
      Witness(workers, s, Dispatch(GiveUp), s.(dispatcher := DWait, tokens := s.tokens - 1));
    case DWait =>
      if s.wg == 0 {
        Witness(workers, s, Dispatch(WaitOver), s.(dispatcher := DClose));
      } else {
        var k := CountSome(s.mappers, Working);
        MapperCanStep(workers, s, k);
      }
    case DClose =>
      Witness(workers, s, Dispatch(CloseCollector),
                  s.(dispatcher := DDrain, collectorClosed := true, crashed := s.crashed || s.collectorClosed));
    case DDrain => assert false;
    case DDone => assert false;
  }

  /** Until the caller has returned or panicked, some goroutine can take a forced step; so even a reducer that reads
      its pipe to the end is never stuck. */
  lemma NoDeadlock(workers: nat, run: seq<State>, actions: seq<Action>, i: nat)
    requires Run(workers, run, actions) && i < |run| && workers > 0
    requires !run[i].caller.CReturned? && !run[i].caller.CPanicked?
    ensures CanStep(workers, run[i])
  {
    InvRun(workers, run, actions, i);
    var s := run[i];
    match s.reducer
    case RRunning =>
      if s.collector != [] {
        Witness(workers, s, Reduce(Read), s.(collector := s.collector[1..], taken := s.taken + [s.collector[0]],
                                             read := s.read + [s.collector[0]]));
      } else if s.collectorClosed {
        Witness(workers, s, Reduce(ReducerReturn), s.(reducer := RDrain));
      } else {
        DispatcherCanStep(workers, s);
      }
    case RSend(v) =>
      if s.caller.CSelect? {
        Witness(workers, s, Reduce(Deliver), s.(reducer := RRunning, caller := CRange(Value(v))));
      } else {
        Witness(workers, s, Reduce(Deliver), s.(reducer := RRunning, caller := CPanicked));
      }
    case RDrain =>
      if s.collector != [] {
        Witness(workers, s, Reduce(DrainValue),
                    s.(collector := s.collector[1..], taken := s.taken + [s.collector[0]]));
      } else if s.collectorClosed {
        Witness(workers, s, Reduce(DrainEnd), s.(reducer := RCloseDone));
      } else {
        DispatcherCanStep(workers, s);
      }
    case RCloseDone =>
      Witness(workers, s, Reduce(CloseDone), s.(reducer := RCloseOutput, done := true, crashed := s.crashed || s.done));
    case RCloseOutput =>
      Witness(workers, s, Reduce(CloseOutput),
                  s.(reducer := REnded, outputClosed := true, crashed := s.crashed || s.outputClosed));
    case REnded =>
      if s.caller.CSelect? {
        Witness(workers, s, Reduce(OutputOver), s.(caller := CRange(NoOutput)));
      } else {
        Witness(workers, s, Reduce(OutputOver), s.(caller := CReturned(s.caller.r)));
      }
  }
}
