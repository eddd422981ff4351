/** core/mr/mapreduce.go as a protocol, for runs in which nobody cancels, panics in user code, or ends
    the context: a generator, a dispatcher (executeMappers), one mapper goroutine an item, a reducer,
    and the caller.  Channel operations are atomic steps; user code may take any step its API offers.
    The items are numbered in the order in which the generator sends them. */
module MapReduceProtocol {

  type Out(==, !new)      // what mappers write
  type Val(==, !new)      // what the reducer writes

  datatype Result = Value(v: Val) | NoOutput

  datatype DispatcherPC =
    | DSelect                  // at the select: pool token, or done
    | DReceive                 // holds a token, receives from source
    | DSpawn(item: nat)        // wg.Add and go are still to come
    | DGiveUp                  // source was closed: gives its token back
    | DWait                    // in wg.Wait
    | DClose                   // closes the collector
    | DDrain                   // drains the source
    | DDone

  datatype MapperPC =
    | MRunning
    | MSend(v: Out)            // at channel <- v
    | MReturned                // at wg.Done
    | MRelease                 // at <-pool
    | MEnded

  datatype ReducerPC =
    | RRunning
    | RSend(v: Val)            // at channel <- v, the output
    | RDrain                   // drains the collector
    | RCloseDone
    | RCloseOutput
    | REnded

  datatype CallerPC =
    | CSelect                  // at the select on output
    | CRange(r: Result)        // has its result, waits for output to be closed
    | CReturned(r: Result)
    | CPanicked                // more than one element written in reducer

  datatype State = State(
    generated: nat,                    // items handed over by the generator
    sourceClosed: bool,
    dispatcher: DispatcherPC,
    tokens: nat,                       // in the pool channel
    wg: int,
    mappers: map<nat, MapperPC>,
    collector: seq<(nat, Out)>,        // buffered values, each with the item of the mapper that sent it
    collectorClosed: bool,
    reducer: ReducerPC,
    done: bool,
    outputClosed: bool,
    caller: CallerPC,
    // histories
    started: seq<nat>,                 // items given to a mapper, in order
    calls: map<nat, seq<Out>>,         // the Write calls of each mapper
    written: seq<(nat, Out)>,          // values sent to the collector
    taken: seq<(nat, Out)>,            // values read by the reducer or drained
    read: seq<(nat, Out)>,             // values read by the reducer
    wrote: seq<Val>,                   // the Write calls of the reducer
    lost: nat,                         // items drained, or values that Write threw away
    crashed: bool                      // a send on a closed channel, or a close of a closed one
  )

  /** Steps of the generator and the dispatcher. */
  datatype DispatcherAction =
    | Handover                         // generator and dispatcher meet on source
    | CloseSource
    | Acquire | SeeDone | SeeClosed | Spawn | GiveUp | WaitOver | CloseCollector | DrainItem | DrainOver

  datatype MapperAction = Write(v: Out) | Send | Return | Done | Release

  /** Steps of the reducer and the caller. */
  datatype ReducerAction =
    | Read | ReducerWrite(v: Val) | ReducerReturn | DrainValue | DrainEnd | CloseDone | CloseOutput
    | Deliver                          // reducer and caller meet on output
    | OutputOver

  datatype Action = Dispatch(d: DispatcherAction) | Map(k: nat, m: MapperAction) | Reduce(r: ReducerAction)

  ghost predicate Init(s: State)
  {
    s == State(0, false, DSelect, 0, 0, map[], [], false, RRunning, false, false, CSelect,
               [], map[], [], [], [], [], 0, false)
  }

  ghost predicate DispatcherStep(workers: nat, s: State, d: DispatcherAction, s': State)
  {
    match d
    case Handover =>
      && !s.sourceClosed && s.dispatcher.DReceive?
      && s' == s.(generated := s.generated + 1, dispatcher := DSpawn(s.generated))
    case CloseSource => !s.sourceClosed && s' == s.(sourceClosed := true)
    case Acquire =>
      s.dispatcher.DSelect? && s.tokens < workers && s' == s.(dispatcher := DReceive, tokens := s.tokens + 1)
    case SeeDone => s.dispatcher.DSelect? && s.done && s' == s.(dispatcher := DWait)
    case SeeClosed => s.dispatcher.DReceive? && s.sourceClosed && s' == s.(dispatcher := DGiveUp)
    case Spawn =>
      && s.dispatcher.DSpawn?
      && s' == s.(dispatcher := DSelect, wg := s.wg + 1,
                  mappers := s.mappers[s.dispatcher.item := MRunning],
                  calls := s.calls[s.dispatcher.item := []],
                  started := s.started + [s.dispatcher.item])
    case GiveUp => s.dispatcher.DGiveUp? && s.tokens > 0 && s' == s.(dispatcher := DWait, tokens := s.tokens - 1)
    case WaitOver => s.dispatcher.DWait? && s.wg == 0 && s' == s.(dispatcher := DClose)
    case CloseCollector =>
      && s.dispatcher.DClose?
      && s' == s.(dispatcher := DDrain, collectorClosed := true, crashed := s.crashed || s.collectorClosed)
    case DrainItem =>
      !s.sourceClosed && s.dispatcher.DDrain? && s' == s.(generated := s.generated + 1, lost := s.lost + 1)
    case DrainOver => s.dispatcher.DDrain? && s.sourceClosed && s' == s.(dispatcher := DDone)
  }

  ghost predicate MapperStep(workers: nat, s: State, k: nat, m: MapperAction, s': State)
  {
    match m
    case Write(v) =>
      && k in s.mappers && s.mappers[k].MRunning? && k in s.calls
      && s' == if s.done then s.(calls := s.calls[k := s.calls[k] + [v]], lost := s.lost + 1)
               else s.(calls := s.calls[k := s.calls[k] + [v]], mappers := s.mappers[k := MSend(v)])
    case Send =>
      && k in s.mappers && s.mappers[k].MSend?
      && if s.collectorClosed then s' == s.(crashed := true)
         else
           && |s.collector| < workers
           && s' == s.(mappers := s.mappers[k := MRunning],
                       collector := s.collector + [(k, s.mappers[k].v)],
                       written := s.written + [(k, s.mappers[k].v)])
    case Return =>
      k in s.mappers && s.mappers[k].MRunning? && s' == s.(mappers := s.mappers[k := MReturned])
    case Done =>
      k in s.mappers && s.mappers[k].MReturned? && s' == s.(mappers := s.mappers[k := MRelease], wg := s.wg - 1)
    case Release =>
      && k in s.mappers && s.mappers[k].MRelease? && s.tokens > 0
      && s' == s.(mappers := s.mappers[k := MEnded], tokens := s.tokens - 1)
  }

  ghost predicate ReducerStep(s: State, r: ReducerAction, s': State)
  {
    match r
    case Read =>
      && s.reducer.RRunning? && s.collector != []
      && s' == s.(collector := s.collector[1..], taken := s.taken + [s.collector[0]], read := s.read + [s.collector[0]])
    case ReducerWrite(v) =>
      && s.reducer.RRunning?
      && s' == if s.done then s.(wrote := s.wrote + [v], lost := s.lost + 1)
               else s.(wrote := s.wrote + [v], reducer := RSend(v))
    case ReducerReturn => s.reducer.RRunning? && s' == s.(reducer := RDrain)
    case DrainValue =>
      && s.reducer.RDrain? && s.collector != []
      && s' == s.(collector := s.collector[1..], taken := s.taken + [s.collector[0]])
    case DrainEnd =>
      s.reducer.RDrain? && s.collector == [] && s.collectorClosed && s' == s.(reducer := RCloseDone)
    case CloseDone =>
      s.reducer.RCloseDone? && s' == s.(reducer := RCloseOutput, done := true, crashed := s.crashed || s.done)
    case CloseOutput =>
      && s.reducer.RCloseOutput?
      && s' == s.(reducer := REnded, outputClosed := true, crashed := s.crashed || s.outputClosed)
    case Deliver =>
      && s.reducer.RSend?
      && if s.outputClosed then s' == s.(crashed := true)
         else if s.caller.CSelect? then s' == s.(reducer := RRunning, caller := CRange(Value(s.reducer.v)))
         else s.caller.CRange? && s' == s.(reducer := RRunning, caller := CPanicked)
    case OutputOver =>
      && s.outputClosed
      && ((s.caller.CSelect? && s' == s.(caller := CRange(NoOutput)))
          || (s.caller.CRange? && s' == s.(caller := CReturned(s.caller.r))))
  }

  ghost predicate Step(workers: nat, s: State, a: Action, s': State)
  {
    match a
    case Dispatch(d) => DispatcherStep(workers, s, d, s')
    case Map(k, m) => MapperStep(workers, s, k, m, s')
    case Reduce(r) => ReducerStep(s, r, s')
  }

  ghost predicate Run(workers: nat, run: seq<State>, actions: seq<Action>)
  {
    && |run| == |actions| + 1 && Init(run[0])
    && forall i | 0 <= i < |actions| :: Step(workers, run[i], actions[i], run[i + 1])
  }
}
