/** The limits of a MapReduce are reached: as many mappers at work as there are workers, and as many values waiting. */
module MapReduceCapacity {
  import opened Counting
  import opened MapReduceProtocol
  import opened MapReduceProperties

  ghost predicate Path(workers: nat, path: seq<State>, actions: seq<Action>)
  {
    |path| == |actions| + 1 && forall i | 0 <= i < |actions| :: Step(workers, path[i], actions[i], path[i + 1])
  }

  lemma PathAppend(workers: nat, path: seq<State>, actions: seq<Action>, a: Action, s': State)
    requires Path(workers, path, actions) && Step(workers, path[|actions|], a, s')
    ensures Path(workers, path + [s'], actions + [a])
  {
    hide Step;
  }

  // ------------------------------------------------------------------ mappers

  /** The first n items, each with v. */
  function Each<V>(n: nat, v: V): (r: map<nat, V>)
    ensures forall k: nat :: k in r <==> k < n
    ensures forall k | k in r :: r[k] == v
  {
    if n == 0 then map[] else Each(n - 1, v)[n - 1 := v]
  }

  /** The first n items are in user code, and nothing else has happened. */
  function Busy(n: nat): State
  {
    State(n, false, DSelect, n, n, Each(n, MRunning), [], false, RRunning, false, false, CSelect,
          seq(n, k => k), Each(n, []), [], [], [], [], 0, false)
  }

  lemma BusyInit()
    ensures Init(Busy(0))
  {
    assert seq(0, k => k) == [];
  }

  /** While there is a worker left, the dispatcher can start one more mapper. */
  lemma StartOne(workers: nat, n: nat)
    requires n < workers
    ensures var s := Busy(n).(dispatcher := DReceive, tokens := n + 1);
            && Step(workers, Busy(n), Dispatch(Acquire), s)
            && Step(workers, s, Dispatch(Handover), s.(generated := n + 1, dispatcher := DSpawn(n)))
            && Step(workers, s.(generated := n + 1, dispatcher := DSpawn(n)), Dispatch(Spawn), Busy(n + 1))
  {
    assert Busy(n + 1).started == Busy(n).started + [n];
  }

  lemma {:induction false} RunToBusy(workers: nat, n: nat) returns (run: seq<State>, actions: seq<Action>)
    requires n <= workers
    ensures Path(workers, run, actions) && run[0] == Busy(0) && run[|actions|] == Busy(n)
  {
    hide Step, Busy;
    if n == 0 {
      run, actions := [Busy(0)], [];
    } else {
      run, actions := RunToBusy(workers, n - 1);
      StartOne(workers, n - 1);
      var s := Busy(n - 1).(dispatcher := DReceive, tokens := n);
      var s' := s.(generated := n, dispatcher := DSpawn(n - 1));
      PathAppend(workers, run, actions, Dispatch(Acquire), s);
      run, actions := run + [s], actions + [Dispatch(Acquire)];
      PathAppend(workers, run, actions, Dispatch(Handover), s');
      run, actions := run + [s'], actions + [Dispatch(Handover)];
      PathAppend(workers, run, actions, Dispatch(Spawn), Busy(n));
      run, actions := run + [Busy(n)], actions + [Dispatch(Spawn)];
    }
  }

  lemma {:induction false} EachCount<V>(n: nat, v: V, p: V -> bool)
    requires p(v)
    ensures Count(Each(n, v), p) == n
  {
    if n == 0 {
      assert Those(Each(0, v), p) == {};
    } else {
      EachCount(n - 1, v, p);
      var k: nat, m := n - 1, Each(n - 1, v);
      assert k !in m;
      assert Each(n, v) == m[k := v];
      CountUpdate(m, k, v, p);
      assert Count(m[k := v], p) == n;
    }
  }

  /** Some run has all the workers in user code at once. */
  lemma AllWorkersBusy(workers: nat) returns (run: seq<State>, actions: seq<Action>)
    ensures Run(workers, run, actions) && Count(run[|actions|].mappers, Mapping) == workers
  {
    hide Step, Init;
    run, actions := RunToBusy(workers, workers);
    BusyInit();
    EachCount(workers, MRunning, Mapping);
  }

  // ------------------------------------------------------------------- values

  /** What a mapper does to hand a value to the collector. */
  lemma SendOne(workers: nat, s: State, k: nat, v: Out)
    requires k in s.mappers && s.mappers[k] == MRunning && k in s.calls && !s.done && !s.collectorClosed
    requires |s.collector| < workers
    ensures var s1 := s.(calls := s.calls[k := s.calls[k] + [v]], mappers := s.mappers[k := MSend(v)]);
            var s2 := s1.(mappers := s1.mappers[k := MRunning], collector := s.collector + [(k, v)],
                          written := s.written + [(k, v)]);
            Step(workers, s, Map(k, Write(v)), s1) && Step(workers, s1, Map(k, Send), s2)
  {
  }

  /** With nobody reading, a mapper alone can go on until as many values wait as there are workers. */
  lemma {:induction false} PipeFills(workers: nat, s: State, k: nat, v: Out)
    returns (path: seq<State>, actions: seq<Action>)
    requires k in s.mappers && s.mappers[k] == MRunning && k in s.calls && !s.done && !s.collectorClosed
    requires |s.collector| <= workers
    decreases workers - |s.collector|
    ensures Path(workers, path, actions) && path[0] == s && |path[|actions|].collector| == workers
    ensures forall a | a in actions :: a == Map(k, Write(v)) || a == Map(k, Send)
  {
    hide Step;
    if |s.collector| == workers {
      path, actions := [s], [];
    } else {
      SendOne(workers, s, k, v);
      var s1 := s.(calls := s.calls[k := s.calls[k] + [v]], mappers := s.mappers[k := MSend(v)]);
      var s2 := s1.(mappers := s1.mappers[k := MRunning], collector := s.collector + [(k, v)],
                    written := s.written + [(k, v)]);
      path, actions := PipeFills(workers, s2, k, v);
      path, actions := [s, s1] + path, [Map(k, Write(v)), Map(k, Send)] + actions;
    }
  }
}
