/** Runs of the timing wheel: what its loop does with the commands it receives, and when timers fire. */
module WheelRuns {
  import opened WheelMath
  import opened WheelModel
  import opened TimingWheel

  /** What the loop receives from the ticker or a channel. */
  datatype Command = Tick | Set(key: Key, value: Val, delay: int) | Move(key: Key, delay: int) | Remove(key: Key)

  predicate Legal(c: Command)
  {
    c.Set? || c.Move? ==> c.delay > 0
  }

  function OpOf(c: Command): Op
  {
    if c.Tick? then TickOp else On(c.key)
  }

  function Ops(commands: seq<Command>): (ops: seq<Op>)
    ensures |ops| == |commands| && forall i | 0 <= i < |ops| :: ops[i] == OpOf(commands[i])
  {
    seq(|commands|, i requires 0 <= i < |commands| => OpOf(commands[i]))
  }

  /** One turn of the loop. */
  method Perform(tw: TimingWheel, c: Command) returns (fired: seq<Task>)
    requires tw.Valid() && Legal(c)
    modifies tw, tw.slots, tw.timers, tw.entries, tw.positions
    ensures tw.Valid() && Effect(Timers(old(tw.State())), OpOf(c), Timers(tw.State()), fired)
    ensures forall e | e in tw.entries :: e in old(tw.entries) || fresh(e)
    ensures forall p | p in tw.positions :: p in old(tw.positions) || fresh(p)
  {
    hide WheelModel.Valid, TimingWheel.Shaped, TimingWheel.State, Timers, Ticked, Drift;
    fired := [];
    ghost var before := Timers(tw.State());
    match c
    case Tick =>
      fired := tw.OnTick();
    case Set(key, value, delay) =>
      tw.SetTask(key, value, delay);
      EffectOfKey(before, key, Timers(tw.State()), fired);
    case Move(key, delay) =>
      fired := tw.MoveTask(key, delay);
      EffectOfKey(before, key, Timers(tw.State()), fired);
    case Remove(key) =>
      tw.RemoveTask(key);
      EffectOfKey(before, key, Timers(tw.State()), fired);
  }

  /** Any run of the loop is a history of its timers. */
  method Run(tw: TimingWheel, commands: seq<Command>)
      returns (fired: seq<seq<Task>>, ghost timers: seq<map<Key, Timer>>)
    requires tw.Valid() && forall c | c in commands :: Legal(c)
    modifies tw, tw.slots, tw.timers, tw.entries, tw.positions
    ensures tw.Valid() && History(timers, Ops(commands), fired)
    ensures timers[0] == Timers(old(tw.State())) && timers[|commands|] == Timers(tw.State())
  {
    hide WheelModel.Valid, TimingWheel.Shaped, TimingWheel.State, Timers, Effect;
    fired, timers := [], [Timers(tw.State())];
    for n := 0 to |commands|
      invariant tw.Valid() && |fired| == n && |timers| == n + 1
      invariant timers[0] == Timers(old(tw.State())) && timers[n] == Timers(tw.State())
      invariant forall i | 0 <= i < n :: Effect(timers[i], OpOf(commands[i]), timers[i + 1], fired[i])
      invariant forall e | e in tw.entries :: e in old(tw.entries) || fresh(e)
      invariant forall p | p in tw.positions :: p in old(tw.positions) || fresh(p)
    {
      var f := Perform(tw, commands[n]);
      fired, timers := fired + [f], timers + [Timers(tw.State())];
    }
  }

  /** A timer set for a fresh key fires exactly max(delay, interval) / interval ticks later, once and with its value,
      whatever is done to other timers meanwhile. */
  method SetAndRun(tw: TimingWheel, key: Key, value: Val, delay: int, commands: seq<Command>)
      returns (fired: seq<seq<Task>>)
    requires tw.Valid() && delay > 0 && key !in tw.timers.Contents()
    requires forall c | c in commands :: Legal(c) && (c.Tick? || c.key != key)
    modifies tw, tw.slots, tw.timers, tw.entries, tw.positions
    ensures tw.Valid() && |fired| == |commands|
    ensures forall i | 0 <= i < |commands| ::
              if commands[i].Tick? &&
                 Ticks(Ops(commands), i) == (if delay < tw.interval then 1 else delay / tw.interval) - 1
              then FiresOnce(fired[i], Task(key, value))
              else forall t | t in fired[i] :: t.key != key
  {
    hide WheelModel.Valid, TimingWheel.State, Timers, Effect, Ticks, FiresOnce;
    OneInterval(tw, delay);
    tw.SetTask(key, value, delay);
    ghost var timers;
    fired, timers := Run(tw, commands);
    forall i | 0 <= i < |commands|
      ensures if commands[i].Tick? &&
                 Ticks(Ops(commands), i) == (if delay < tw.interval then 1 else delay / tw.interval) - 1
              then FiresOnce(fired[i], Task(key, value))
              else forall t | t in fired[i] :: t.key != key
    {
      FiresOnTime(timers, Ops(commands), fired, key, i);
    }
  }

  lemma OneInterval(tw: TimingWheel, delay: int)
    requires tw.interval > 0
    ensures tw.Steps(delay) == if delay < tw.interval then 1 else delay / tw.interval
  {
  }
}
