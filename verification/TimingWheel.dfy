/** core/collection/timingwheel.go: timers in the slots of a wheel, with an index by key. */
module TimingWheel {
  import SafeMap
  import opened WheelMath
  import opened WheelModel

  class TimingEntry {
    const key: Key
    var value: Val
    var circle: int
    var diff: int
    var removed: bool

    constructor (key: Key, value: Val, circle: int)
      ensures this.key == key && Cell() == Entry(key, value, circle, 0, false)
    {
      this.key, this.value, this.circle := key, value, circle;
      diff, removed := 0, false;
    }

    ghost function Cell(): Entry
      reads this
    {
      Entry(key, value, circle, diff, removed)
    }
  }

  class PositionEntry {
    var pos: int
    var item: TimingEntry

    constructor (pos: int, item: TimingEntry)
      ensures this.pos == pos && this.item == item
    {
      this.pos, this.item := pos, item;
    }
  }

  class TimingWheel {
    const interval: int
    const numSlots: int
    const slots: array<seq<TimingEntry>>
    const timers: SafeMap.SafeMap<Key, PositionEntry>
    var tickedPos: int
    ghost var entries: set<TimingEntry>        // every entry ever made
    ghost var positions: set<PositionEntry>

    ghost predicate Shaped()
      reads this, slots, timers, positions
    {
      && interval > 0 && slots.Length == numSlots
      && timers.Valid() && (forall k | k in timers.Contents() :: timers.Contents()[k] in positions)
      && (forall k, l | k in timers.Contents() && l in timers.Contents() ::
            timers.Contents()[k] == timers.Contents()[l] ==> k == l)
    }

    ghost function Cells(): map<TimingEntry, Entry>
      reads this, entries
    {
      map e | e in entries :: e.Cell()
    }

    ghost function Index(): map<Key, Place<TimingEntry>>
      requires Shaped()
      reads this, slots, timers, positions
    {
      map k | k in timers.Contents() :: Place(timers.Contents()[k].pos, timers.Contents()[k].item)
    }

    /** The wheel as a value. */
    ghost function State(): Wheel<TimingEntry>
      requires Shaped()
      reads this, slots, timers, entries, positions
    {
      Wheel(numSlots, tickedPos, slots[..], Cells(), Index())
    }

    ghost predicate Valid()
      reads this, slots, timers, entries, positions
    {
      Shaped() && WheelModel.Valid(State())
    }

    constructor (interval: int, numSlots: int)
      requires interval > 0 && numSlots > 0
      ensures Valid() && Timers(State()) == map[] && this.interval == interval && this.numSlots == numSlots
      ensures tickedPos == numSlots - 1
      ensures fresh(slots) && fresh(timers) && fresh(entries) && fresh(positions)
    {
      this.interval, this.numSlots := interval, numSlots;
      slots := new seq<TimingEntry>[numSlots](_ => []);
      timers := new SafeMap.SafeMap<Key, PositionEntry>();
      tickedPos := numSlots - 1;
      entries, positions := {}, {};
    }

    // ---------------------------------------------------------- one write at a time

    method MarkRemoved(e: TimingEntry)
      requires Shaped() && e in entries
      modifies e`removed
      ensures Shaped() && State() == old(State()).(cells := old(State()).cells[e := old(e.Cell()).(removed := true)])
    {
      e.removed := true;
    }

    method SetCircle(e: TimingEntry, circle: int, diff: int)
      requires Shaped() && e in entries
      modifies e`circle, e`diff
      ensures Shaped()
      ensures State() == old(State()).(cells := old(State()).cells[e := old(e.Cell()).(circle := circle, diff := diff)])
    {
      e.circle, e.diff := circle, diff;
    }

    method SetEntryValue(e: TimingEntry, value: Val)
      requires Shaped() && e in entries
      modifies e`value
      ensures Shaped() && State() == old(State()).(cells := old(State()).cells[e := old(e.Cell()).(value := value)])
    {
      e.value := value;
    }

    method NewEntry(key: Key, value: Val, circle: int) returns (e: TimingEntry)
      requires Shaped()
      modifies this`entries
      ensures Shaped() && e.key == key && fresh(e) && entries == old(entries) + {e} && e !in old(entries)
      ensures State() == old(State()).(cells := old(State()).cells[e := Entry(key, value, circle, 0, false)])
    {
      e := new TimingEntry(key, value, circle);
      entries := entries + {e};
    }

    method DeleteKey(key: Key)
      requires Shaped()
      modifies timers
      ensures Shaped() && State() == old(State()).(index := old(State()).index - {key})
    {
      timers.Del(key);
    }

    method PushBack(pos: int, e: TimingEntry)
      requires Shaped() && 0 <= pos < numSlots
      modifies slots
      ensures Shaped() && State() == old(State()).(slots := old(State()).slots[pos := old(State()).slots[pos] + [e]])
    {
      slots[pos] := slots[pos] + [e];
    }

    /** Leaves a slot without its a-th entry. */
    method RemoveAt(pos: int, a: nat)
      requires Shaped() && 0 <= pos < numSlots && a < |slots[pos]|
      modifies slots
      ensures Shaped() && State() == old(State()).(slots := old(State()).slots[pos := Drop(old(State()).slots[pos], a)])
    {
      slots[pos] := slots[pos][..a] + slots[pos][a + 1..];
    }

    method SetTickedPos(pos: int)
      requires Shaped()
      modifies this`tickedPos
      ensures Shaped() && State() == old(State()).(ticked := pos)
    {
      tickedPos := pos;
    }

    method MovePosition(timer: PositionEntry, pos: int, e: TimingEntry)
      requires Shaped() && e.key in timers.Contents() && timers.Contents()[e.key] == timer
      modifies timer
      ensures Shaped() && State() == old(State()).(index := old(State()).index[e.key := Place(pos, e)])
    {
      timer.item := e;
      timer.pos := pos;
    }

    method AddPosition(pos: int, e: TimingEntry)
      requires Shaped()
      modifies timers, this`positions
      ensures Shaped() && State() == old(State()).(index := old(State()).index[e.key := Place(pos, e)])
      ensures forall p | p in positions :: p in old(positions) || fresh(p)
    {
      var timer := NewPosition(pos, e);
      timers.Set(e.key, timer);
    }

    method NewPosition(pos: int, e: TimingEntry) returns (timer: PositionEntry)
      requires Shaped()
      modifies this`positions
      ensures Shaped() && State() == old(State()) && fresh(timer) && positions == old(positions) + {timer}
      ensures timer.pos == pos && timer.item == e && forall k | k in timers.Contents() :: timers.Contents()[k] != timer
    {
      timer := new PositionEntry(pos, e);
      positions := positions + {timer};
    }

    method SetTimerPosition(pos: int, e: TimingEntry)
      requires Shaped()
      modifies timers, positions, this`positions
      ensures Shaped() && State() == old(State()).(index := old(State()).index[e.key := Place(pos, e)])
      ensures forall p | p in positions :: p in old(positions) || fresh(p)
    {
      var val := timers.Get(e.key);
      if val.Some? {
        MovePosition(val.value, pos, e);
      } else {
        AddPosition(pos, e);
      }
    }

    // ---------------------------------------------------------- operations

    method GetPositionAndCircle(delay: int) returns (pos: int, circle: int)
      requires Valid() && delay >= interval
      ensures delay / interval >= 1
      ensures pos == Position(tickedPos, delay / interval, numSlots) && circle == Circle(delay / interval, numSlots)
    {
      var steps := delay / interval;
      pos := (tickedPos + steps) % numSlots;
      circle := (steps - 1) / numSlots;
    }

    /** What the index entry of a key says of the wheel as a value. */
    lemma Resolve(key: Key)
      requires Valid()
      ensures var w := State();
              && w.n == numSlots > 0 && w.ticked == tickedPos && 0 <= tickedPos < numSlots && interval > 0
              && w.slots == slots[..] && w.cells == Cells() && w.cells.Keys == entries && WheelModel.Valid(w)
              && (key in w.index <==> key in timers.Contents())
      ensures key in timers.Contents() ==>
                var w, t := State(), timers.Contents()[key];
                && t in positions && t.item in entries && t.item in w.cells && w.cells[t.item] == t.item.Cell()
                && w.index[key] == Place(t.pos, t.item) && 0 <= t.pos < numSlots && t.item.key == key
                && Timers(w)[key].value == t.item.value
    {
    }

    method RemoveTask(key: Key)
      requires Valid()
      modifies timers, entries
      ensures Valid() && Timers(State()) == Timers(old(State())) - {key}
    {
      hide WheelModel.Valid, Timers, Indexed, Slotted;
      Resolve(key);
      RemoveMeans(State(), key);
      var val := timers.Get(key);
      if val.None? {
        return;
      }
      MarkRemoved(val.value.item);
      DeleteKey(key);
    }

    method Reinsert(timer: PositionEntry, key: Key, pos: int)
      requires Valid() && key in timers.Contents() && timers.Contents()[key] == timer && 0 <= pos < numSlots
      modifies this`entries, this`positions, slots, timers, entries, positions
      ensures Valid() && key in old(State()).index && 0 <= old(tickedPos) < numSlots
      ensures Timers(State()) == Timers(old(State()))[key := Timer(Remaining(pos, old(tickedPos), numSlots, 0, 0),
                                                                   Timers(old(State()))[key].value)]
      ensures forall e | e in entries :: e in old(entries) || fresh(e)
      ensures forall p | p in positions :: p in old(positions) || fresh(p)
    {
      hide WheelModel.Valid, Timers, Indexed, Slotted, State, Shaped, Cells;
      ghost var w := State();
      Resolve(key);
      MarkRemoved(timer.item);
      var newItem := NewEntry(key, timer.item.value, 0);
      ReinsertMeans(w, key, pos, newItem);
      PushBack(pos, newItem);
      SetTimerPosition(pos, newItem);
    }

    /** The entry stays in its slot, with a new circle and diff. */
    method Stay(timer: PositionEntry, key: Key, circle: int, diff: int)
      requires Valid() && key in timers.Contents() && timers.Contents()[key] == timer && circle >= 0
               && 0 <= diff < numSlots
      modifies entries
      ensures Valid() && key in old(State()).index && 0 <= old(tickedPos) < numSlots && 0 <= old(timer.pos) < numSlots
      ensures Timers(State())
              == Timers(old(State()))[key := Timer(Remaining(old(timer.pos), old(tickedPos), numSlots, circle, diff),
                                                   Timers(old(State()))[key].value)]
    {
      hide WheelModel.Valid, Timers, Indexed, Slotted;
      Resolve(key);
      ResetMeans(State(), key, circle, diff);
      SetCircle(timer.item, circle, diff);
    }

    /** Moves the timer of a key to at least one interval from now. */
    method Reschedule(timer: PositionEntry, key: Key, delay: int)
      requires Valid() && key in timers.Contents() && timers.Contents()[key] == timer && delay >= interval
      modifies this`entries, this`positions, slots, timers, entries, positions
      ensures Valid() && key in old(State()).index && 0 <= old(tickedPos) < numSlots && 0 <= old(timer.pos) < numSlots
      ensures delay / interval >= 1
      ensures Timers(State())
              == Timers(old(State()))[key := Timer(MovedRemaining(old(tickedPos), numSlots, old(timer.pos),
                                                                  delay / interval),
                                                   Timers(old(State()))[key].value)]
      ensures forall e | e in entries :: e in old(entries) || fresh(e)
      ensures forall p | p in positions :: p in old(positions) || fresh(p)
    {
      hide WheelModel.Valid, Timers, Indexed, Slotted;
      Resolve(key);
      var pos, circle := GetPositionAndCircle(delay);
      hide State, Shaped, Valid;
      if pos >= timer.pos {
        Stay(timer, key, circle, pos - timer.pos);
      } else if circle > 0 {
        Stay(timer, key, circle - 1, numSlots + pos - timer.pos);
      } else {
        Reinsert(timer, key, pos);
      }
    }

    /** Moves the timer of a key.  It then fires after the delay, give or take Drift turns of the wheel.
        A delay below one interval leaves the timer as it is and executes its task at once. */
    method MoveTask(key: Key, delay: int) returns (fired: seq<Task>)
      requires Valid() && delay > 0
      modifies this`entries, this`positions, slots, timers, entries, positions
      ensures Valid() && delay / interval >= 0
      ensures key !in old(timers.Contents()) || delay < interval ==> State() == old(State())
      ensures key !in old(timers.Contents()) || delay >= interval ==> fired == []
      ensures key in old(timers.Contents()) && delay < interval ==>
                key in old(State()).index && fired == [Task(key, Timers(old(State()))[key].value)]
      ensures key in old(timers.Contents()) && delay >= interval ==>
                var w, steps := old(State()), delay / interval;
                steps >= 1 && key in w.index && Timers(State()) == MovedTimers(w, key, steps, Timers(w)[key].value)
      ensures forall e | e in entries :: e in old(entries) || fresh(e)
      ensures forall p | p in positions :: p in old(positions) || fresh(p)
    {
      hide *;
      fired := [];
      ResolveParts();
      var val := timers.Get(key);
      if val.None? {
        return;
      }
      var timer := val.value;
      if delay < interval {
        Resolve(key);
        fired := [Task(timer.item.key, timer.item.value)];
        return;
      }
      MoveIndexed(timer, key, delay, delay / interval);
    }

    lemma ResolveParts()
      requires Valid()
      ensures interval > 0 && timers.Valid()
    {
    }

    method MoveIndexed(timer: PositionEntry, key: Key, delay: int, ghost steps: int)
      requires Valid() && key in timers.Contents() && timers.Contents()[key] == timer && delay >= interval
      requires steps == delay / interval
      modifies this`entries, this`positions, slots, timers, entries, positions
      ensures Valid() && steps >= 1 && key in old(State()).index
      ensures Timers(State()) == MovedTimers(old(State()), key, steps, Timers(old(State()))[key].value)
      ensures forall e | e in entries :: e in old(entries) || fresh(e)
      ensures forall p | p in positions :: p in old(positions) || fresh(p)
    {
      hide WheelModel.Valid, Timers, Indexed, Slotted, State, Shaped, Cells;
      Resolve(key);
      MoveDrifts(tickedPos, numSlots, timer.pos, steps);
      Reschedule(timer, key, delay);
    }

    /** A delay below one interval counts as one interval. */
    function Steps(delay: int): int
      requires interval > 0
    {
      (if delay < interval then interval else delay) / interval
    }

    /** A timer for a new key fires after exactly Steps(delay) ticks; one for a key that is set gets the value and
        is moved. */
    method SetTask(key: Key, value: Val, delay: int)
      requires Valid() && delay > 0
      modifies this`entries, this`positions, slots, timers, entries, positions
      ensures Valid() && Steps(delay) >= 1
      ensures key !in old(timers.Contents()) ==>
                Timers(State()) == Timers(old(State()))[key := Timer(Steps(delay), value)]
      ensures key in old(timers.Contents()) ==>
                key in old(State()).index && Timers(State()) == MovedTimers(old(State()), key, Steps(delay), value)
      ensures forall e | e in entries :: e in old(entries) || fresh(e)
      ensures forall p | p in positions :: p in old(positions) || fresh(p)
    {
      hide *;
      ResolveParts();
      StepsOf(delay);
      var val := timers.Get(key);
      var d := if delay < interval then interval else delay;
      if val.Some? {
        SetAndMove(val.value, key, value, d, Steps(delay));
      } else {
        InsertNew(key, value, d, Steps(delay));
      }
    }

    lemma StepsOf(delay: int)
      requires interval > 0
      ensures Steps(delay) == (if delay < interval then interval else delay) / interval
    {
    }

    method SetAndMove(timer: PositionEntry, key: Key, value: Val, delay: int, ghost steps: int)
      requires Valid() && key in timers.Contents() && timers.Contents()[key] == timer && delay >= interval
      requires steps == delay / interval
      modifies this`entries, this`positions, slots, timers, entries, positions
      ensures Valid() && steps >= 1
      ensures key in old(State()).index && Timers(State()) == MovedTimers(old(State()), key, steps, value)
      ensures forall e | e in entries :: e in old(entries) || fresh(e)
      ensures forall p | p in positions :: p in old(positions) || fresh(p)
    {
      hide WheelModel.Valid, Timers, Indexed, Slotted, State, Shaped, Cells;
      Resolve(key);
      ghost var w := State();
      SetValueMeans(w, key, value);
      SetEntryValue(timer.item, value);
      assert Valid();
      Resolve(key);
      ghost var w1 := State();
      var fired := MoveTask(key, delay);
      SetTwice(Timers(w), key, Timers(w1)[key], Timers(State())[key]);
    }

    method InsertNew(key: Key, value: Val, delay: int, ghost steps: int)
      requires Valid() && key !in timers.Contents() && delay >= interval && steps == delay / interval
      modifies this`entries, this`positions, slots, timers, positions
      ensures Valid() && steps >= 1
      ensures Timers(State()) == Timers(old(State()))[key := Timer(steps, value)]
      ensures forall e | e in entries :: e in old(entries) || fresh(e)
      ensures forall p | p in positions :: p in old(positions) || fresh(p)
    {
      hide WheelModel.Valid, Timers, Indexed, Slotted, State, Shaped, Cells;
      Resolve(key);
      var pos, circle := GetPositionAndCircle(delay);
      ghost var w := State();
      var task := NewEntry(key, value, circle);
      InsertMeans(w, key, value, steps, task);
      PushBack(pos, task);
      SetTimerPosition(pos, task);
    }

    /** What one entry of a slot is to the wheel as a value. */
    lemma ResolveEntry(a: nat)
      requires Valid() && a < |slots[tickedPos]|
      ensures var w, e := State(), slots[tickedPos][a];
              && w.n == numSlots == slots.Length && w.ticked == tickedPos && 0 <= tickedPos < numSlots
              && w.slots == slots[..] && e in entries && e in w.cells && w.cells[e] == e.Cell()
              && (!e.removed ==> 0 <= e.diff < numSlots)
    {
      assert Slotted(State(), tickedPos, slots[tickedPos][a]);
      if !slots[tickedPos][a].removed {
        assert Indexed(State(), slots[tickedPos][a].key);
      }
    }

    /** Deals with the entry at position a of the slot just reached. */
    method ScanEntry(a: nat) returns (next: nat, fired: seq<Task>)
      requires Valid() && a < |slots[tickedPos]|
      modifies slots, timers, entries, positions, this`positions
      ensures Shaped() && Scanned(State(), next, fired) == ScanOne(old(State()), a)
      ensures forall p | p in positions :: p in old(positions) || fresh(p)
    {
      hide WheelModel.Valid, Timers, Indexed, Slotted, State, Shaped, Cells;
      ResolveEntry(a);
      var task := slots[tickedPos][a];
      next, fired := a, [];
      if task.removed {
        RemoveAt(tickedPos, a);
      } else if task.circle > 0 {
        SetCircle(task, task.circle - 1, task.diff);
        next := a + 1;
      } else if task.diff > 0 {
        RemoveAt(tickedPos, a);
        var pos := (tickedPos + task.diff) % numSlots;
        PushBack(pos, task);
        SetTimerPosition(pos, task);
        SetCircle(task, task.circle, 0);
      } else {
        fired := [Task(task.key, task.value)];
        RemoveAt(tickedPos, a);
        DeleteKey(task.key);
      }
    }

    /** One tick: the timers that stand at 1 fire, each once and with its value; all others come one closer. */
    method OnTick() returns (tasks: seq<Task>)
      requires Valid()
      modifies this`tickedPos, this`positions, slots, timers, entries, positions
      ensures Valid() && Ticked(Timers(old(State())), Timers(State()), tasks)
      ensures forall p | p in positions :: p in old(positions) || fresh(p)
    {
      hide WheelModel.Valid, Timers, Indexed, Slotted, State, Shaped, Cells, Tick, Scan, ScanOne;
      ghost var w := State();
      ResolveWheel();
      TickMeans(w);
      TurnKeepsValid(w);
      SetTickedPos((tickedPos + 1) % numSlots);
      ghost var w1 := State();
      TickIsScan(w);
      ResolveWheel();
      var a: nat := 0;
      tasks := [];
      assert [] + Scan(w1, 0).1 == Scan(w1, 0).1;
      while a < |slots[tickedPos]|
        invariant Valid() && State().slots == slots[..] && State().ticked == tickedPos && 0 <= tickedPos < slots.Length
        invariant a <= |slots[tickedPos]|
        invariant Scan(w1, 0) == (Scan(State(), a).0, tasks + Scan(State(), a).1)
        invariant forall p | p in positions :: p in old(positions) || fresh(p)
        decreases |slots[tickedPos]| - a
      {
        ScanUnfolds(State(), a);
        ghost var before := tasks;
        var fired;
        a, fired := ScanEntry(a);
        ResolveWheel();
        tasks := tasks + fired;
        assert before + (fired + Scan(State(), a).1) == tasks + Scan(State(), a).1;
      }
      assert tasks + [] == tasks;
      ScanDone(State(), a);
    }

    lemma ResolveWheel()
      requires Valid()
      ensures WheelModel.Valid(State()) && State().n == numSlots == slots.Length && State().slots == slots[..]
      ensures State().ticked == tickedPos && 0 <= tickedPos < numSlots
    {
    }
  }
}
