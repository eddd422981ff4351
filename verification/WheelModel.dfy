/** The state of a timing wheel as a value, what its operations do to it, and what
    they mean for whoever set a timer. */
module WheelModel {
  import opened Sequences
  import opened WheelMath

  type Key(==, !new)
  type Val(!new)

  datatype Entry = Entry(key: Key, value: Val, circle: int, diff: int, removed: bool)

  /** The slot and the entry that the index has for a key. */
  datatype Place<Ref> = Place(pos: int, item: Ref)

  /** Slots hold references to entries; the index refers to the same entries. */
  datatype Wheel<Ref(==)> = Wheel(
    n: int,
    ticked: int,
    slots: seq<seq<Ref>>,
    cells: map<Ref, Entry>,
    index: map<Key, Place<Ref>>)

  /** What the owner of a timer sees: it fires after `remaining` ticks, with `value`. */
  datatype Timer = Timer(remaining: int, value: Val)

  datatype Task = Task(key: Key, value: Val)

  /** What the index has for a key is a live entry of that key, in the slot recorded. */
  ghost predicate Indexed<Ref>(w: Wheel<Ref>, k: Key)
  {
    && k in w.index && 0 <= w.index[k].pos < w.n == |w.slots|
    && w.index[k].item in w.slots[w.index[k].pos] && w.index[k].item in w.cells
    && var e := w.cells[w.index[k].item];
       e.key == k && !e.removed && e.circle >= 0 && 0 <= e.diff < w.n
  }

  /** An entry in a slot is removed, or it is what the index has for its key. */
  ghost predicate Slotted<Ref>(w: Wheel<Ref>, p: int, r: Ref)
  {
    r in w.cells && (!w.cells[r].removed ==> w.cells[r].key in w.index && w.index[w.cells[r].key] == Place(p, r))
  }

  /** The index and the live entries of the slots are in one-to-one correspondence. */
  ghost predicate Valid<Ref>(w: Wheel<Ref>)
  {
    && w.n > 0 && |w.slots| == w.n && 0 <= w.ticked < w.n
    && (forall k | k in w.index :: Indexed(w, k))
    && (forall p, r | 0 <= p < w.n && r in w.slots[p] :: Slotted(w, p, r))
    && (forall p | 0 <= p < w.n :: NoDuplicates(w.slots[p]))
  }

  ghost function TimerOf<Ref>(w: Wheel<Ref>, k: Key): Timer
    requires Indexed(w, k) && 0 <= w.ticked < w.n
  {
    var e := w.cells[w.index[k].item];
    Timer(Remaining(w.index[k].pos, w.ticked, w.n, e.circle, e.diff), e.value)
  }

  ghost function Timers<Ref>(w: Wheel<Ref>): map<Key, Timer>
    requires Valid(w)
  {
    map k | k in w.index :: TimerOf(w, k)
  }

  // ------------------------------------------------------------ operations

  function Push<Ref>(w: Wheel<Ref>, pos: int, r: Ref, e: Entry): Wheel<Ref>
    requires 0 <= pos < |w.slots|
  {
    w.(slots := w.slots[pos := w.slots[pos] + [r]], cells := w.cells[r := e], index := w.index[e.key := Place(pos, r)])
  }

  ghost function Remove<Ref>(w: Wheel<Ref>, key: Key): Wheel<Ref>
    requires Valid(w)
  {
    if key !in w.index then w
    else
      var r := w.index[key].item;
      assert Indexed(w, key);
      w.(cells := w.cells[r := w.cells[r].(removed := true)], index := w.index - {key})
  }

  /** A timer whose key is set already gets the value and is moved. */
  ghost function SetValue<Ref>(w: Wheel<Ref>, key: Key, value: Val): Wheel<Ref>
    requires Valid(w) && key in w.index
  {
    assert Indexed(w, key);
    var r := w.index[key].item;
    w.(cells := w.cells[r := w.cells[r].(value := value)])
  }

  ghost function Insert<Ref>(w: Wheel<Ref>, key: Key, value: Val, steps: int, spare: Ref): Wheel<Ref>
    requires Valid(w) && steps >= 1
  {
    Push(w, Position(w.ticked, steps, w.n), spare, Entry(key, value, Circle(steps, w.n), 0, false))
  }

  // ------------------------------------------------------------ what they mean

  lemma RemoveMeans<Ref>(w: Wheel<Ref>, key: Key)
    requires Valid(w)
    ensures Valid(Remove(w, key)) && Timers(Remove(w, key)) == Timers(w) - {key}
  {
  }

  lemma SetValueMeans<Ref>(w: Wheel<Ref>, key: Key, value: Val)
    requires Valid(w) && key in w.index
    ensures Valid(SetValue(w, key, value))
    ensures Timers(SetValue(w, key, value)) == Timers(w)[key := Timer(Timers(w)[key].remaining, value)]
  {
  }

  lemma InsertMeans<Ref>(w: Wheel<Ref>, key: Key, value: Val, steps: int, spare: Ref)
    requires Valid(w) && steps >= 1 && key !in w.index && spare !in w.cells
    ensures var w' := Insert(w, key, value, steps, spare);
            Valid(w') && Timers(w') == Timers(w)[key := Timer(steps, value)]
  {
    RemainingNew(w.ticked, steps, w.n);
    PushMeans(w, Position(w.ticked, steps, w.n), spare, Entry(key, value, Circle(steps, w.n), 0, false));
  }

  /** A new entry for a key that the index does not have. */
  lemma PushMeans<Ref>(w: Wheel<Ref>, pos: int, spare: Ref, e: Entry)
    requires Valid(w) && 0 <= pos < w.n && e.key !in w.index && spare !in w.cells
    requires !e.removed && e.circle >= 0 && 0 <= e.diff < w.n
    ensures var w' := Push(w, pos, spare, e);
            && Valid(w')
            && Timers(w') == Timers(w)[e.key := Timer(Remaining(pos, w.ticked, w.n, e.circle, e.diff), e.value)]
  {
    var w' := Push(w, pos, spare, e);
    assert spare in w'.slots[pos];
    forall p, r | 0 <= p < w.n && r in w.slots[p] ensures r != spare {
      assert Slotted(w, p, r);
    }
    forall k | k in w'.index
      ensures Indexed(w', k) && (k != e.key ==> TimerOf(w', k) == TimerOf(w, k))
    {
      if k != e.key {
        assert Indexed(w, k);
      }
    }
    forall p, r | 0 <= p < w'.n && r in w'.slots[p] ensures Slotted(w', p, r) {
      if r != spare {
        assert Slotted(w, p, r);
      }
    }
    forall p | 0 <= p < w'.n ensures NoDuplicates(w'.slots[p]) {
      assert NoDuplicates(w.slots[p]);
      if p == pos {
        SnocNoDuplicates(w.slots[p], spare);
      }
    }
  }

  /** New values for circle and diff of an entry that stays in its slot. */
  ghost function Reset<Ref>(w: Wheel<Ref>, key: Key, circle: int, diff: int): Wheel<Ref>
    requires Valid(w) && key in w.index
  {
    assert Indexed(w, key);
    var r := w.index[key].item;
    w.(cells := w.cells[r := w.cells[r].(circle := circle, diff := diff)])
  }

  lemma ResetMeans<Ref>(w: Wheel<Ref>, key: Key, circle: int, diff: int)
    requires Valid(w) && key in w.index && circle >= 0 && 0 <= diff < w.n
    ensures var w' := Reset(w, key, circle, diff);
            && Valid(w')
            && Timers(w') == Timers(w)[key := Timer(Remaining(w.index[key].pos, w.ticked, w.n, circle, diff),
                                                    Timers(w)[key].value)]
  {
  }

  lemma SetTwice<K, V>(m: map<K, V>, k: K, u: V, v: V)
    ensures m[k := u][k := v] == m[k := v]
  {
  }

  lemma RemoveThenSet<K, V>(m: map<K, V>, k: K, v: V)
    ensures (m - {k})[k := v] == m[k := v]
  {
  }

  /** The old entry is marked removed and a new one takes its place. */
  lemma ReinsertMeans<Ref>(w: Wheel<Ref>, key: Key, pos: int, spare: Ref)
    requires Valid(w) && 0 <= pos < w.n && key in w.index && spare !in w.cells && w.index[key].item in w.cells
    ensures var e := w.cells[w.index[key].item];
            var w' := Push(w.(cells := w.cells[w.index[key].item := e.(removed := true)]), pos, spare,
                           Entry(key, e.value, 0, 0, false));
            && Valid(w')
            && Timers(w') == Timers(w)[key := Timer(Remaining(pos, w.ticked, w.n, 0, 0), Timers(w)[key].value)]
  {
    var value := w.cells[w.index[key].item].value;
    RemoveMeans(w, key);
    var w1 := Remove(w, key);
    PushMeans(w1, pos, spare, Entry(key, value, 0, 0, false));
    RemoveThenSet(w.index, key, Place(pos, spare));
    RemoveThenSet(Timers(w), key, Timer(Remaining(pos, w.ticked, w.n, 0, 0), value));
    assert Indexed(w, key);
  }

  /** The timers once that of `key` has been moved to `steps` ticks from now: it fires then, give or take Drift
      turns. */
  ghost function MovedTimers<Ref>(w: Wheel<Ref>, key: Key, steps: int, value: Val): map<Key, Timer>
    requires Valid(w) && key in w.index && steps >= 1
  {
    assert Indexed(w, key);
    var drift := Drift(w.ticked, w.index[key].pos, Position(w.ticked, steps, w.n), Circle(steps, w.n));
    Timers(w)[key := Timer(steps + w.n * drift, value)]
  }

  // ------------------------------------------------------------ ticks

  /** One step of the scan of the slot just reached: the entry at position a. */
  datatype Scanned<Ref> = Scanned(w: Wheel<Ref>, a: nat, fired: seq<Task>)

  ghost function Drop<T>(s: seq<T>, a: nat): seq<T>
    requires a < |s|
  {
    s[..a] + s[a + 1..]
  }

  ghost function ScanOne<Ref>(w: Wheel<Ref>, a: nat): Scanned<Ref>
    requires Valid(w) && a < |w.slots[w.ticked]|
  {
    var list := w.slots[w.ticked];
    var r := list[a];
    assert Slotted(w, w.ticked, r);
    var e := w.cells[r];
    var dropped := w.(slots := w.slots[w.ticked := Drop(list, a)]);
    if e.removed then Scanned(dropped, a, [])
    else if e.circle > 0 then Scanned(w.(cells := w.cells[r := e.(circle := e.circle - 1)]), a + 1, [])
    else if e.diff > 0 then
      Scanned(Push(dropped, Position(w.ticked, e.diff, w.n), r, e.(diff := 0)), a, [])
    else Scanned(dropped.(index := w.index - {e.key}), a, [Task(e.key, e.value)])
  }

  /** The entry of a key is one that the scan has not come to yet. */
  ghost predicate Pending<Ref>(w: Wheel<Ref>, a: nat, k: Key)
    requires Indexed(w, k) && 0 <= w.ticked < w.n && a <= |w.slots[w.ticked]|
  {
    w.index[k].pos == w.ticked && w.index[k].item in w.slots[w.ticked][a..]
  }

  /** The timers as they are once the scan is over; those that fire stand at 0. */
  ghost function DueOf<Ref>(w: Wheel<Ref>, a: nat, k: Key): Timer
    requires Indexed(w, k) && 0 <= w.ticked < w.n && a <= |w.slots[w.ticked]|
  {
    var t := TimerOf(w, k);
    if Pending(w, a, k) then t.(remaining := t.remaining - w.n) else t
  }

  ghost function Due<Ref>(w: Wheel<Ref>, a: nat): map<Key, Timer>
    requires Valid(w) && a <= |w.slots[w.ticked]|
  {
    map k | k in w.index :: DueOf(w, a, k)
  }

  lemma SuffixMembers<T>(s: seq<T>, a: nat)
    requires NoDuplicates(s) && a < |s|
    ensures forall x :: x in s[a + 1..] <==> x in s[a..] && x != s[a]
    ensures s[a] !in s[..a]
  {
  }

  lemma DropNoDuplicates<T>(s: seq<T>, a: nat)
    requires NoDuplicates(s) && a < |s|
    ensures NoDuplicates(Drop(s, a))
    ensures forall x :: x in Drop(s, a) <==> x in s && x != s[a]
    ensures Drop(s, a)[a..] == s[a..][1..]
    ensures forall x :: x in Drop(s, a)[a..] <==> x in s[a..] && x != s[a]
  {
    SuffixMembers(s, a);
    assert Drop(s, a)[a..] == s[a + 1..] == s[a..][1..];
    assert s == s[..a] + [s[a]] + s[a + 1..];
  }

  /** What one step of the scan keeps: the timers as they will be, but for the one that fires. */
  ghost predicate ScanKeeps<Ref>(w: Wheel<Ref>, a: nat, s: Scanned<Ref>)
    requires Valid(w) && a <= |w.slots[w.ticked]|
  {
    && Valid(s.w) && s.w.n == w.n && s.w.ticked == w.ticked && s.a <= |s.w.slots[w.ticked]|
    && |s.w.slots[w.ticked]| - s.a == |w.slots[w.ticked]| - a - 1
    && match |s.fired| {
         case 0 => Due(s.w, s.a) == Due(w, a)
         case 1 => var t := s.fired[0];
                   && t.key in w.index && Due(w, a)[t.key] == Timer(0, t.value)
                   && Due(s.w, s.a) == Due(w, a) - {t.key}
         case _ => false
       }
  }

  /** An entry that was removed leaves its slot. */
  lemma ScanRemoved<Ref>(w: Wheel<Ref>, a: nat)
    requires Valid(w) && a < |w.slots[w.ticked]|
    requires w.slots[w.ticked][a] in w.cells && w.cells[w.slots[w.ticked][a]].removed
    ensures ScanKeeps(w, a, ScanOne(w, a))
  {
    var list, w' := w.slots[w.ticked], ScanOne(w, a).w;
    DropNoDuplicates(list, a);
    forall k | k in w'.index ensures Indexed(w', k) && DueOf(w', a, k) == DueOf(w, a, k) {
      assert Indexed(w, k);
    }
    forall p, r | 0 <= p < w'.n && r in w'.slots[p] ensures Slotted(w', p, r) {
      assert Slotted(w, p, r);
    }
  }

  /** An entry with turns left stays, with one turn less. */
  lemma ScanCircle<Ref>(w: Wheel<Ref>, a: nat)
    requires Valid(w) && a < |w.slots[w.ticked]| && w.slots[w.ticked][a] in w.cells
    requires var e := w.cells[w.slots[w.ticked][a]]; !e.removed && e.circle > 0
    ensures ScanKeeps(w, a, ScanOne(w, a))
  {
    var list, w' := w.slots[w.ticked], ScanOne(w, a).w;
    var r0 := list[a];
    assert Slotted(w, w.ticked, r0);
    var e := w.cells[r0];
    assert (e.circle - 1) * w.n == e.circle * w.n - w.n;
    assert list[a..] == [r0] + list[a + 1..];
    forall k | k in w'.index ensures Indexed(w', k) && DueOf(w', a + 1, k) == DueOf(w, a, k) {
      assert Indexed(w, k);
    }
    forall p, r | 0 <= p < w'.n && r in w'.slots[p] ensures Slotted(w', p, r) {
      assert Slotted(w, p, r);
    }
  }

  /** A step that fires nothing keeps the timers if it keeps each. */
  lemma KeepsEach<Ref>(w: Wheel<Ref>, a: nat, w': Wheel<Ref>, a': nat)
    requires Valid(w) && a < |w.slots[w.ticked]|
    requires w'.n == w.n == |w'.slots| && w'.ticked == w.ticked && w'.index.Keys == w.index.Keys
    requires a' <= |w'.slots[w.ticked]| && |w'.slots[w.ticked]| - a' == |w.slots[w.ticked]| - a - 1
    requires forall k | k in w'.index :: Indexed(w', k)
    requires forall k | k in w'.index :: Indexed(w, k) && DueOf(w', a', k) == DueOf(w, a, k)
    requires forall p, r | 0 <= p < w'.n && r in w'.slots[p] :: Slotted(w', p, r)
    requires forall p | 0 <= p < w'.n :: NoDuplicates(w'.slots[p])
    ensures ScanKeeps(w, a, Scanned(w', a', []))
  {
    hide Indexed, DueOf, Slotted, NoDuplicates;
    assert Due(w', a') == Due(w, a);
  }

  /** An entry that waits for a later slot goes there. */
  lemma ScanShift<Ref>(w: Wheel<Ref>, a: nat)
    requires Valid(w) && a < |w.slots[w.ticked]| && w.slots[w.ticked][a] in w.cells
    requires var e := w.cells[w.slots[w.ticked][a]]; !e.removed && e.circle == 0 && e.diff > 0
    ensures ScanKeeps(w, a, ScanOne(w, a))
  {
    var list, w' := w.slots[w.ticked], ScanOne(w, a).w;
    var r0 := list[a];
    assert Slotted(w, w.ticked, r0);
    var e := w.cells[r0];
    assert Indexed(w, e.key);
    RemainingShift(w.ticked, w.n, e.diff);
    var pos := Position(w.ticked, e.diff, w.n);
    DropNoDuplicates(list, a);
    forall p | 0 <= p < w.n && r0 in w.slots[p] ensures p == w.ticked {
      assert Slotted(w, p, r0);
    }
    SnocNoDuplicates(w.slots[pos], r0);
    assert r0 in w'.slots[pos] && w'.slots[w.ticked] == Drop(list, a);
    assert Indexed(w', e.key) && DueOf(w', a, e.key) == DueOf(w, a, e.key);
    forall k | k in w'.index && k != e.key ensures Indexed(w', k) && DueOf(w', a, k) == DueOf(w, a, k) {
      assert Indexed(w, k);
    }
    forall p, r | 0 <= p < w'.n && r in w'.slots[p] ensures Slotted(w', p, r) {
      if r != r0 {
        assert Slotted(w, p, r);
      }
    }
    forall p | 0 <= p < w'.n ensures NoDuplicates(w'.slots[p]) {
      assert NoDuplicates(w.slots[p]);
    }
    hide Indexed, DueOf, Slotted, NoDuplicates, ScanKeeps;
    KeepsEach(w, a, w', a);
  }

  /** An entry that is due leaves its slot and the index, and fires. */
  lemma ScanFire<Ref>(w: Wheel<Ref>, a: nat)
    requires Valid(w) && a < |w.slots[w.ticked]| && w.slots[w.ticked][a] in w.cells
    requires var e := w.cells[w.slots[w.ticked][a]]; !e.removed && e.circle == 0 && e.diff == 0
    ensures ScanKeeps(w, a, ScanOne(w, a))
  {
    var list, w' := w.slots[w.ticked], ScanOne(w, a).w;
    var r0 := list[a];
    assert Slotted(w, w.ticked, r0);
    var e := w.cells[r0];
    assert Indexed(w, e.key) && Pending(w, a, e.key);
    DropNoDuplicates(list, a);
    forall k | k in w'.index ensures Indexed(w', k) && DueOf(w', a, k) == DueOf(w, a, k) {
      assert Indexed(w, k);
    }
    forall p, r | 0 <= p < w'.n && r in w'.slots[p] ensures Slotted(w', p, r) {
      assert Slotted(w, p, r);
    }
  }

  lemma ScanStep<Ref>(w: Wheel<Ref>, a: nat)
    requires Valid(w) && a < |w.slots[w.ticked]|
    ensures ScanKeeps(w, a, ScanOne(w, a))
  {
    assert Slotted(w, w.ticked, w.slots[w.ticked][a]);
    var e := w.cells[w.slots[w.ticked][a]];
    if !e.removed {
      assert Indexed(w, e.key);
    }
    hide ScanKeeps;
    if e.removed {
      ScanRemoved(w, a);
    } else if e.circle > 0 {
      ScanCircle(w, a);
    } else if e.diff > 0 {
      ScanShift(w, a);
    } else {
      ScanFire(w, a);
    }
  }

  /** The scan of the slot just reached, from position a on, and the tasks it fires. */
  ghost function Scan<Ref>(w: Wheel<Ref>, a: nat): (r: (Wheel<Ref>, seq<Task>))
    requires Valid(w) && a <= |w.slots[w.ticked]|
    decreases |w.slots[w.ticked]| - a
  {
    if a == |w.slots[w.ticked]| then (w, [])
    else
      ScanStep(w, a);
      var s := ScanOne(w, a);
      var (w', fired) := Scan(s.w, s.a);
      (w', s.fired + fired)
  }

  lemma ScanUnfolds<Ref>(w: Wheel<Ref>, a: nat)
    requires Valid(w) && a < |w.slots[w.ticked]|
    ensures var s := ScanOne(w, a);
            && Valid(s.w) && s.w.n == w.n && s.w.ticked == w.ticked && s.a <= |s.w.slots[w.ticked]|
            && |s.w.slots[w.ticked]| - s.a == |w.slots[w.ticked]| - a - 1
            && Scan(w, a) == (Scan(s.w, s.a).0, s.fired + Scan(s.w, s.a).1)
  {
    ScanStep(w, a);
  }

  lemma ScanDone<Ref>(w: Wheel<Ref>, a: nat)
    requires Valid(w) && a == |w.slots[w.ticked]|
    ensures Scan(w, a) == (w, [])
  {
  }

  ghost function Keys(tasks: seq<Task>): set<Key>
  {
    set t | t in tasks :: t.key
  }

  /** The tasks fired are those that stand at 0, each once; their timers are gone. */
  ghost predicate Fires(due: map<Key, Timer>, fired: seq<Task>, after: map<Key, Timer>)
  {
    && after == due - Keys(fired)
    && (forall t | t in fired :: t.key in due && due[t.key] == Timer(0, t.value))
    && (forall i, j | 0 <= i < j < |fired| :: fired[i].key != fired[j].key)
  }

  lemma FiresConcat(due: map<Key, Timer>, f1: seq<Task>, mid: map<Key, Timer>, f2: seq<Task>, after: map<Key, Timer>)
    requires Fires(due, f1, mid) && Fires(mid, f2, after)
    ensures Fires(due, f1 + f2, after)
  {
  }

  lemma ScanOneFires<Ref>(w: Wheel<Ref>, a: nat)
    requires Valid(w) && a < |w.slots[w.ticked]| && ScanKeeps(w, a, ScanOne(w, a))
    ensures Fires(Due(w, a), ScanOne(w, a).fired, Due(ScanOne(w, a).w, ScanOne(w, a).a))
  {
    var fired := ScanOne(w, a).fired;
    hide ScanOne, Valid;
    if |fired| == 1 {
      assert fired == [fired[0]] && Keys(fired) == {fired[0].key};
    } else {
      assert Keys(fired) == {};
    }
  }

  lemma {:induction false} ScanMeans<Ref>(w: Wheel<Ref>, a: nat)
    requires Valid(w) && a <= |w.slots[w.ticked]|
    ensures var (w', fired) := Scan(w, a);
            Valid(w') && w'.n == w.n && w'.ticked == w.ticked && Fires(Due(w, a), fired, Timers(w'))
    decreases |w.slots[w.ticked]| - a
  {
    if a == |w.slots[w.ticked]| {
      assert forall k | k in w.index :: Indexed(w, k) && !Pending(w, a, k);
      assert Due(w, a) == Timers(w) && Keys([]) == {};
    } else {
      ScanStep(w, a);
      ScanOneFires(w, a);
      var s := ScanOne(w, a);
      ScanMeans(s.w, s.a);
      var (w', rest) := Scan(s.w, s.a);
      hide ScanOne, Valid, Due, Fires, Indexed, Timers;
      FiresConcat(Due(w, a), s.fired, Due(s.w, s.a), rest, Timers(w'));
    }
  }

  ghost function Tick<Ref>(w: Wheel<Ref>): (r: (Wheel<Ref>, seq<Task>))
    requires Valid(w)
  {
    TurnKeepsValid(w);
    Scan(w.(ticked := NextTick(w.ticked, w.n)), 0)
  }

  lemma TickIsScan<Ref>(w: Wheel<Ref>)
    requires Valid(w)
    ensures Valid(w.(ticked := NextTick(w.ticked, w.n)))
    ensures Tick(w) == Scan(w.(ticked := NextTick(w.ticked, w.n)), 0)
  {
    TurnKeepsValid(w);
  }

  lemma TurnKeepsValid<Ref>(w: Wheel<Ref>)
    requires Valid(w)
    ensures Valid(w.(ticked := NextTick(w.ticked, w.n)))
    ensures var w1 := w.(ticked := NextTick(w.ticked, w.n));
            forall k | k in w.index :: Due(w1, 0)[k] == Timer(Timers(w)[k].remaining - 1, Timers(w)[k].value)
  {
    var w1 := w.(ticked := NextTick(w.ticked, w.n));
    forall k | k in w.index ensures Indexed(w1, k) {
      assert Indexed(w, k);
    }
    forall p, r | 0 <= p < w.n && r in w.slots[p] ensures Slotted(w1, p, r) {
      assert Slotted(w, p, r);
    }
    forall k | k in w.index ensures Due(w1, 0)[k] == Timer(Timers(w)[k].remaining - 1, Timers(w)[k].value) {
      assert Indexed(w, k);
      AheadTick(w.index[k].pos, w.ticked, w.n);
      assert w1.slots[w1.ticked][0..] == w1.slots[w1.ticked];
    }
  }

  lemma AtLeastOne<Ref>(w: Wheel<Ref>, k: Key)
    requires Valid(w) && k in w.index
    ensures Timers(w)[k].remaining >= 1
  {
    assert Indexed(w, k);
    assert w.cells[w.index[k].item].circle * w.n >= 0;
  }

  /** What one tick does to the timers: those that stand at 1 fire, all others come one closer. */
  ghost predicate Ticked(before: map<Key, Timer>, after: map<Key, Timer>, fired: seq<Task>)
  {
    && (forall k :: k in after <==> k in before && before[k].remaining != 1)
    && (forall k | k in after :: after[k] == Timer(before[k].remaining - 1, before[k].value))
    && (forall t :: t in fired <==> t.key in before && before[t.key] == Timer(1, t.value))
    && (forall i, j | 0 <= i < j < |fired| :: fired[i].key != fired[j].key)
  }

  lemma FiresTicked(before: map<Key, Timer>, due: map<Key, Timer>, fired: seq<Task>, after: map<Key, Timer>)
    requires due.Keys == before.Keys
    requires forall k | k in before :: due[k] == Timer(before[k].remaining - 1, before[k].value)
    requires Fires(due, fired, after) && forall k | k in after :: after[k].remaining >= 1
    ensures Ticked(before, after, fired)
  {
  }

  lemma TickMeans<Ref>(w: Wheel<Ref>)
    requires Valid(w)
    ensures Valid(Tick(w).0) && Ticked(Timers(w), Timers(Tick(w).0), Tick(w).1)
    ensures Tick(w).0.n == w.n && Tick(w).0.ticked == NextTick(w.ticked, w.n)
  {
    var w1 := w.(ticked := NextTick(w.ticked, w.n));
    TurnKeepsValid(w);
    ScanMeans(w1, 0);
    var (w', fired) := Tick(w);
    forall k | k in Timers(w') ensures Timers(w')[k].remaining >= 1 {
      AtLeastOne(w', k);
    }
    assert Due(w1, 0).Keys == Timers(w).Keys;
    hide Fires, TimerOf, Indexed, Slotted, NoDuplicates;
    FiresTicked(Timers(w), Due(w1, 0), fired, Timers(w'));
  }

  // ------------------------------------------------------------ over whole runs

  datatype Op = TickOp | On(key: Key)

  /** A tick, or an operation that touches the timer of one key only, and may execute its task. */
  ghost predicate Effect(before: map<Key, Timer>, op: Op, after: map<Key, Timer>, fired: seq<Task>)
  {
    match op
    case TickOp => Ticked(before, after, fired)
    case On(key) => after - {key} == before - {key} && forall t | t in fired :: t.key == key
  }

  /** An operation that removes or replaces the timer of a key touches that timer only. */
  lemma EffectOfKey(before: map<Key, Timer>, key: Key, after: map<Key, Timer>, fired: seq<Task>)
    requires after == before || after == before - {key} || (key in after && after == before[key := after[key]])
    requires forall t | t in fired :: t.key == key
    ensures Effect(before, On(key), after, fired)
  {
    assert key in after ==> before[key := after[key]] - {key} == before - {key};
    assert (before - {key}) - {key} == before - {key};
  }

  /** The task is executed, and nothing else for its key. */
  ghost predicate FiresOnce(fired: seq<Task>, task: Task)
  {
    && task in fired && (forall t | t in fired && t.key == task.key :: t == task)
    && forall i, j | 0 <= i < j < |fired| :: fired[i].key != task.key || fired[j].key != task.key
  }

  ghost predicate History(timers: seq<map<Key, Timer>>, ops: seq<Op>, fired: seq<seq<Task>>)
  {
    && |timers| == |ops| + 1 && |fired| == |ops|
    && forall i | 0 <= i < |ops| :: Effect(timers[i], ops[i], timers[i + 1], fired[i])
  }

  function Ticks(ops: seq<Op>, n: nat): nat
    requires n <= |ops|
  {
    if n == 0 then 0 else Ticks(ops, n - 1) + (if ops[n - 1] == TickOp then 1 else 0)
  }

  /** A timer that stands at r, and that nobody touches, fires at the r-th tick: not before, not after,
      once, and with its value, whatever is done to other timers meanwhile. */
  lemma {:induction false} FiresOnTime(timers: seq<map<Key, Timer>>, ops: seq<Op>, fired: seq<seq<Task>>, key: Key,
      i: nat)
    requires History(timers, ops, fired) && i <= |ops| && On(key) !in ops
    requires key in timers[0] && timers[0][key].remaining >= 1
    ensures var Timer(r, v) := timers[0][key];
            && (Ticks(ops, i) < r ==> key in timers[i] && timers[i][key] == Timer(r - Ticks(ops, i), v))
            && (Ticks(ops, i) >= r ==> key !in timers[i])
            && (i < |ops| ==> forall t | t in fired[i] && t.key == key ::
                                t.value == v && ops[i] == TickOp && Ticks(ops, i) == r - 1)
            && (i < |ops| && ops[i] == TickOp && Ticks(ops, i) == r - 1 ==> FiresOnce(fired[i], Task(key, v)))
  {
    if i > 0 {
      FiresOnTime(timers, ops, fired, key, i - 1);
      assert Effect(timers[i - 1], ops[i - 1], timers[i], fired[i - 1]);
      OnlyTicks(timers[i - 1], ops[i - 1], timers[i], fired[i - 1], key);
    }
    if i < |ops| {
      assert Effect(timers[i], ops[i], timers[i + 1], fired[i]);
      OnlyTicks(timers[i], ops[i], timers[i + 1], fired[i], key);
    }
  }

  lemma OnlyTicks(before: map<Key, Timer>, op: Op, after: map<Key, Timer>, fired: seq<Task>, key: Key)
    requires Effect(before, op, after, fired) && op != On(key)
    ensures op != TickOp ==> (key in after <==> key in before) && (key in before ==> after[key] == before[key])
    ensures op != TickOp ==> forall t | t in fired :: t.key != key
  {
    if op != TickOp {
      assert key in after <==> key in after - {op.key};
      assert key in before <==> key in before - {op.key};
      assert key in before ==> (after - {op.key})[key] == (before - {op.key})[key];
    }
  }
}
