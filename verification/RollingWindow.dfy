/** core/collection/rollingwindow.go: sums and counts of events in a ring of buckets, one for each time interval.
    Each operation reads the clock once and the clock does not go back; float64 is modelled by reals. */
module RollingWindows {
  import opened Integers

  datatype Bucket = Bucket(sum: real, count: nat)

  const EMPTY := Bucket(0.0, 0)

  /** An addition, with the number of the interval in which it was made. */
  datatype Event = Event(interval: int, v: real)

  function Plus(a: Bucket, b: Bucket): Bucket
  {
    Bucket(a.sum + b.sum, a.count + b.count)
  }

  /** What a log of additions holds for the intervals lo to hi. */
  function Over(log: seq<Event>, lo: int, hi: int): Bucket
  {
    if log == [] then EMPTY
    else
      var last, rest := log[|log| - 1], Over(log[..|log| - 1], lo, hi);
      if lo <= last.interval <= hi then Plus(rest, Bucket(last.v, 1)) else rest
  }

  function Total(buckets: seq<Bucket>): Bucket
  {
    if buckets == [] then EMPTY else Plus(Total(buckets[..|buckets| - 1]), buckets[|buckets| - 1])
  }

  /** How far slot s lies behind the slot at offset, in a ring of n. */
  function Age(n: nat, offset: nat, s: nat): (age: nat)
    requires offset < n && s < n
    ensures age < n
  {
    if s <= offset then offset - s else offset - s + n
  }

  // ------------------------------------------------------------ logs

  lemma {:induction false} OverSplit(log: seq<Event>, lo: int, mid: int, hi: int)
    requires lo <= mid <= hi + 1
    ensures Over(log, lo, hi) == Plus(Over(log, lo, mid - 1), Over(log, mid, hi))
  {
    if log != [] {
      OverSplit(log[..|log| - 1], lo, mid, hi);
    }
  }

  lemma {:induction false} OverLater(log: seq<Event>, cur: int, lo: int, hi: int)
    requires (forall e | e in log :: e.interval <= cur) && cur < lo
    ensures Over(log, lo, hi) == EMPTY
  {
    if log != [] {
      assert log[|log| - 1] in log;
      OverLater(log[..|log| - 1], cur, lo, hi);
    }
  }

  lemma {:induction false} OverNone(log: seq<Event>, lo: int, hi: int)
    requires hi < lo
    ensures Over(log, lo, hi) == EMPTY
  {
    if log != [] {
      OverNone(log[..|log| - 1], lo, hi);
    }
  }

  lemma OverAppend(log: seq<Event>, e: Event, lo: int, hi: int)
    ensures Over(log + [e], lo, hi) ==
            if lo <= e.interval <= hi then Plus(Over(log, lo, hi), Bucket(e.v, 1)) else Over(log, lo, hi)
  {
  }

  /** Buckets of consecutive intervals add up to what the log holds for all of them. */
  lemma {:induction false} TotalOver(buckets: seq<Bucket>, log: seq<Event>, lo: int)
    requires forall i | 0 <= i < |buckets| :: buckets[i] == Over(log, lo + i, lo + i)
    ensures Total(buckets) == Over(log, lo, lo + |buckets| - 1)
  {
    var n := |buckets|;
    if n == 0 {
      OverNone(log, lo, lo - 1);
    } else {
      TotalOver(buckets[..n - 1], log, lo);
      OverSplit(log, lo, lo + n - 1, lo + n - 1);
    }
  }

  // ------------------------------------------------------------ slots and intervals

  lemma WrapSlot(n: nat, k: nat)
    requires n > 0 && k <= 2 * n
    ensures k % n == if k < n then k else if k < 2 * n then k - n else 0
  {
  }

  /** The slot k places on from offset. */
  lemma SlotOn(n: nat, offset: nat, k: nat)
    requires offset < n && 1 <= k <= n
    ensures 0 <= (offset + k) % n < n && Age(n, offset, (offset + k) % n) == n - k
    ensures forall s | 0 <= s < n && s != (offset + k) % n :: Age(n, offset, s) != n - k
  {
    WrapSlot(n, offset + k);
  }

  lemma SlotTwice(n: nat, a: nat, b: nat)
    requires n > 0
    ensures (a % n + b) % n == (a + b) % n
  {
    assert a == a / n * n + a % n;
    ModPlus(n, a % n + b, a / n);
  }

  lemma ModPlus(n: nat, a: nat, q: nat)
    requires n > 0
    ensures (a + q * n) % n == a % n
  {
    Distribute(a / n, q, n);
    DivUnique(a + q * n, n, a / n + q, a % n);
  }

  /** The age of a slot after the offset has moved on. */
  lemma AgeMoved(n: nat, offset: nat, k: nat, s: nat)
    requires offset < n && s < n && k <= n
    ensures (offset + k) % n < n
    ensures Age(n, (offset + k) % n, s) == if Age(n, offset, s) + k < n then Age(n, offset, s) + k
            else Age(n, offset, s) + k - n
  {
    WrapSlot(n, offset + k);
  }

  /** When an interval begins. */
  function Begin(start: int, d: nat, i: int): int
  {
    start + i * d
  }

  /** The interval of a time, counted from the start of another interval. */
  lemma IntervalFrom(start: int, d: nat, cur: int, now: int)
    requires d > 0 && now >= Begin(start, d, cur)
    ensures (now - start) / d == cur + (now - Begin(start, d, cur)) / d
    ensures now - (now - Begin(start, d, cur)) % d == Begin(start, d, (now - start) / d) <= now
    ensures (now - start) / d >= cur
  {
    var r := now - Begin(start, d, cur);
    var q := r / d;
    Distribute(cur, q, d);
    DivUnique(now - start, d, cur + q, r % d);
    if q < 0 {
      MulAtLeast(-q, d);
    }
  }

  class RollingWindow {
    const size: nat
    const interval: nat
    const ignoreCurrent: bool
    const buckets: array<Bucket>
    var offset: nat
    var lastTime: int

    ghost const start: int
    ghost var cur: int              // the interval that offset stands for
    ghost var log: seq<Event>       // all additions

    ghost predicate Valid()
      reads this, buckets
    {
      && size > 0 && interval > 0 && buckets.Length == size && offset < size
      && lastTime == Begin(start, interval, cur)
      && (forall e | e in log :: e.interval <= cur)
      && (forall s | 0 <= s < size :: buckets[s] == Over(log, cur - Age(size, offset, s), cur - Age(size, offset, s)))
    }

    /** The number of the interval of a time. */
    ghost function IntervalOf(now: int): int
      requires interval > 0
    {
      (now - start) / interval
    }

    constructor (size: nat, interval: nat, now: int, ignoreCurrent: bool)
      requires size > 0 && interval > 0
      ensures Valid() && log == [] && fresh(buckets)
      ensures this.size == size && this.interval == interval && this.ignoreCurrent == ignoreCurrent
      ensures lastTime == now && start == now
    {
      this.size, this.interval, this.ignoreCurrent := size, interval, ignoreCurrent;
      buckets := new Bucket[size](_ => EMPTY);
      offset, lastTime := 0, now;
      start, cur, log := now, 0, [];
    }

    /** The number of whole intervals since the last bucket began, at most the size. */
    function Span(now: int): (span: nat)
      requires interval > 0 && now >= lastTime
      reads this
      ensures span <= size
    {
      var n := (now - lastTime) / interval;
      if 0 <= n < size then n else size
    }

    /** Adds v in the interval of now. */
    method Add(v: real, now: int)
      requires Valid() && now >= lastTime
      modifies this`offset, this`lastTime, this`cur, this`log, buckets
      ensures Valid() && now >= lastTime
      ensures log == old(log) + [Event(IntervalOf(now), v)]
    {
      hide Begin, Over;
      UpdateOffset(now);
      ghost var e := Event(cur, v);
      var b := buckets[offset];
      buckets[offset] := Bucket(b.sum + v, b.count + 1);
      log := log + [e];
      forall s | 0 <= s < size
        ensures buckets[s] == Over(log, cur - Age(size, offset, s), cur - Age(size, offset, s))
      {
        OverAppend(old(log), e, cur - Age(size, offset, s), cur - Age(size, offset, s));
      }
    }

    /** Moves the offset on to the interval of now, emptying the buckets it passes. */
    method UpdateOffset(now: int)
      requires Valid() && now >= lastTime
      modifies this`offset, this`lastTime, this`cur, buckets
      ensures Valid() && cur == IntervalOf(now) && lastTime <= now
    {
      hide Begin, Over;
      IntervalFrom(start, interval, cur, now);
      var span := Span(now);
      if span <= 0 {
        return;
      }
      for i := 0 to span
        modifies buckets
        invariant forall s | 0 <= s < size :: buckets[s] == if Age(size, offset, s) >= size - i then EMPTY
                  else old(buckets[s])
      {
        SlotOn(size, offset, i + 1);
        buckets[(offset + i + 1) % size] := EMPTY;
      }
      ghost var moved := IntervalOf(now) - cur;
      forall s | 0 <= s < size
        ensures (offset + span) % size < size
        ensures var age := Age(size, (offset + span) % size, s);
                buckets[s] == Over(log, cur + moved - age, cur + moved - age)
      {
        AgeMoved(size, offset, span, s);
        var age := Age(size, (offset + span) % size, s);
        if cur + moved - age > cur {
          OverLater(log, cur, cur + moved - age, cur + moved - age);
        }
      }
      offset := (offset + span) % size;
      lastTime := now - (now - lastTime) % interval;
      cur := cur + moved;
    }

    /** Visits the buckets of the last `size` intervals, oldest first: all that were added in them, without the
        current interval if it is to be ignored.  Later intervals than that of the last addition are empty. */
    method Reduce(now: int) returns (visited: seq<Bucket>)
      requires Valid() && now >= lastTime
      ensures |visited| <= size
      ensures forall i | 0 <= i < |visited| ::
                visited[i] == Over(log, IntervalOf(now) - size + 1 + i, IntervalOf(now) - size + 1 + i)
      ensures Total(visited) == Over(log, IntervalOf(now) - size + 1, if ignoreCurrent then IntervalOf(now) - 1
              else IntervalOf(now))
    {
      hide Begin, Over;
      IntervalFrom(start, interval, cur, now);
      visited := [];
      var span := Span(now);
      var diff := if span == 0 && ignoreCurrent then size - 1 else size - span;
      ghost var lo := IntervalOf(now) - size + 1;
      if diff > 0 {
        var first := (offset + span + 1) % size;
        for i := 0 to diff
          invariant |visited| == i
          invariant forall j | 0 <= j < i :: visited[j] == Over(log, lo + j, lo + j)
        {
          SlotTwice(size, offset + span + 1, i);
          SlotOn(size, offset, span + 1 + i);
          visited := visited + [buckets[(first + i) % size]];
        }
      }
      TotalOver(visited, log, lo);
      ghost var hi := if ignoreCurrent then IntervalOf(now) - 1 else IntervalOf(now);
      if lo + diff - 1 < hi {
        OverLater(log, cur, lo + diff, hi);
        OverSplit(log, lo, lo + diff, hi);
      }
    }
  }
}
