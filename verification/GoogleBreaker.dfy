/** core/breaker/googlebreaker.go: a breaker that refuses with a probability drawn from a rolling window. */
module GoogleBreakers {
  import opened RollingWindows

  const K := 1.5
  const PROTECTION := 5
  const BUCKETS := 40
  const INTERVAL := 250_000_000     // nanoseconds

  /** How many requests of a log were accepted in the intervals lo to hi. */
  function Accepts(log: seq<Event>, lo: int, hi: int): nat
  {
    if log == [] then 0
    else
      var last := log[|log| - 1];
      Accepts(log[..|log| - 1], lo, hi) + if lo <= last.interval <= hi && last.v == 1.0 then 1 else 0
  }

  function Failures(log: seq<Event>, lo: int, hi: int): nat
  {
    if log == [] then 0
    else
      var last := log[|log| - 1];
      Failures(log[..|log| - 1], lo, hi) + if lo <= last.interval <= hi && last.v == 0.0 then 1 else 0
  }

  predicate Marks(log: seq<Event>)
  {
    forall e | e in log :: e.v == 0.0 || e.v == 1.0
  }

  /** In a window of marks, the sum counts the accepts and the count all requests. */
  lemma {:induction false} OverMarks(log: seq<Event>, lo: int, hi: int)
    requires Marks(log)
    ensures Over(log, lo, hi) == Bucket(Accepts(log, lo, hi) as real, Accepts(log, lo, hi) + Failures(log, lo, hi))
  {
    if log != [] {
      assert log[|log| - 1] in log;
      OverMarks(log[..|log| - 1], lo, hi);
    }
  }

  /** The drop ratio before it is cut off at zero. */
  function Ratio(accepts: int, total: int): real
    requires total >= 0
  {
    ((total - PROTECTION) as real - K * accepts as real) / (total + 1) as real
  }

  /** Refusing is possible iff failures exceed the protection by more than half the accepts, and never certain. */
  lemma RatioPositiveIff(accepts: nat, failures: nat)
    ensures Ratio(accepts, accepts + failures) > 0.0 <==> failures as real > PROTECTION as real + accepts as real / 2.0
    ensures Ratio(accepts, accepts + failures) < 1.0
  {
    var n, d := (accepts + failures - PROTECTION) as real - K * accepts as real, (accepts + failures + 1) as real;
    Compare(n, d, 0.0, 1.0);
    Compare(1.0, 1.0, n, d);
  }

  /** Which draws are below the ratio. */
  lemma BelowRatioIff(accepts: nat, failures: nat, draw: real)
    ensures draw < Ratio(accepts, accepts + failures)
            <==> draw * (accepts + failures + 1) as real < failures as real - 5.0 - accepts as real / 2.0
  {
    var n := (accepts + failures - PROTECTION) as real - K * accepts as real;
    Compare(n, (accepts + failures + 1) as real, draw, 1.0);
  }

  /** n / d > m / e for positive denominators. */
  lemma Compare(n: real, d: real, m: real, e: real)
    requires d > 0.0 && e > 0.0
    ensures n / d > m / e <==> n * e > m * d
  {
    var x, y := n / d, m / e;
    assert n == x * d && m == y * e;
    var de := d * e;
    assert n * e == x * de && m * d == y * de;
    assert de > 0.0;
    if x > y {
      Scale(x, y, de);
    } else if x < y {
      Scale(y, x, de);
    }
  }

  lemma Scale(x: real, y: real, s: real)
    requires x > y && s > 0.0
    ensures x * s > y * s
  {
  }

  /** A failure always raises the ratio. */
  lemma FailureRaises(accepts: nat, failures: nat)
    ensures Ratio(accepts, accepts + failures + 1) > Ratio(accepts, accepts + failures)
  {
    var t := accepts + failures;
    var n := (t - PROTECTION) as real - K * accepts as real;
    Compare(n + 1.0, (t + 2) as real, n, (t + 1) as real);
    assert (n + 1.0) * (t + 1) as real == n * (t + 2) as real - n + (t + 1) as real;
  }

  /** A success lowers the ratio iff it was above minus one half: always when requests could be refused. */
  lemma SuccessLowersIff(accepts: nat, failures: nat)
    ensures Ratio(accepts + 1, accepts + failures + 1) < Ratio(accepts, accepts + failures)
            <==> Ratio(accepts, accepts + failures) > -0.5
  {
    var t := accepts + failures;
    var n := (t - PROTECTION) as real - K * accepts as real;
    assert Ratio(accepts + 1, t + 1) == (n - 0.5) / (t + 2) as real;
    Compare(n, (t + 1) as real, n - 0.5, (t + 2) as real);
    Compare(n, (t + 1) as real, -0.5, 1.0);
    assert n * (t + 2) as real == n * (t + 1) as real + n;
    assert (n - 0.5) * (t + 1) as real == n * (t + 1) as real - 0.5 * (t + 1) as real;
  }

  lemma TotalNone()
    ensures Total([]) == EMPTY && EMPTY.sum == 0.0 && EMPTY.count == 0
  {
  }

  lemma TotalNext(buckets: seq<Bucket>, i: nat)
    requires i < |buckets|
    ensures Total(buckets[..i + 1]).sum == Total(buckets[..i]).sum + buckets[i].sum
    ensures Total(buckets[..i + 1]).count == Total(buckets[..i]).count + buckets[i].count
  {
    assert buckets[..i + 1][..i] == buckets[..i];
  }

  class GoogleBreaker {
    const stat: RollingWindow

    ghost predicate Valid()
      reads this, stat, stat.buckets
    {
      && stat.Valid() && stat.size == BUCKETS && stat.interval == INTERVAL && !stat.ignoreCurrent
      && Marks(stat.log)
    }

    /** Accepts and failures of the last 40 intervals. */
    ghost function RecentAccepts(now: int): nat
      requires stat.interval > 0
      reads stat
    {
      Accepts(stat.log, stat.IntervalOf(now) - BUCKETS + 1, stat.IntervalOf(now))
    }

    ghost function RecentFailures(now: int): nat
      requires stat.interval > 0
      reads stat
    {
      Failures(stat.log, stat.IntervalOf(now) - BUCKETS + 1, stat.IntervalOf(now))
    }

    constructor (now: int)
      ensures Valid() && fresh(stat) && fresh(stat.buckets) && stat.log == [] && stat.lastTime == now
      ensures stat.size == 40 && stat.interval == 250_000_000
    {
      stat := new RollingWindow(BUCKETS, INTERVAL, now, false);
    }

    method History(now: int) returns (accepts: int, total: int)
      requires Valid() && now >= stat.lastTime
      ensures accepts == RecentAccepts(now) && total == RecentAccepts(now) + RecentFailures(now)
    {
      hide *;
      ResolveStat();
      var visited := stat.Reduce(now);
      accepts, total := 0, 0;
      ghost var lo := stat.IntervalOf(now) - BUCKETS + 1;
      TotalNone();
      for i := 0 to |visited|
        invariant accepts as real == Total(visited[..i]).sum
        invariant total == Total(visited[..i]).count
      {
        OverMarks(stat.log, lo + i, lo + i);
        TotalNext(visited, i);
        accepts, total := accepts + visited[i].sum.Floor, total + visited[i].count;
      }
      assert visited[..|visited|] == visited;
      OverMarks(stat.log, lo, stat.IntervalOf(now));
      RecentAre(now);
    }

    lemma ResolveStat()
      requires Valid()
      ensures stat.Valid() && stat.size == BUCKETS && stat.interval == INTERVAL && !stat.ignoreCurrent
      ensures stat.interval > 0 && Marks(stat.log)
    {
    }

    lemma RecentAre(now: int)
      requires stat.interval > 0
      ensures var lo, hi := stat.IntervalOf(now) - BUCKETS + 1, stat.IntervalOf(now);
              RecentAccepts(now) == Accepts(stat.log, lo, hi) && RecentFailures(now) == Failures(stat.log, lo, hi)
    {
    }

    /** Decides on a request, by a random draw.  A request is refused iff the draw is below the drop ratio of the
        last 40 intervals: only if failures exceed 5 plus half the accepts. */
    method Accept(now: int, draw: real) returns (refused: bool)
      requires Valid() && now >= stat.lastTime && 0.0 <= draw < 1.0
      ensures refused <==> draw < Ratio(RecentAccepts(now), RecentAccepts(now) + RecentFailures(now))
      ensures refused ==> RecentFailures(now) as real > PROTECTION as real + RecentAccepts(now) as real / 2.0
      ensures var accepts, failures := RecentAccepts(now), RecentFailures(now);
              refused <==> draw * (accepts + failures + 1) as real < failures as real - 5.0 - accepts as real / 2.0
    {
      hide Valid, RecentAccepts, RecentFailures;
      ResolveStat();
      var accepts, total := History(now);
      var weightedAccepts := K * accepts as real;
      var dropRatio := ((total - PROTECTION) as real - weightedAccepts) / (total + 1) as real;
      assert dropRatio == Ratio(accepts, total);
      RatioPositiveIff(accepts, total - accepts);
      BelowRatioIff(accepts, total - accepts, draw);
      hide Ratio;
      if dropRatio < 0.0 {
        dropRatio := 0.0;
      }
      if dropRatio <= 0.0 {
        return false;
      }
      refused := draw < dropRatio;
    }

    /** After a success at some time, one more accept is in the window of that time. */
    method MarkSuccess(now: int)
      requires Valid() && now >= stat.lastTime
      modifies stat`offset, stat`lastTime, stat`cur, stat`log, stat.buckets
      ensures Valid() && now >= stat.lastTime
      ensures RecentAccepts(now) == old(RecentAccepts(now)) + 1 && RecentFailures(now) == old(RecentFailures(now))
    {
      stat.Add(1.0, now);
      assert stat.log[..|stat.log| - 1] == old(stat.log);
    }

    method MarkFailure(now: int)
      requires Valid() && now >= stat.lastTime
      modifies stat`offset, stat`lastTime, stat`cur, stat`log, stat.buckets
      ensures Valid() && now >= stat.lastTime
      ensures RecentAccepts(now) == old(RecentAccepts(now)) && RecentFailures(now) == old(RecentFailures(now)) + 1
    {
      stat.Add(0.0, now);
      assert stat.log[..|stat.log| - 1] == old(stat.log);
    }
  }
}
