/** core/stat/metrics.go: the container that turns tasks into a report of percentiles.
    Times are nanoseconds; float32 is modelled by reals. */
module MetricsReports {
  import opened Options
  import opened TopTasks

  const MILLISECOND := 1_000_000
  const LOG_SECONDS := 60

  datatype Report = Report(drops: int, reqsPerSecond: real, average: real, median: real, top90th: real,
      top99th: real, top99p9th: real)

  datatype Batch = Batch(tasks: seq<Task>, duration: int, drops: int)

  function InMillis(d: int): real
  {
    d as real / MILLISECOND as real
  }

  /** Division that cuts off towards zero. */
  function Quotient(a: int, b: int): int
    requires b > 0
  {
    if a >= 0 then a / b else -((-a) / b)
  }

  function Sum(tasks: seq<Task>): int
  {
    if tasks == [] then 0 else Sum(tasks[..|tasks| - 1]) + tasks[|tasks| - 1].duration
  }

  /** ms is the k-th longest duration of the tasks, in milliseconds. */
  ghost predicate IsNthMillis(tasks: seq<Task>, k: int, ms: real)
  {
    exists d :: IsNth(tasks, k, d) && ms == d as real / 1_000_000.0
  }

  /** The rank of a percentile: of n tasks the n/m-th longest, or the longest if there are fewer than m. */
  function Rank(n: int, m: int): int
    requires m > 0
  {
    if n / m > 0 then n / m else 1
  }

  /** What each number of a report is, for n > 0 tasks: the longest n/2, n/10, n/100 and n/1000 begin there. */
  ghost predicate Percentiles(tasks: seq<Task>, r: Report)
  {
    && IsNthMillis(tasks, Rank(|tasks|, 2), r.median)
    && IsNthMillis(tasks, Rank(|tasks|, 10), r.top90th)
    && IsNthMillis(tasks, Rank(|tasks|, 100), r.top99th)
    && IsNthMillis(tasks, Rank(|tasks|, 1000), r.top99p9th)
  }

  lemma MillisOrder(tasks: seq<Task>, j: int, k: int, a: real, b: real)
    requires j <= k && IsNthMillis(tasks, k, a) && IsNthMillis(tasks, j, b)
    ensures a <= b
  {
    var d :| IsNth(tasks, k, d) && a == d as real / 1_000_000.0;
    var e :| IsNth(tasks, j, e) && b == e as real / 1_000_000.0;
    NthOrder(tasks, j, k, d, e);
  }

  /** In every report the percentiles are in order, and the tasks determine them. */
  lemma PercentilesOrdered(tasks: seq<Task>, r: Report)
    requires Percentiles(tasks, r)
    ensures r.median <= r.top90th <= r.top99th <= r.top99p9th
  {
    MillisOrder(tasks, Rank(|tasks|, 10), Rank(|tasks|, 2), r.median, r.top90th);
    MillisOrder(tasks, Rank(|tasks|, 100), Rank(|tasks|, 10), r.top90th, r.top99th);
    MillisOrder(tasks, Rank(|tasks|, 1000), Rank(|tasks|, 100), r.top99th, r.top99p9th);
  }

  lemma PercentilesUnique(tasks: seq<Task>, r: Report, r': Report)
    requires Percentiles(tasks, r) && Percentiles(tasks, r')
    ensures r.median == r'.median && r.top90th == r'.top90th && r.top99th == r'.top99th && r.top99p9th == r'.top99p9th
  {
    forall m, a, b | m in {2, 10, 100, 1000} && IsNthMillis(tasks, Rank(|tasks|, m), a)
        && IsNthMillis(tasks, Rank(|tasks|, m), b)
      ensures a == b
    {
      MillisOrder(tasks, Rank(|tasks|, m), Rank(|tasks|, m), a, b);
      MillisOrder(tasks, Rank(|tasks|, m), Rank(|tasks|, m), b, a);
    }
  }

  /** The percentiles do not depend on the order of the tasks. */
  lemma PercentilesPerm(tasks: seq<Task>, tasks': seq<Task>, r: Report)
    requires multiset(tasks) == multiset(tasks') && Percentiles(tasks, r)
    ensures Percentiles(tasks', r)
  {
    assert |tasks| == |multiset(tasks)| == |tasks'|;
    forall k, d | IsNth(tasks, k, d) ensures IsNth(tasks', k, d) {
      CountPerm(tasks, tasks', d);
    }
  }

  /** A chain of topK: k tasks of all that none of the others exceeds. */
  ghost predicate IsTop(all: seq<Task>, top: seq<Task>)
  {
    && (exists rest :: Splits(all, top, rest))
    && MinFirst(top)
  }

  lemma TopOfTop(all: seq<Task>, top: seq<Task>, top': seq<Task>)
    requires IsTop(all, top) && IsTop(top, top')
    ensures IsTop(all, top')
  {
    var rest :| Splits(all, top, rest);
    var rest' :| Splits(top, top', rest');
    assert Splits(all, top', rest' + rest) by {
      assert multiset(rest' + rest) == multiset(rest') + multiset(rest);
      forall t: Task, r: Task | t in top' && r in rest' + rest ensures t.duration >= r.duration {
        assert t in multiset(top') + multiset(rest');
        assert t in top;
      }
    }
  }

  lemma FirstIsNth(all: seq<Task>, top: seq<Task>)
    requires IsTop(all, top) && top != []
    ensures IsNthMillis(all, |top|, InMillis(top[0].duration))
  {
    var rest :| Splits(all, top, rest);
    TopIsNth(all, top, rest);
  }

  /** The longest of a top part is the longest of all. */
  lemma LongestOfTop(all: seq<Task>, top: seq<Task>, ms: real)
    requires IsTop(all, top) && top != [] && IsNthMillis(top, 1, ms)
    ensures IsNthMillis(all, 1, ms)
  {
    var rest :| Splits(all, top, rest);
    var d :| IsNth(top, 1, d) && ms == d as real / 1_000_000.0;
    NestedNth(all, top, rest, 1, d);
  }

  /** Dividing by 2, then 5, then 10, then 10. */
  lemma Ranks(n: int)
    requires n >= 0
    ensures n / 2 / 5 == n / 10 && n / 10 / 10 == n / 100 && n / 100 / 10 == n / 1000
  {
  }

  lemma DivTimes(a: real, b: real)
    requires b != 0.0
    ensures a / b * b == a
  {
  }

  method GetTopDuration(tasks: seq<Task>) returns (ms: real)
    ensures if tasks == [] then ms == 0.0 else IsNthMillis(tasks, 1, ms)
  {
    var top, rest := TopK(tasks, 1);
    if |top| < 1 {
      return 0.0;
    }
    assert IsTop(tasks, top);
    FirstIsNth(tasks, top);
    ms := InMillis(top[0].duration);
  }

  /** topK, as the report uses it: from a top part of all, the k longest. */
  method TopPart(ghost all: seq<Task>, tasks: seq<Task>, k: int) returns (top: seq<Task>)
    requires IsTop(all, tasks) || tasks == all
    requires 0 < k <= |tasks|
    ensures IsTop(all, top) && |top| == k && IsNthMillis(all, k, InMillis(top[0].duration))
  {
    ghost var rest;
    top, rest := TopK(tasks, k);
    assert IsTop(tasks, top);
    if tasks != all {
      TopOfTop(all, tasks, top);
    }
    FirstIsNth(all, top);
  }

  class MetricsContainer {
    var tasks: seq<Task>
    var duration: int
    var drops: int

    ghost predicate Valid()
      reads this
    {
      duration == Sum(tasks) && forall t | t in tasks :: !t.drop
    }

    constructor ()
      ensures Valid() && tasks == [] && drops == 0
    {
      tasks, duration, drops := [], 0, 0;
    }

    /** Counts a drop, or keeps a task; anything else is ignored.  The container is never full. */
    method AddTask(v: Option<Task>) returns (full: bool)
      requires Valid()
      modifies this
      ensures Valid() && !full
      ensures tasks == if v.Some? && !v.value.drop then old(tasks) + [v.value] else old(tasks)
      ensures drops == old(drops) + if v.Some? && v.value.drop then 1 else 0
    {
      if v.Some? {
        if v.value.drop {
          drops := drops + 1;
        } else {
          tasks := tasks + [v.value];
          duration := duration + v.value.duration;
          assert tasks[..|tasks| - 1] == old(tasks);
        }
      }
      full := false;
    }

    method RemoveAll() returns (batch: Batch)
      requires Valid()
      modifies this
      ensures Valid() && tasks == [] && drops == 0
      ensures batch == Batch(old(tasks), Sum(old(tasks)), old(drops))
    {
      batch := Batch(tasks, duration, drops);
      tasks, duration, drops := [], 0, 0;
    }

    /** The report for a batch. */
    method Execute(batch: Batch) returns (r: Report)
      ensures r.drops == batch.drops && r.reqsPerSecond * 60.0 == |batch.tasks| as real
      ensures if batch.tasks == [] then r.average == r.median == r.top90th == r.top99th == r.top99p9th == 0.0
              else Percentiles(batch.tasks, r) &&
                   r.average * |batch.tasks| as real == Quotient(batch.duration, 1_000_000) as real
      ensures r.median <= r.top90th <= r.top99th <= r.top99p9th
    {
      hide Percentiles, Quotient, IsNthMillis;
      var tasks := batch.tasks;
      var size := |tasks|;
      DivTimes(size as real, LOG_SECONDS as real);
      r := Report(batch.drops, size as real / LOG_SECONDS as real, 0.0, 0.0, 0.0, 0.0, 0.0);
      if size > 0 {
        DivTimes(Quotient(batch.duration, MILLISECOND) as real, size as real);
        r := r.(average := Quotient(batch.duration, MILLISECOND) as real / size as real);
        r := Fill(tasks, r);
        PercentilesOrdered(tasks, r);
      }
    }

    /** The nested part of Execute. */
    method Fill(tasks: seq<Task>, report: Report) returns (r: Report)
      requires tasks != []
      ensures Percentiles(tasks, r)
      ensures r.drops == report.drops && r.reqsPerSecond == report.reqsPerSecond && r.average == report.average
    {
      hide IsNthMillis, IsTop;
      r := report;
      Ranks(|tasks|);
      var fiftyPercent := |tasks| / 2;
      if fiftyPercent > 0 {
        var top50pTasks := TopPart(tasks, tasks, fiftyPercent);
        r := r.(median := InMillis(top50pTasks[0].duration));
        var tenPercent := fiftyPercent / 5;
        if tenPercent > 0 {
          var top10pTasks := TopPart(tasks, top50pTasks, tenPercent);
          r := r.(top90th := InMillis(top10pTasks[0].duration));
          var onePercent := tenPercent / 10;
          if onePercent > 0 {
            var top1pTasks := TopPart(tasks, top10pTasks, onePercent);
            r := r.(top99th := InMillis(top1pTasks[0].duration));
            var pointOnePercent := onePercent / 10;
            if pointOnePercent > 0 {
              var topPointOneTasks := TopPart(tasks, top1pTasks, pointOnePercent);
              r := r.(top99p9th := InMillis(topPointOneTasks[0].duration));
            } else {
              var most := GetTopDuration(top1pTasks);
              LongestOfTop(tasks, top1pTasks, most);
              r := r.(top99p9th := most);
            }
          } else {
            var most := GetTopDuration(top10pTasks);
            LongestOfTop(tasks, top10pTasks, most);
            r := r.(top99th := most, top99p9th := most);
          }
        } else {
          var most := GetTopDuration(top50pTasks);
          LongestOfTop(tasks, top50pTasks, most);
          r := r.(top90th := most, top99th := most, top99p9th := most);
        }
      } else {
        var most := GetTopDuration(tasks);
        r := r.(median := most, top90th := most, top99th := most, top99p9th := most);
      }
    }
  }
}
