/** core/stat/topk.go and the ranks it computes. */
module TopTasks {

  datatype Task = Task(drop: bool, duration: int, description: string)

  function Longer(tasks: seq<Task>, d: int): nat
  {
    if tasks == [] then 0 else (if tasks[0].duration > d then 1 else 0) + Longer(tasks[1..], d)
  }

  function AtLeast(tasks: seq<Task>, d: int): nat
  {
    if tasks == [] then 0 else (if tasks[0].duration >= d then 1 else 0) + AtLeast(tasks[1..], d)
  }

  /** d is the k-th longest duration, counting equal ones. */
  predicate IsNth(tasks: seq<Task>, k: int, d: int)
  {
    Longer(tasks, d) < k <= AtLeast(tasks, d)
  }

  /** top and rest share out all, and none of the rest is longer than one of the top. */
  ghost predicate Splits(all: seq<Task>, top: seq<Task>, rest: seq<Task>)
  {
    && multiset(all) == multiset(top) + multiset(rest)
    && forall t, r | t in top && r in rest :: t.duration >= r.duration
  }

  predicate MinFirst(tasks: seq<Task>)
  {
    forall i | 0 <= i < |tasks| :: tasks[0].duration <= tasks[i].duration
  }

  // ------------------------------------------------------------ counting

  lemma {:induction false} CountAppend(a: seq<Task>, b: seq<Task>, d: int)
    ensures Longer(a + b, d) == Longer(a, d) + Longer(b, d)
    ensures AtLeast(a + b, d) == AtLeast(a, d) + AtLeast(b, d)
  {
    if a == [] {
      assert a + b == b;
    } else {
      assert (a + b)[1..] == a[1..] + b;
      CountAppend(a[1..], b, d);
    }
  }

  lemma {:induction false} CountPerm(a: seq<Task>, b: seq<Task>, d: int)
    requires multiset(a) == multiset(b)
    ensures Longer(a, d) == Longer(b, d) && AtLeast(a, d) == AtLeast(b, d)
  {
    if a == [] {
      assert |multiset(b)| == 0;
    } else {
      var before, after := TakeOut(a, b);
      CountPerm(a[1..], before + after, d);
      CountAppend(before, [a[0]] + after, d);
      CountAppend([a[0]], after, d);
      CountAppend(before, after, d);
      assert a == [a[0]] + a[1..];
    }
  }

  lemma Cancel(a: multiset<Task>, b: multiset<Task>, c: multiset<Task>)
    requires c + a == b + c || c + a == c + b
    ensures a == b
  {
    assert a == (c + a) - c && b == (b + c) - c;
  }

  lemma Regroup(all: multiset<Task>, top: multiset<Task>, rest: multiset<Task>, out: multiset<Task>,
      each: multiset<Task>, top': multiset<Task>)
    requires all == top + rest && top' + out == top + each
    ensures all + each == top' + (rest + out)
  {
    assert all + each == (top + each) + rest;
  }

  /** Where the first of a is in a permutation of a. */
  lemma TakeOut(a: seq<Task>, b: seq<Task>) returns (before: seq<Task>, after: seq<Task>)
    requires a != [] && multiset(a) == multiset(b)
    ensures b == before + ([a[0]] + after) && multiset(a[1..]) == multiset(before + after)
  {
    assert a[0] in multiset(b);
    var j :| 0 <= j < |b| && b[j] == a[0];
    before, after := b[..j], b[j + 1..];
    assert b == before + ([a[0]] + after) && a == [a[0]] + a[1..];
    assert multiset([a[0]] + after) == multiset{a[0]} + multiset(after);
    Cancel(multiset(a[1..]), multiset(before) + multiset(after), multiset{a[0]});
  }

  lemma {:induction false} CountBounds(tasks: seq<Task>, d: int)
    ensures Longer(tasks, d) <= AtLeast(tasks, d) <= |tasks|
    ensures (forall i | 0 <= i < |tasks| :: tasks[i].duration <= d) ==> Longer(tasks, d) == 0
    ensures (forall i | 0 <= i < |tasks| :: tasks[i].duration >= d) ==> AtLeast(tasks, d) == |tasks|
    ensures (forall i | 0 <= i < |tasks| :: tasks[i].duration > d) ==> Longer(tasks, d) == |tasks|
  {
    if tasks != [] {
      CountBounds(tasks[1..], d);
    }
  }

  lemma {:induction false} CountOrder(tasks: seq<Task>, d: int, e: int)
    requires e < d
    ensures Longer(tasks, e) >= AtLeast(tasks, d)
  {
    if tasks != [] {
      CountOrder(tasks[1..], d, e);
    }
  }

  // ------------------------------------------------------------ ranks

  /** A higher rank has no shorter a duration; in particular each rank has one duration. */
  lemma NthOrder(tasks: seq<Task>, j: int, k: int, d: int, e: int)
    requires j <= k && IsNth(tasks, k, d) && IsNth(tasks, j, e)
    ensures d <= e
  {
    if d > e {
      CountOrder(tasks, d, e);
    }
  }

  /** The least of k tasks that none of the others exceeds is the k-th longest of all. */
  lemma TopIsNth(all: seq<Task>, top: seq<Task>, rest: seq<Task>)
    requires Splits(all, top, rest) && MinFirst(top) && top != []
    ensures IsNth(all, |top|, top[0].duration)
  {
    var d := top[0].duration;
    CountPerm(all, top + rest, d);
    CountAppend(top, rest, d);
    CountBounds(top, d);
    assert top[0] in top && forall r | 0 <= r < |rest| :: rest[r] in rest;
    CountBounds(rest, d);
    CountBounds(top[1..], d);
  }

  /** Ranks in the top part are ranks in all. */
  lemma NestedNth(all: seq<Task>, top: seq<Task>, rest: seq<Task>, j: int, d: int)
    requires Splits(all, top, rest) && j <= |top| && IsNth(top, j, d)
    ensures IsNth(all, j, d)
  {
    CountPerm(all, top + rest, d);
    CountAppend(top, rest, d);
    CountBounds(top, d);
    CountBounds(rest, d);
    if i :| 0 <= i < |top| && top[i].duration <= d {
      assert top[i] in top;
      assert forall r | 0 <= r < |rest| :: rest[r] in rest;
    }
  }

  // ------------------------------------------------------------ the heap, by its contract, and topK

  /** heap.Push: adds a task and keeps a shortest one in front. */
  method Push(h: seq<Task>, task: Task) returns (r: seq<Task>)
    requires MinFirst(h)
    ensures MinFirst(r) && multiset(r) == multiset(h) + multiset{task} && |r| == |h| + 1
  {
    if h != [] && task.duration < h[0].duration {
      r := [task] + h;
    } else {
      r := h + [task];
    }
  }

  /** heap.Pop: takes a shortest task and brings another in front. */
  method Pop(h: seq<Task>) returns (r: seq<Task>)
    requires MinFirst(h) && h != []
    ensures MinFirst(r) && multiset(h) == multiset(r) + multiset{h[0]} && |r| == |h| - 1
  {
    r := [];
    assert h == [h[0]] + h[1..];
    for i := 1 to |h|
      invariant MinFirst(r) && multiset(h[1..i]) == multiset(r) && |r| == i - 1
    {
      assert h[1..i + 1] == h[1..i] + [h[i]];
      r := Push(r, h[i]);
    }
    assert h[1..|h|] == h[1..];
  }

  lemma Pushed(all: seq<Task>, top: seq<Task>, each: Task, top': seq<Task>)
    requires Splits(all, top, []) && multiset(top') == multiset(top) + multiset{each}
    ensures Splits(all + [each], top', [])
  {
  }

  lemma Kept(all: seq<Task>, top: seq<Task>, rest: seq<Task>, each: Task)
    requires Splits(all, top, rest) && MinFirst(top) && top != [] && top[0].duration >= each.duration
    ensures Splits(all + [each], top, rest + [each])
  {
  }

  lemma Replaced(all: seq<Task>, top: seq<Task>, rest: seq<Task>, each: Task, popped: seq<Task>, top': seq<Task>)
    requires Splits(all, top, rest) && MinFirst(top) && top != [] && top[0].duration < each.duration
    requires multiset(top) == multiset(popped) + multiset{top[0]} && multiset(top') == multiset(popped) + multiset{each}
    ensures Splits(all + [each], top', rest + [top[0]])
  {
    var rest' := rest + [top[0]];
    assert multiset(all + [each]) == multiset(all) + multiset{each};
    assert multiset(rest') == multiset(rest) + multiset{top[0]};
    Regroup(multiset(all), multiset(top), multiset(rest), multiset{top[0]}, multiset{each}, multiset(top'));
    assert top[0] in top;
    forall t, r | t in top' && r in rest' ensures t.duration >= r.duration {
      assert t in multiset(top') + multiset{top[0]};
      assert t in multiset(top) || t == each;
      assert t == each || t in top;
      assert r in rest || r == top[0];
    }
  }

  /** The k longest tasks, a shortest of them in front. */
  method TopK(all: seq<Task>, k: int) returns (top: seq<Task>, ghost rest: seq<Task>)
    requires k > 0 || all == []
    ensures Splits(all, top, rest) && MinFirst(top)
    ensures all != [] ==> |top| == if |all| < k then |all| else k
    ensures all == [] ==> top == []
  {
    top, rest := [], [];
    assert Splits(all[..0], top, rest) && MinFirst(top);
    hide Splits, MinFirst;
    for n := 0 to |all|
      invariant Splits(all[..n], top, rest) && MinFirst(top)
      invariant if n < k then |top| == n && rest == [] else all != [] ==> |top| == k
    {
      var each := all[n];
      ghost var top0 := top;
      assert all[..n + 1] == all[..n] + [each];
      if |top| < k {
        top := Push(top, each);
        Pushed(all[..n], top0, each, top);
      } else if top[0].duration < each.duration {
        top := Pop(top);
        ghost var popped := top;
        top := Push(top, each);
        Replaced(all[..n], top0, rest, each, popped, top);
        rest := rest + [top0[0]];
      } else {
        Kept(all[..n], top, rest, each);
        rest := rest + [each];
      }
    }
    assert all[..|all|] == all;
  }
}
