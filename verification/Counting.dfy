/** How many entries of a map satisfy a predicate. */
module Counting {
  import opened Integers

  ghost function Those<K, V>(m: map<K, V>, p: V -> bool): set<K>
  {
    set k | k in m && p(m[k])
  }

  ghost function Count<K, V>(m: map<K, V>, p: V -> bool): nat
  {
    |Those(m, p)|
  }

  ghost function One(b: bool): nat
  {
    if b then 1 else 0
  }

  /** Updating one entry changes the count by what it was and what it is now. */
  lemma CountUpdate<K, V>(m: map<K, V>, k: K, v: V, p: V -> bool)
    ensures Count(m[k := v], p) + One(k in m && p(m[k])) == Count(m, p) + One(p(v))
  {
    var before, after := Those(m, p), Those(m[k := v], p);
    if k in before {
      assert before == (before - {k}) + {k};
    }
    if k in after {
      assert after == (after - {k}) + {k};
    }
    assert after - {k} == before - {k};
  }

  lemma CountZero<K, V>(m: map<K, V>, p: V -> bool)
    requires Count(m, p) == 0
    ensures forall k | k in m :: !p(m[k])
  {
    assert forall k | k in m && p(m[k]) :: k in Those(m, p);
  }

  lemma CountSome<K, V>(m: map<K, V>, p: V -> bool) returns (k: K)
    requires Count(m, p) > 0
    ensures k in m && p(m[k])
  {
    k :| k in Those(m, p);
  }

  lemma CountMember<K, V>(m: map<K, V>, p: V -> bool, k: K)
    requires k in m && p(m[k])
    ensures Count(m, p) > 0
  {
    assert k in Those(m, p);
  }

  lemma CountAtMostOne<K, V>(m: map<K, V>, p: V -> bool, k: K, l: K)
    requires Count(m, p) <= 1
    requires k in m && p(m[k]) && l in m && p(m[l])
    ensures k == l
  {
    var rest := Those(m, p) - {k};
    assert Those(m, p) == rest + {k};
    assert |rest| == 0 && l in rest + {k};
  }

  lemma CountNarrower<K, V>(m: map<K, V>, p: V -> bool, q: V -> bool)
    requires forall k | k in m && p(m[k]) :: q(m[k])
    ensures Count(m, p) <= Count(m, q)
  {
    assert Those(m, q) == Those(m, p) + (Those(m, q) - Those(m, p));
  }

  // ------------------------------------------------------------ sums of ranks

  function AtRank<V>(rank: V -> nat, n: nat): V -> bool
  {
    v => rank(v) >= n
  }

  /** The ranks of all entries added up, each as far as n. */
  ghost function Weight<K, V>(m: map<K, V>, rank: V -> nat, n: nat): nat
  {
    if n == 0 then 0 else Weight(m, rank, n - 1) + Count(m, AtRank(rank, n))
  }

  lemma {:induction false} WeightUpdate<K, V>(m: map<K, V>, k: K, v: V, rank: V -> nat, n: nat)
    ensures Weight(m[k := v], rank, n) + (if k in m then Min(rank(m[k]), n) else 0)
            == Weight(m, rank, n) + Min(rank(v), n)
  {
    if n > 0 {
      WeightUpdate(m, k, v, rank, n - 1);
      CountUpdate(m, k, v, AtRank(rank, n));
    }
  }

  lemma {:induction false} WeightEmpty<K, V>(m: map<K, V>, rank: V -> nat, n: nat)
    requires m == map[]
    ensures Weight(m, rank, n) == 0
  {
    if n > 0 {
      WeightEmpty(m, rank, n - 1);
      assert Those(m, AtRank(rank, n)) == {};
    }
  }
}
