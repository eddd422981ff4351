module Sequences {
  /** A sequence can be taken apart at its last element in one way only. */
  lemma SnocInjective<T>(p: seq<T>, s: T, q: seq<T>, t: T)
    ensures p + [s] == q + [t] <==> p == q && s == t
  {
    if p + [s] == q + [t] {
      assert (p + [s])[..|p|] == p && (q + [t])[..|q|] == q;
      assert (p + [s])[|p|] == s && (q + [t])[|q|] == t;
    }
  }

  ghost predicate NoDuplicates<T>(s: seq<T>)
  {
    forall i, j | 0 <= i < j < |s| :: s[i] != s[j]
  }

  lemma SnocNoDuplicates<T>(s: seq<T>, x: T)
    requires NoDuplicates(s) && x !in s
    ensures NoDuplicates(s + [x])
  {
  }

  lemma ConcatNoDuplicates<T>(a: seq<T>, b: seq<T>)
    requires NoDuplicates(a) && NoDuplicates(b) && forall x | x in a :: x !in b
    ensures NoDuplicates(a + b)
  {
    forall i, j | 0 <= i < j < |a + b| ensures (a + b)[i] != (a + b)[j] {
      assert i < |a| ==> a[i] in a;
    }
  }
}
