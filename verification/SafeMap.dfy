/** core/collection/safemap.go: one map kept in two generations. */
module SafeMap {
  import opened Options

  const COPY_THRESHOLD := 1000
  const MAX_DELETION := 10000

  class SafeMap<K(==), V> {
    var deletionOld: nat
    var deletionNew: nat
    var dirtyOld: map<K, V>
    var dirtyNew: map<K, V>

    /** No key is in both generations. */
    ghost predicate Valid()
      reads this
    {
      dirtyOld.Keys !! dirtyNew.Keys
    }

    /** The one map that the two generations stand for. */
    ghost function Contents(): map<K, V>
      reads this
    {
      dirtyOld + dirtyNew
    }

    constructor ()
      ensures Valid() && Contents() == map[]
    {
      deletionOld, deletionNew := 0, 0;
      dirtyOld, dirtyNew := map[], map[];
    }

    method Get(key: K) returns (r: Option<V>)
      requires Valid()
      ensures r == if key in Contents() then Some(Contents()[key]) else None
    {
      if key in dirtyOld {
        return Some(dirtyOld[key]);
      }
      r := if key in dirtyNew then Some(dirtyNew[key]) else None;
    }

    method Set(key: K, value: V)
      requires Valid()
      modifies this
      ensures Valid() && Contents() == old(Contents())[key := value]
    {
      if deletionOld <= MAX_DELETION {
        if key in dirtyNew {
          dirtyNew := dirtyNew - {key};
          deletionNew := deletionNew + 1;
        }
        dirtyOld := dirtyOld[key := value];
      } else {
        if key in dirtyOld {
          dirtyOld := dirtyOld - {key};
          deletionOld := deletionOld + 1;
        }
        dirtyNew := dirtyNew[key := value];
      }
    }

    /** Deletes the key from the generation that has it. */
    method DeleteEntry(key: K)
      requires Valid()
      modifies this
      ensures Valid() && Contents() == old(Contents()) - {key}
    {
      if key in dirtyOld {
        dirtyOld := dirtyOld - {key};
        deletionOld := deletionOld + 1;
      } else if key in dirtyNew {
        dirtyNew := dirtyNew - {key};
        deletionNew := deletionNew + 1;
      }
    }

    /** Deletes the key; swaps or merges the generations when one has seen many deletions and is small. */
    method Del(key: K)
      requires Valid()
      modifies this
      ensures Valid() && Contents() == old(Contents()) - {key}
    {
      DeleteEntry(key);
      if deletionOld >= MAX_DELETION && |dirtyOld| < COPY_THRESHOLD {
        SwapGenerations();
      }
      if deletionNew >= MAX_DELETION && |dirtyNew| < COPY_THRESHOLD {
        MergeGenerations();
      }
    }

    /** The old generation is copied into the new one, which takes its place. */
    method SwapGenerations()
      requires Valid()
      modifies this
      ensures Valid() && Contents() == old(Contents())
    {
      UnionCommutes(dirtyOld, dirtyNew);
      dirtyOld := CopyInto(dirtyOld, dirtyNew);
      deletionOld := deletionNew;
      dirtyNew := map[];
      deletionNew := 0;
      UnionCommutes(dirtyOld, dirtyNew);
    }

    /** The new generation is copied into the old one. */
    method MergeGenerations()
      requires Valid()
      modifies this
      ensures Valid() && Contents() == old(Contents())
    {
      dirtyOld := CopyInto(dirtyNew, dirtyOld);
      dirtyNew := map[];
      deletionNew := 0;
      UnionCommutes(dirtyOld, dirtyNew);
    }

    method Size() returns (n: nat)
      requires Valid()
      ensures n == |Contents()|
    {
      n := |dirtyOld| + |dirtyNew|;
      assert Contents().Keys == dirtyOld.Keys + dirtyNew.Keys;
    }
  }

  lemma UnionCommutes<K, V>(a: map<K, V>, b: map<K, V>)
    requires a.Keys !! b.Keys
    ensures a + b == b + a && a + map[] == a && b + map[] == b
  {
  }

  /** Adds the entries of one map to another, one by one. */
  method CopyInto<K(==), V>(from: map<K, V>, into: map<K, V>) returns (r: map<K, V>)
    ensures r == into + from
  {
    r := into;
    var rest := from.Keys;
    while rest != {}
      invariant rest <= from.Keys
      invariant r == into + map k | k in from && k !in rest :: from[k]
    {
      var k :| k in rest;
      r := r[k := from[k]];
      rest := rest - {k};
    }
    assert (map k | k in from && k !in rest :: from[k]) == from;
  }
}
