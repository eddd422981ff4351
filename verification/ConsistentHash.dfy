/** core/hash/consistenthash.go: a ring of sorted keys, kept by adding and removing the points of nodes. */
module ConsistentHashing {
  import opened HashRing
  import opened Sequences

  const MIN_REPLICAS := 100
  const TOP_WEIGHT := 100

  class ConsistentHash {
    const hashing: Hashing
    const replicas: nat
    var keys: seq<nat>
    var ring: map<nat, seq<Any>>
    var nodes: set<string>
    ghost var placed: map<string, nat>      // how many points each node was added with

    ghost function State(): RingState
      reads this
    {
      RingState(keys, ring, nodes)
    }

    ghost predicate Valid()
      reads this
    {
      && Sorted(keys) && NoEmpty(ring)
      && placed.Keys == nodes
      && hashing.InBuckets(State(), placed)
      && (forall x | x in placed :: placed[x] <= replicas)
    }

    /** Every node has all its points, and keys and buckets agree. */
    ghost predicate Full()
      reads this
    {
      hashing.InStep(State(), placed) && forall x | x in placed :: placed[x] == replicas
    }

    constructor (replicas: int, hashing: Hashing)
      ensures Valid() && Full() && placed == map[] && this.hashing == hashing
      ensures this.replicas == if replicas < 100 then 100 else replicas
    {
      this.replicas := if replicas < MIN_REPLICAS then MIN_REPLICAS else replicas;
      this.hashing := hashing;
      keys, ring, nodes, placed := [], map[], {}, map[];
    }

    /** Adds a node with all its points.  Any number of such additions and of removals keep keys and buckets in step. */
    method Add(node: Any)
      requires Valid()
      modifies this
      ensures Valid() && placed == old(placed)[hashing.repr(node) := replicas]
      ensures hashing.repr(node) !in old(placed) ==> hashing.Placed(old(State()), node, replicas, State())
      ensures old(Full()) ==> Full()
      ensures hashing.repr(node) !in old(placed) ==> HashesAdded(hashing, old(keys), hashing.repr(node), replicas, keys)
      ensures Injective(hashing.hash) && hashing.repr(node) !in old(placed) && old(keys) == [] ==>
                |keys| == replicas && NoDuplicates(keys)
    {
      hide Sorted, NoEmpty, RingAt, HashesAdded, Injective, NoDuplicates;
      hide hashing.Placed, hashing.InStep, hashing.InBuckets;
      ghost var s := State();
      AddWithReplicas(node, replicas);
      if hashing.repr(node) !in old(placed) {
        PlacedHashes(hashing, s, node, replicas, State());
        FirstNodeKeys(hashing, s, node, replicas, State());
      }
    }

    /** Adds a node with some of its points; a node that is there is removed first. */
    method AddWithReplicas(node: Any, replicas: int)
      requires Valid()
      modifies this
      ensures Valid() && placed == old(placed)[hashing.repr(node) := Clip(replicas)]
      ensures placed[hashing.repr(node)] ==
              if replicas < 0 then 0 else if replicas > this.replicas then this.replicas else replicas
      ensures exists s1 ::
                AfterRemove(old(State()), hashing.repr(node), s1) && hashing.Placed(s1, node, Clip(replicas), State())
      ensures hashing.repr(node) !in old(placed) ==> hashing.Placed(old(State()), node, Clip(replicas), State())
      ensures old(hashing.InStep(State(), placed)) && old(CanRemove(hashing.repr(node)))
              ==> hashing.InStep(State(), placed)
    {
      hide hashing.InBuckets, hashing.InStep, hashing.Clear, Sorted, NoEmpty, Num, RingAt, hashing.Points, Copies;
      var x := hashing.repr(node);
      Remove(node);
      ghost var s1, placed1 := State(), placed;
      assert AfterRemove(old(State()), x, s1);
      var r: int := replicas;
      if r > this.replicas {
        r := this.replicas;
      }
      nodes := nodes + {x};
      AddPoints(node, x, if r < 0 then 0 else r);
      SortKeys();
      placed := placed[x := Clip(replicas)];
      assert hashing.Placed(s1, node, Clip(replicas), State());
      PlaceInBuckets(hashing, s1, placed1, node, Clip(replicas), State());
      if hashing.InStep(s1, placed1) {
        PlaceInStep(hashing, s1, placed1, node, Clip(replicas), State());
      }
    }

    /** Adds a node with a share of its points, in percent. */
    method AddWithWeight(node: Any, weight: int)
      requires Valid()
      modifies this
      ensures Valid() && placed == old(placed)[hashing.repr(node) := Clip(replicas * weight / TOP_WEIGHT)]
      ensures hashing.repr(node) !in old(placed)
              ==> hashing.Placed(old(State()), node, Clip(replicas * weight / TOP_WEIGHT), State())
      ensures old(hashing.InStep(State(), placed)) && old(CanRemove(hashing.repr(node)))
              ==> hashing.InStep(State(), placed)
    {
      AddWithReplicas(node, replicas * weight / TOP_WEIGHT);
    }

    /** The number of points that a request for r of them gives. */
    function Clip(r: int): (c: nat)
      ensures c <= replicas
    {
      if r < 0 then 0 else if r > replicas then replicas else r
    }

    /** Removing x does not take a key of another node. */
    ghost predicate CanRemove(x: string)
      reads this
    {
      x in placed ==> hashing.Clear(State(), x, placed[x], replicas)
    }

    ghost predicate AfterRemove(s: RingState, x: string, s': RingState)
    {
      if x in s.nodes then hashing.Removed(s, x, replicas, s') else s' == s
    }

    /** Finds the node for v. */
    method Get(v: Any) returns (answer: Answer)
      requires Valid()
      ensures answer == hashing.Lookup(State(), v)
      ensures hashing.InStep(State(), placed) && keys != [] ==> Serves(hashing, State(), v, answer)
      ensures hashing.InStep(State(), placed) ==>
                !answer.DivideByZero? && (answer.Nobody? <==> forall x | x in placed :: placed[x] == 0)
    {
      if hashing.InStep(State(), placed) {
        LookupFinds(hashing, State(), placed, v);
        if keys != [] {
          LookupServes(hashing, State(), placed, v);
        }
      }
      if |ring| == 0 {
        return Nobody;
      }
      if |keys| == 0 {
        return DivideByZero;
      }
      var index := Search(hashing.hash(hashing.repr(v)));
      var bucket := RingAt(ring, keys[index % |keys|]);
      if |bucket| == 0 {
        return Nobody;
      } else if |bucket| == 1 {
        return Chosen(bucket[0]);
      }
      var innerIndex := hashing.hash(hashing.InnerRepr(v));
      answer := Chosen(bucket[innerIndex % |bucket|]);
    }

    /** Removes a node: a key for each point it could have, and its places in the buckets. */
    method Remove(node: Any)
      requires Valid()
      modifies this
      ensures Valid() && placed == old(placed) - {hashing.repr(node)}
      ensures AfterRemove(old(State()), hashing.repr(node), State())
      ensures old(hashing.InStep(State(), placed)) ==>
                (hashing.InStep(State(), placed) <==> old(CanRemove(hashing.repr(node))))
      ensures old(Full()) ==> Full()
    {
      var x := hashing.repr(node);
      if x !in nodes {
        assert placed - {x} == placed;
        return;
      }
      RemovePoints(x);
      nodes := nodes - {x};
      placed := placed - {x};
      assert hashing.Removed(old(State()), x, replicas, State());
      RemoveInBuckets(hashing, old(State()), old(placed), x, replicas, State());
      if old(hashing.InStep(State(), placed)) {
        RemoveInStepIff(hashing, old(State()), old(placed), x, replicas, State());
      }
    }

    // ------------------------------------------------------------ the loops

    method AddPoints(node: Any, x: string, r: nat)
      requires x == hashing.repr(node) && NoEmpty(ring)
      modifies this`keys, this`ring
      ensures NoEmpty(ring)
      ensures forall h :: Num(keys, h) == Num(old(keys), h) + Num(hashing.Points(x, r), h)
      ensures forall h :: RingAt(ring, h) == RingAt(old(ring), h) + Copies(node, Num(hashing.Points(x, r), h))
    {
      hide *;
      forall h
        ensures Num(hashing.Points(x, 0), h) == 0
        ensures RingAt(ring, h) == RingAt(ring, h) + Copies(node, 0)
      {
        NoPoints(hashing, x, h);
      }
      for i := 0 to r
        invariant NoEmpty(ring)
        invariant forall h :: Num(keys, h) == Num(old(keys), h) + Num(hashing.Points(x, i), h)
        invariant forall h :: RingAt(ring, h) == RingAt(old(ring), h) + Copies(node, Num(hashing.Points(x, i), h))
      {
        var hash := hashing.Point(x, i);
        ghost var keys0, ring0 := keys, ring;
        keys := keys + [hash];
        ring := ring[hash := RingAt(ring, hash) + [node]];
        forall h
          ensures NoEmpty(ring)
          ensures Num(keys, h) == Num(old(keys), h) + Num(hashing.Points(x, i + 1), h)
          ensures RingAt(ring, h) == RingAt(old(ring), h) + Copies(node, Num(hashing.Points(x, i + 1), h))
        {
          NextPoint(hashing, x, i, h);
          NumAppend(keys0, hash, h);
          RingAtUpdate(ring0, hash, RingAt(ring0, hash) + [node], h);
          OneMoreCopy(RingAt(old(ring), h), node, Num(hashing.Points(x, i), h));
        }
      }
    }

    method RemovePoints(x: string)
      requires Sorted(keys) && NoEmpty(ring)
      modifies this`keys, this`ring
      ensures Sorted(keys) && NoEmpty(ring)
      ensures forall h :: Num(keys, h) == Minus(Num(old(keys), h), Num(hashing.Points(x, replicas), h))
      ensures forall h :: RingAt(ring, h) ==
                          if Num(hashing.Points(x, replicas), h) > 0 then hashing.Without(RingAt(old(ring), h), x)
                          else RingAt(old(ring), h)
    {
      hide *;
      forall h ensures Num(hashing.Points(x, 0), h) == 0 && Num(keys, h) == Minus(Num(keys, h), 0) {
        NoPoints(hashing, x, h);
        MinusTwice(Num(keys, h), 0, 0);
      }
      for i := 0 to replicas
        invariant Sorted(keys) && NoEmpty(ring)
        invariant forall h :: Num(keys, h) == Minus(Num(old(keys), h), Num(hashing.Points(x, i), h))
        invariant forall h :: RingAt(ring, h) ==
                              if Num(hashing.Points(x, i), h) > 0 then hashing.Without(RingAt(old(ring), h), x)
                              else RingAt(old(ring), h)
      {
        var hash := hashing.Point(x, i);
        ghost var keys0, ring0 := keys, ring;
        var index := Search(hash);
        if index < |keys| && keys[index] == hash {
          keys := keys[..index] + keys[index + 1..];
        }
        TakeIs(keys0, hash);
        RemoveRingNode(hash, x);
        forall h
          ensures Sorted(keys)
          ensures Num(keys, h) == Minus(Num(old(keys), h), Num(hashing.Points(x, i + 1), h))
          ensures RingAt(ring, h) ==
                  if Num(hashing.Points(x, i + 1), h) > 0 then hashing.Without(RingAt(old(ring), h), x)
                  else RingAt(old(ring), h)
        {
          NextPoint(hashing, x, i, h);
          TakeMeans(keys0, hash, h);
          MinusTwice(Num(old(keys), h), Num(hashing.Points(x, i), h), if hash == h then 1 else 0);
          WithoutTwice(hashing, RingAt(old(ring), h), x);
        }
      }
    }

    method RemoveRingNode(hash: nat, x: string)
      requires NoEmpty(ring)
      modifies this`ring
      ensures NoEmpty(ring)
      ensures forall h :: RingAt(ring, h) ==
                          if h == hash then hashing.Without(RingAt(old(ring), h), x) else RingAt(old(ring), h)
    {
      if hash in ring {
        var bucket := ring[hash];
        var newNodes: seq<Any> := [];
        for i := 0 to |bucket|
          invariant newNodes + hashing.Without(bucket[i..], x) == hashing.Without(bucket, x)
        {
          if hashing.repr(bucket[i]) != x {
            newNodes := newNodes + [bucket[i]];
          }
        }
        if |newNodes| > 0 {
          ring := ring[hash := newNodes];
        } else {
          ring := ring - {hash};
        }
      }
    }

    /** Binary search for the first key that is at least h. */
    method Search(h: nat) returns (index: nat)
      requires Sorted(keys)
      ensures index == First(keys, h)
    {
      var low, high := 0, |keys|;
      while low < high
        invariant 0 <= low <= high <= |keys|
        invariant forall j | 0 <= j < low :: keys[j] < h
        invariant forall j | high <= j < |keys| :: keys[j] >= h
      {
        var mid := (low + high) / 2;
        if keys[mid] >= h {
          high := mid;
        } else {
          low := mid + 1;
        }
      }
      index := low;
      FirstUnique(keys, h, index);
    }

    /** Sorts the keys; any sorted permutation is the same. */
    method SortKeys()
      modifies this`keys
      ensures Sorted(keys) && forall h :: Num(keys, h) == Num(old(keys), h)
    {
      var rest := keys;
      keys := [];
      while rest != []
        invariant Sorted(keys)
        invariant forall h :: Num(keys, h) + Num(rest, h) == Num(old(keys), h)
      {
        ghost var keys0, rest0 := keys, rest;
        var i := Search(rest[0]);
        InsertSorted(keys, rest[0]);
        keys := keys[..i] + [rest[0]] + keys[i..];
        rest := rest[1..];
        forall h ensures Num(keys, h) + Num(rest, h) == Num(old(keys), h) {
          NumAt(keys0, i, rest0[0], h);
          NumSplit([rest0[0]], rest, h);
          NumOne(rest0[0], h);
          assert rest0 == [rest0[0]] + rest;
        }
      }
    }
  }
}
