/** core/syncx/pool.go: a pool of at most `limit` resources, with waiting by a condition variable.
    Each method is what one goroutine does in one hold of the lock, so that any interleaving of goroutines is a
    sequence of calls.  What create would return is a parameter. */
module Pools {
  import opened Options

  type Item(!new, ==)

  datatype Idle = Idle(item: Item, lastUsed: int)

  function Items(idle: seq<Idle>): (r: seq<Item>)
    ensures |r| == |idle| && forall i | 0 <= i < |idle| :: r[i] == idle[i].item
  {
    seq(|idle|, i requires 0 <= i < |idle| => idle[i].item)
  }

  /** Idle items used last come first, and none in the future. */
  ghost predicate LatestFirst(idle: seq<Idle>, clock: int)
  {
    && (forall i | 0 <= i < |idle| :: idle[i].lastUsed <= clock)
    && (forall i, j | 0 <= i < j < |idle| :: idle[i].lastUsed >= idle[j].lastUsed)
  }

  lemma PushLatest(idle: seq<Idle>, clock: int, item: Item, now: int)
    requires LatestFirst(idle, clock) && now >= clock
    ensures LatestFirst([Idle(item, now)] + idle, now)
  {
  }

  lemma StillLatest(idle: seq<Idle>, clock: int, now: int)
    requires LatestFirst(idle, clock) && now >= clock
    ensures LatestFirst(idle, now)
  {
  }

  class Pool {
    const limit: nat
    const maxAge: int
    var created: int
    var idle: seq<Idle>                   // the list from head on

    ghost var borrowed: multiset<Item>    // got and not put back
    ghost var strays: nat                 // how often an item was put that was not borrowed
    ghost var waiting: nat                // goroutines in cond.Wait that no signal has reached
    ghost var signalled: nat              // goroutines that a signal has reached and that have not yet run
    ghost var clock: int

    ghost predicate Valid()
      reads this
    {
      && created == |idle| + |borrowed| - strays <= limit
      && (waiting > 0 ==> |idle| + (limit - created) <= signalled)
      && LatestFirst(idle, clock)
    }

    /** What is out of what may exist: the items borrowed, unless more are put back than were got. */
    ghost function Out(): int
      reads this
    {
      |borrowed| - strays
    }

    /** What was created is within the limit, and it is idle or borrowed iff only borrowed items were put back. */
    ghost predicate Conserved()
      reads this
    {
      created <= limit && (created == |idle| + |borrowed| <==> strays == 0)
    }

    /** How many more calls of Get would be served at once. */
    ghost function Available(): int
      reads this
    {
      |idle| + (limit - created)
    }

    predicate Stale(n: Idle, now: int)
    {
      maxAge > 0 && n.lastUsed + maxAge < now
    }

    /** What a Get takes: the head if it is not older than maxAge.  If it is, then so are all idle items, and all are
        destroyed, and a new one is made unless all that may exist are out. */
    ghost predicate Taken(was: seq<Idle>, out: int, now: int, made: Item,
                          got: Option<Item>, destroyed: seq<Item>, left: seq<Idle>)
    {
      if was != [] && (maxAge <= 0 || now <= was[0].lastUsed + maxAge) then
        got == Some(was[0].item) && destroyed == [] && left == was[1..]
      else
        left == [] && destroyed == Items(was) && got == if out < limit then Some(made) else None
    }

    constructor (n: nat, maxAge: int, now: int)
      requires n > 0
      ensures Valid() && limit == n && this.maxAge == maxAge && clock == now
      ensures idle == [] && borrowed == multiset{} && strays == waiting == signalled == 0
    {
      limit, this.maxAge, created, idle := n, maxAge, 0, [];
      borrowed, strays, waiting, signalled, clock := multiset{}, 0, 0, 0, now;
    }

    /** The loop of Get up to its return or to Wait. */
    method Attempt(now: int, made: Item) returns (got: Option<Item>, destroyed: seq<Item>)
      requires created == |idle| + Out() <= limit && now >= clock
      requires LatestFirst(idle, clock)
      modifies this`created, this`idle, this`borrowed, this`clock
      ensures clock == now && created == |idle| + Out() <= limit
      ensures Taken(old(idle), old(Out()), now, made, got, destroyed, idle)
      ensures borrowed == if got.Some? then old(borrowed) + multiset{got.value} else old(borrowed)
      ensures Available() == if got.Some? then old(Available()) - 1 else 0
    {
      destroyed := [];
      clock := now;
      while idle != []
        invariant created == |idle| + Out() <= limit && borrowed == old(borrowed) && clock == now
        invariant |destroyed| <= old(|idle|) && idle == old(idle)[|destroyed|..]
        invariant destroyed == Items(old(idle))[..|destroyed|]
        invariant |idle| + (limit - created) == old(Available())
        invariant destroyed != [] ==> old(idle) != [] && Stale(old(idle)[0], now)
        invariant destroyed != [] ==> forall i | 0 <= i < |idle| :: Stale(idle[i], now)
      {
        var head := idle[0];
        idle := idle[1..];
        if Stale(head, now) {
          created := created - 1;
          destroyed := destroyed + [head.item];
        } else {
          borrowed := borrowed + multiset{head.item};
          return Some(head.item), destroyed;
        }
      }
      assert |destroyed| == old(|idle|);
      if created < limit {
        created := created + 1;
        borrowed := borrowed + multiset{made};
        return Some(made), destroyed;
      }
      got := None;
    }

    /** A goroutine calls Get: it gets an item or begins to wait. */
    method Enter(now: int, made: Item) returns (got: Option<Item>, destroyed: seq<Item>)
      requires Valid() && now >= clock
      modifies this`created, this`idle, this`borrowed, this`clock, this`waiting
      ensures Valid() && Conserved() && clock == now
      ensures waiting == if got.None? then old(waiting) + 1 else old(waiting)
      ensures got.None? <==> old(Out()) == limit
      ensures borrowed == if got.Some? then old(borrowed) + multiset{got.value} else old(borrowed)
      ensures Taken(old(idle), old(Out()), now, made, got, destroyed, idle)
    {
      got, destroyed := Attempt(now, made);
      if got.None? {
        waiting := waiting + 1;
      }
    }

    /** A goroutine that was signalled runs again: it gets an item or waits again. */
    method Resume(now: int, made: Item) returns (got: Option<Item>, destroyed: seq<Item>)
      requires Valid() && now >= clock && signalled > 0
      modifies this`created, this`idle, this`borrowed, this`clock, this`waiting, this`signalled
      ensures Valid() && Conserved() && clock == now && signalled == old(signalled) - 1
      ensures waiting == if got.None? then old(waiting) + 1 else old(waiting)
      ensures got.None? <==> old(Out()) == limit
      ensures borrowed == if got.Some? then old(borrowed) + multiset{got.value} else old(borrowed)
      ensures Taken(old(idle), old(Out()), now, made, got, destroyed, idle)
    {
      signalled := signalled - 1;
      got, destroyed := Attempt(now, made);
      if got.None? {
        waiting := waiting + 1;
      }
    }

    /** One item less is out, borrowed or not. */
    ghost method GiveBack(x: Item)
      modifies this`borrowed, this`strays
      ensures borrowed == old(borrowed) - multiset{x} && Out() == old(Out()) - 1
      ensures strays == old(strays) + if x in old(borrowed) then 0 else 1
    {
      if x !in borrowed {
        strays := strays + 1;
      }
      borrowed := borrowed - multiset{x};
    }

    /** cond.Signal: reaches one goroutine that waits, if any does. */
    ghost method Signal()
      modifies this`waiting, this`signalled
      ensures old(waiting) > 0 ==> waiting == old(waiting) - 1 && signalled == old(signalled) + 1
      ensures old(waiting) == 0 ==> waiting == 0 && signalled == old(signalled)
    {
      if waiting > 0 {
        waiting, signalled := waiting - 1, signalled + 1;
      }
    }

    /** A goroutine puts an item back, and signals one that waits, if any does.  Nil is ignored.
        Nothing stops it from putting what it has not borrowed. */
    method Put(x: Option<Item>, now: int)
      requires Valid() && now >= clock
      modifies this`idle, this`borrowed, this`strays, this`clock, this`waiting, this`signalled
      ensures Valid() && Conserved() && clock == now
      ensures x.None? ==> idle == old(idle) && borrowed == old(borrowed) && strays == old(strays)
      ensures x.None? ==> waiting == old(waiting) && signalled == old(signalled)
      ensures x.Some? ==> idle == [Idle(x.value, now)] + old(idle) && borrowed == old(borrowed) - multiset{x.value}
      ensures x.Some? ==> strays == old(strays) + if x.value in old(borrowed) then 0 else 1
      ensures x.Some? && old(waiting) > 0 ==> waiting == old(waiting) - 1 && signalled == old(signalled) + 1
      ensures old(waiting) == 0 ==> waiting == 0 && signalled == old(signalled)
    {
      hide LatestFirst;
      if x.None? {
        StillLatest(idle, clock, now);
        clock := now;
        return;
      }
      PushLatest(idle, clock, x.value, now);
      clock := now;
      idle := [Idle(x.value, now)] + idle;
      GiveBack(x.value);
      assert |idle| == old(|idle|) + 1 && created == |idle| + Out();
      Signal();
    }

    /** No wake-up is lost: a goroutine waits in vain only while all items that may exist are out or have their taker
        already signalled. */
    lemma NoLostWakeup()
      requires Valid() && waiting > 0
      ensures limit - Out() <= signalled
      ensures signalled == 0 ==> idle == [] && created == limit == Out()
    {
    }
  }
}
