/** A hash ring as a value: sorted keys, the nodes at each key, and what adding, removing and looking up mean.
    The hash is any function, collisions included. */
module HashRing {
  import opened Sequences

  /** Any value; both nodes and the things looked up. */
  type Any(!new, ==)

  datatype RingState = RingState(keys: seq<nat>, ring: map<nat, seq<Any>>, nodes: set<string>)

  datatype Answer = Nobody | Chosen(node: Any) | DivideByZero

  /** A number in decimal. */
  function Itoa(n: nat): string
  {
    (if n < 10 then "" else Itoa(n / 10)) + [(n % 10 + '0' as int) as char]
  }

  const PRIME := 16777619

  /** How values are hashed and printed: as nodes and things looked up, and by %v. */
  datatype Hashing = Hashing(hash: string -> nat, repr: Any -> string, format: Any -> string) {
    /** What decides within a bucket. */
    function InnerRepr(v: Any): string
    {
      Itoa(PRIME) + ":" + format(v)
    }

    function Point(x: string, i: nat): nat
    {
      hash(x + Itoa(i))
    }

    /** The first n virtual points of the node printed x. */
    function Points(x: string, n: nat): (r: seq<nat>)
      ensures |r| == n && forall i | 0 <= i < n :: r[i] == Point(x, i)
    {
      seq(n, i requires 0 <= i < n => Point(x, i))
    }

    /** The points from c to n. */
    function Spare(x: string, c: nat, n: nat): (r: seq<nat>)
      requires c <= n
    {
      Points(x, n)[c..]
    }

    /** How often x occurs in a bucket. */
    function CountIn(bucket: seq<Any>, x: string): (c: nat)
      ensures c <= |bucket|
    {
      if bucket == [] then 0 else (if repr(bucket[0]) == x then 1 else 0) + CountIn(bucket[1..], x)
    }

    function Without(bucket: seq<Any>, x: string): seq<Any>
    {
      if bucket == [] then []
      else (if repr(bucket[0]) == x then [] else [bucket[0]]) + Without(bucket[1..], x)
    }

    /** One of the nodes of a bucket. */
    function Pick(bucket: seq<Any>, v: Any): Answer
    {
      if |bucket| == 0 then Nobody
      else if |bucket| == 1 then Chosen(bucket[0])
      else Chosen(bucket[hash(InnerRepr(v)) % |bucket|])
    }

    /** The node for v: one at the first key from the hash of v on, around the ring. */
    function Lookup(s: RingState, v: Any): Answer
    {
      if s.ring == map[] then Nobody
      else if |s.keys| == 0 then DivideByZero
      else Pick(RingAt(s.ring, s.keys[First(s.keys, hash(repr(v))) % |s.keys|]), v)
    }

    /** s' is s with r points of an absent node. */
    ghost predicate Placed(s: RingState, node: Any, r: nat, s': RingState)
    {
      && Sorted(s'.keys)
      && (forall h :: Num(s'.keys, h) == Num(s.keys, h) + Num(Points(repr(node), r), h))
      && (forall h :: RingAt(s'.ring, h) == RingAt(s.ring, h) + Copies(node, Num(Points(repr(node), r), h)))
      && NoEmpty(s'.ring)
      && s'.nodes == s.nodes + {repr(node)}
    }

    /** s' is s without x.  For each of the n points x could have, one key goes, if there is one. */
    ghost predicate Removed(s: RingState, x: string, n: nat, s': RingState)
    {
      && Sorted(s'.keys)
      && (forall h :: Num(s'.keys, h) == Minus(Num(s.keys, h), Num(Points(x, n), h)))
      && (forall h :: RingAt(s'.ring, h) ==
                      if Num(Points(x, n), h) > 0 then Without(RingAt(s.ring, h), x) else RingAt(s.ring, h))
      && NoEmpty(s'.ring)
      && s'.nodes == s.nodes - {x}
    }

    /** Each node x is in the buckets of its first placed[x] points, and nowhere else. */
    ghost predicate InBuckets(s: RingState, placed: map<string, nat>)
    {
      && s.nodes == placed.Keys
      && (forall h, x :: CountIn(RingAt(s.ring, h), x) == if x in placed then Num(Points(x, placed[x]), h) else 0)
    }

    /** Keys and buckets agree: each hash is a key as often as its bucket is long. */
    ghost predicate InStep(s: RingState, placed: map<string, nat>)
    {
      && InBuckets(s, placed)
      && (forall h :: Num(s.keys, h) == |RingAt(s.ring, h)|)
    }

    /** No other node is at any of the points c to n of x. */
    ghost predicate Clear(s: RingState, x: string, c: nat, n: nat)
    {
      forall i | c <= i < n :: CountIn(RingAt(s.ring, Point(x, i)), x) == |RingAt(s.ring, Point(x, i))|
    }
  }

  function RingAt(ring: map<nat, seq<Any>>, h: nat): seq<Any>
  {
    if h in ring then ring[h] else []
  }

  ghost predicate NoEmpty(ring: map<nat, seq<Any>>)
  {
    forall h | h in ring :: ring[h] != []
  }

  function Copies(node: Any, n: nat): (r: seq<Any>)
    ensures |r| == n && forall i | 0 <= i < n :: r[i] == node
  {
    seq(n, _ => node)
  }

  ghost predicate Sorted(keys: seq<nat>)
  {
    forall i, j | 0 <= i < j < |keys| :: keys[i] <= keys[j]
  }

  /** How often h occurs. */
  function Num(keys: seq<nat>, h: nat): nat
  {
    multiset(keys)[h]
  }

  function Minus(a: nat, b: nat): nat
  {
    if a < b then 0 else a - b
  }

  /** The index of the first key that is at least h; the length if there is none. */
  function First(keys: seq<nat>, h: nat): (i: nat)
    ensures i <= |keys| && (forall j | 0 <= j < i :: keys[j] < h) && (i < |keys| ==> keys[i] >= h)
  {
    if keys == [] || keys[0] >= h then 0 else 1 + First(keys[1..], h)
  }

  /** Going around the ring from h, a is met no later than b. */
  predicate NoLater(h: nat, a: nat, b: nat)
  {
    if a >= h then b >= h ==> a <= b else b < h && a <= b
  }

  // ------------------------------------------------------------ numerals

  /** The number that a numeral stands for. */
  function ValueOf(digits: string): int
  {
    if digits == "" then 0 else 10 * ValueOf(digits[..|digits| - 1]) + (digits[|digits| - 1] as int - '0' as int)
  }

  lemma ValueSnoc(digits: string, c: char)
    ensures ValueOf(digits + [c]) == 10 * ValueOf(digits) + (c as int - '0' as int)
  {
    assert (digits + [c])[..|digits|] == digits;
  }

  /** A numeral is read back as its number; so different numbers have different numerals. */
  lemma {:induction false} ItoaValue(n: nat)
    ensures ValueOf(Itoa(n)) == n
  {
    hide ValueOf;
    if n >= 10 {
      ItoaValue(n / 10);
      ValueSnoc(Itoa(n / 10), (n % 10 + '0' as int) as char);
    } else {
      ValueSnoc("", (n % 10 + '0' as int) as char);
      ValueOfNone();
    }
  }

  lemma ValueOfNone()
    ensures ValueOf("") == 0
  {
  }

  lemma {:induction false} ItoaDigits(n: nat)
    ensures Itoa(n) != "" && forall i | 0 <= i < |Itoa(n)| :: '0' <= Itoa(n)[i] <= '9'
  {
    if n >= 10 {
      ItoaDigits(n / 10);
    }
  }

  lemma SameEnd(x: string, s: string, t: string)
    requires x + s == x + t
    ensures s == t
  {
    assert (x + s)[|x|..] == s && (x + t)[|x|..] == t;
  }

  /** The hash gives different values to different strings. */
  ghost predicate Injective(hash: string -> nat)
  {
    forall s, t | hash(s) == hash(t) :: s == t
  }

  /** With a hash that does not collide, the points of a node are different from one another. */
  lemma PointsDistinct(H: Hashing, x: string, i: nat, j: nat)
    requires Injective(H.hash) && H.Point(x, i) == H.Point(x, j)
    ensures i == j
  {
    assert x + Itoa(i) == x + Itoa(j);
    SameEnd(x, Itoa(i), Itoa(j));
    ItoaValue(i);
    ItoaValue(j);
  }

  lemma NextDigit(j: nat, d: nat)
    requires d < 10
    ensures Itoa(d) == [(d + '0' as int) as char]
    ensures j > 0 ==> Itoa(10 * j + d) == Itoa(j) + Itoa(d)
  {
    var n := 10 * j + d;
    assert n / 10 == j && n % 10 == d;
    assert Itoa(d) == "" + [(d + '0' as int) as char];
  }

  /** Whatever the hash, nodes of which one is named like the other with a number behind it share points. */
  lemma SharedPoint(H: Hashing, x: string, j: nat, d: nat)
    requires j > 0 && d < 10
    ensures H.Point(x + Itoa(j), d) == H.Point(x, 10 * j + d)
  {
    hide Itoa;
    NextDigit(j, d);
    assert x + Itoa(j) + Itoa(d) == x + Itoa(10 * j + d);
  }

  // ------------------------------------------------------------ buckets

  lemma {:induction false} WithoutAbsent(H: Hashing, bucket: seq<Any>, x: string)
    requires H.CountIn(bucket, x) == 0
    ensures H.Without(bucket, x) == bucket
  {
    if bucket != [] {
      WithoutAbsent(H, bucket[1..], x);
    }
  }

  lemma {:induction false} WithoutCount(H: Hashing, bucket: seq<Any>, x: string, y: string)
    ensures H.CountIn(H.Without(bucket, x), y) == if x == y then 0 else H.CountIn(bucket, y)
    ensures |H.Without(bucket, x)| == |bucket| - H.CountIn(bucket, x)
  {
    if bucket != [] {
      WithoutCount(H, bucket[1..], x, y);
      var rest := H.Without(bucket[1..], x);
      if H.repr(bucket[0]) == x {
        assert H.Without(bucket, x) == [] + rest == rest;
      } else {
        assert ([bucket[0]] + rest)[1..] == rest;
      }
    }
  }

  lemma {:induction false} WithoutCopies(H: Hashing, bucket: seq<Any>, node: Any, n: nat, y: string)
    ensures H.CountIn(bucket + Copies(node, n), y) == H.CountIn(bucket, y) + if y == H.repr(node) then n else 0
    ensures H.Without(bucket + Copies(node, n), H.repr(node)) == H.Without(bucket, H.repr(node))
    decreases |bucket| + n
  {
    var all := bucket + Copies(node, n);
    if bucket != [] {
      WithoutCopies(H, bucket[1..], node, n, y);
      assert all[1..] == bucket[1..] + Copies(node, n) && all[0] == bucket[0];
    } else if n > 0 {
      WithoutCopies(H, [], node, n - 1, y);
      assert all[1..] == [] + Copies(node, n - 1) && all[0] == node;
    }
  }

  /** A bucket that only x is in gives x. */
  lemma {:induction false} OnlyOne(H: Hashing, bucket: seq<Any>, x: string, i: nat)
    requires H.CountIn(bucket, x) == |bucket| && i < |bucket|
    ensures H.repr(bucket[i]) == x
  {
    if i > 0 {
      OnlyOne(H, bucket[1..], x, i - 1);
    }
  }

  lemma WithoutTwice(H: Hashing, bucket: seq<Any>, x: string)
    ensures H.Without(H.Without(bucket, x), x) == H.Without(bucket, x)
  {
    WithoutCount(H, bucket, x, x);
    WithoutAbsent(H, H.Without(bucket, x), x);
  }

  lemma OneMoreCopy(bucket: seq<Any>, node: Any, n: nat)
    ensures bucket + Copies(node, n) + [node] == bucket + Copies(node, n + 1)
  {
  }

  lemma RingAtUpdate(ring: map<nat, seq<Any>>, hash: nat, bucket: seq<Any>, h: nat)
    requires NoEmpty(ring) && bucket != []
    ensures NoEmpty(ring[hash := bucket])
    ensures RingAt(ring[hash := bucket], h) == if h == hash then bucket else RingAt(ring, h)
  {
  }

  // ------------------------------------------------------------ keys

  lemma NumSplit(a: seq<nat>, b: seq<nat>, h: nat)
    ensures Num(a + b, h) == Num(a, h) + Num(b, h)
  {
  }

  lemma NumIn(keys: seq<nat>, h: nat)
    ensures h in keys <==> Num(keys, h) > 0
  {
  }

  lemma SortedHead(a: seq<nat>, b: seq<nat>)
    requires Sorted(a) && Sorted(b) && a != [] && forall h :: Num(a, h) == Num(b, h)
    ensures b != [] && a[0] <= b[0]
  {
    hide Num;
    NumIn(a, a[0]);
    NumIn(b, a[0]);
    NumIn(b, b[0]);
    NumIn(a, b[0]);
  }

  lemma {:induction false} SortedUnique(a: seq<nat>, b: seq<nat>)
    requires Sorted(a) && Sorted(b) && forall h :: Num(a, h) == Num(b, h)
    ensures a == b
  {
    hide Num;
    if a != [] {
      SortedHead(a, b);
      SortedHead(b, a);
      var a', b' := a[1..], b[1..];
      assert a == [a[0]] + a' && b == [b[0]] + b';
      forall h ensures Num(a', h) == Num(b', h) {
        NumSplit([a[0]], a', h);
        NumSplit([b[0]], b', h);
      }
      SortedUnique(a', b');
    } else if b != [] {
      SortedHead(b, a);
    }
  }

  lemma RingsEqual(r: map<nat, seq<Any>>, r': map<nat, seq<Any>>)
    requires NoEmpty(r) && NoEmpty(r') && forall h :: RingAt(r, h) == RingAt(r', h)
    ensures r == r'
  {
    forall h ensures h in r <==> h in r' {
      assert RingAt(r, h) == RingAt(r', h);
    }
    forall h | h in r ensures r[h] == r'[h] {
      assert RingAt(r, h) == RingAt(r', h);
    }
  }

  lemma SplitPoints(H: Hashing, x: string, c: nat, n: nat, h: nat)
    requires c <= n
    ensures Num(H.Points(x, n), h) == Num(H.Points(x, c), h) + Num(H.Spare(x, c, n), h)
  {
    assert H.Points(x, n) == H.Points(x, c) + H.Spare(x, c, n);
  }

  lemma InSpare(H: Hashing, x: string, c: nat, n: nat, h: nat)
    requires c <= n
    ensures Num(H.Spare(x, c, n), h) > 0 <==> exists i :: c <= i < n && H.Point(x, i) == h
  {
    hide Num;
    var spare := H.Spare(x, c, n);
    NumIn(spare, h);
    if i :| c <= i < n && H.Point(x, i) == h {
      assert spare[i - c] == h;
    }
    if h in spare {
      var j :| 0 <= j < |spare| && spare[j] == h;
      assert H.Point(x, j + c) == h;
    }
  }

  lemma NumOne(a: nat, h: nat)
    ensures Num([a], h) == if a == h then 1 else 0
  {
  }

  lemma NumAppend(keys: seq<nat>, a: nat, h: nat)
    ensures Num(keys + [a], h) == Num(keys, h) + if a == h then 1 else 0
  {
    NumSplit(keys, [a], h);
    NumOne(a, h);
  }

  lemma NumAt(keys: seq<nat>, i: nat, a: nat, h: nat)
    requires i <= |keys|
    ensures Num(keys[..i] + [a] + keys[i..], h) == Num(keys, h) + if a == h then 1 else 0
  {
    hide Num;
    NumSplit(keys[..i] + [a], keys[i..], h);
    NumAppend(keys[..i], a, h);
    NumSplit(keys[..i], keys[i..], h);
    assert keys == keys[..i] + keys[i..];
  }

  lemma NextPoint(H: Hashing, x: string, i: nat, h: nat)
    ensures Num(H.Points(x, i + 1), h) == Num(H.Points(x, i), h) + if H.Point(x, i) == h then 1 else 0
  {
    assert H.Points(x, i + 1) == H.Points(x, i) + [H.Point(x, i)];
    NumAppend(H.Points(x, i), H.Point(x, i), h);
  }

  lemma {:induction false} FirstUnique(keys: seq<nat>, h: nat, i: nat)
    requires i <= |keys| && (forall j | 0 <= j < i :: keys[j] < h) && (i < |keys| ==> keys[i] >= h)
    ensures i == First(keys, h)
  {
    if i > 0 {
      FirstUnique(keys[1..], h, i - 1);
    }
  }

  /** Inserting a key where the search for it ends keeps the keys sorted. */
  lemma InsertSorted(keys: seq<nat>, a: nat)
    requires Sorted(keys)
    ensures Sorted(keys[..First(keys, a)] + [a] + keys[First(keys, a)..])
  {
  }

  /** A key is where the search for it ends, or nowhere. */
  lemma FirstFinds(keys: seq<nat>, a: nat)
    requires Sorted(keys)
    ensures a in keys <==> First(keys, a) < |keys| && keys[First(keys, a)] == a
  {
  }

  /** Taking the key that the search for it finds. */
  function Take(keys: seq<nat>, a: nat): seq<nat>
  {
    var i := First(keys, a);
    if i < |keys| && keys[i] == a then keys[..i] + keys[i + 1..] else keys
  }

  lemma TakeIs(keys: seq<nat>, a: nat)
    ensures Take(keys, a) ==
            (var i := First(keys, a); if i < |keys| && keys[i] == a then keys[..i] + keys[i + 1..] else keys)
  {
  }

  lemma MinusTwice(a: nat, b: nat, c: nat)
    ensures Minus(a, 0) == a
    ensures Minus(Minus(a, b), c) == Minus(a, b + c)
  {
  }

  lemma TakeSorted(keys: seq<nat>, a: nat)
    requires Sorted(keys)
    ensures Sorted(Take(keys, a))
  {
    hide First;
    var i, taken := First(keys, a), Take(keys, a);
    forall j, k | 0 <= j < k < |taken| ensures taken[j] <= taken[k] {
      assert taken == keys || (taken[j] == keys[if j < i then j else j + 1]
                               && taken[k] == keys[if k < i then k else k + 1]);
    }
  }

  lemma TakeMeans(keys: seq<nat>, a: nat, h: nat)
    requires Sorted(keys)
    ensures Sorted(Take(keys, a))
    ensures Num(Take(keys, a), h) == Minus(Num(keys, h), if a == h then 1 else 0)
  {
    hide Num, First, Sorted;
    TakeSorted(keys, a);
    FirstFinds(keys, a);
    NumIn(keys, a);
    var i := First(keys, a);
    if a in keys {
      TakeOut(keys, i, Take(keys, a));
      NumAt(Take(keys, a), i, a, h);
    }
  }

  lemma TakeOut(keys: seq<nat>, i: nat, taken: seq<nat>)
    requires i < |keys| && taken == keys[..i] + keys[i + 1..]
    ensures taken[..i] + [keys[i]] + taken[i..] == keys
  {
    assert taken[..i] == keys[..i] && taken[i..] == keys[i + 1..];
  }

  // ------------------------------------------------------------ adding and removing

  lemma PlaceInBuckets(H: Hashing, s: RingState, placed: map<string, nat>, node: Any, r: nat, s': RingState)
    requires H.InBuckets(s, placed) && H.repr(node) !in placed && H.Placed(s, node, r, s')
    ensures H.InBuckets(s', placed[H.repr(node) := r])
  {
    hide H.Points, H.CountIn, RingAt, Num, NoEmpty, Sorted;
    var x := H.repr(node);
    forall h, y
      ensures H.CountIn(RingAt(s'.ring, h), y) ==
              H.CountIn(RingAt(s.ring, h), y) + if y == x then Num(H.Points(x, r), h) else 0
    {
      WithoutCopies(H, RingAt(s.ring, h), node, Num(H.Points(x, r), h), y);
    }
  }

  /** Placing an absent node keeps keys and buckets in step, at any number of points. */
  lemma PlaceInStep(H: Hashing, s: RingState, placed: map<string, nat>, node: Any, r: nat, s': RingState)
    requires H.InStep(s, placed) && H.repr(node) !in placed && H.Placed(s, node, r, s')
    ensures H.InStep(s', placed[H.repr(node) := r])
  {
    hide H.Points, H.CountIn, RingAt, Num, NoEmpty, Sorted, H.InBuckets;
    PlaceInBuckets(H, s, placed, node, r, s');
    var x := H.repr(node);
    forall h ensures Num(s'.keys, h) == |RingAt(s'.ring, h)| {
      assert RingAt(s'.ring, h) == RingAt(s.ring, h) + Copies(node, Num(H.Points(x, r), h));
      assert Num(s.keys, h) == |RingAt(s.ring, h)|;
    }
  }

  /** What a removal leaves in one bucket. */
  lemma RemoveAtBucket(H: Hashing, s: RingState, placed: map<string, nat>, x: string, n: nat, s': RingState, h: nat,
      y: string)
    requires H.InBuckets(s, placed) && x in placed && placed[x] <= n && H.Removed(s, x, n, s')
    ensures |RingAt(s'.ring, h)| == |RingAt(s.ring, h)| - H.CountIn(RingAt(s.ring, h), x)
    ensures H.CountIn(RingAt(s'.ring, h), y) == if x == y then 0 else H.CountIn(RingAt(s.ring, h), y)
  {
    hide H.Points, H.Spare, H.CountIn, H.Without, RingAt, Num, NoEmpty, Sorted;
    SplitPoints(H, x, placed[x], n, h);
    var bucket := RingAt(s.ring, h);
    assert H.CountIn(bucket, x) == Num(H.Points(x, placed[x]), h);
    assert RingAt(s'.ring, h) == if Num(H.Points(x, n), h) > 0 then H.Without(bucket, x) else bucket;
    WithoutCount(H, bucket, x, y);
  }

  lemma RemoveInBuckets(H: Hashing, s: RingState, placed: map<string, nat>, x: string, n: nat, s': RingState)
    requires H.InBuckets(s, placed) && x in placed && placed[x] <= n && H.Removed(s, x, n, s')
    ensures H.InBuckets(s', placed - {x})
  {
    hide H.Points, H.Spare, H.CountIn, H.Without, RingAt, Num, NoEmpty, Sorted;
    forall h, y
      ensures H.CountIn(RingAt(s'.ring, h), y) == if y in placed - {x} then Num(H.Points(y, placed[y]), h) else 0
    {
      RemoveAtBucket(H, s, placed, x, n, s', h, y);
      assert H.CountIn(RingAt(s.ring, h), y) == if y in placed then Num(H.Points(y, placed[y]), h) else 0;
    }
  }

  /** When keys and bucket still agree at one hash after a removal. */
  lemma RemoveAt(H: Hashing, s: RingState, placed: map<string, nat>, x: string, n: nat, s': RingState, h: nat)
    requires H.InStep(s, placed) && x in placed && placed[x] <= n && H.Removed(s, x, n, s')
    ensures Num(s'.keys, h) == |RingAt(s'.ring, h)|
            <==> H.CountIn(RingAt(s.ring, h), x) == |RingAt(s.ring, h)| || Num(H.Spare(x, placed[x], n), h) == 0
  {
    hide H.Points, H.Spare, H.CountIn, H.Without, RingAt, Num, NoEmpty, Sorted;
    SplitPoints(H, x, placed[x], n, h);
    RemoveAtBucket(H, s, placed, x, n, s', h, x);
    assert H.CountIn(RingAt(s.ring, h), x) == Num(H.Points(x, placed[x]), h);
    assert Num(s.keys, h) == |RingAt(s.ring, h)|;
  }

  /** Removing a node keeps keys and buckets in step iff no other node is at a point that the node could have but
      has not.  For a node with all its points, there is nothing to check. */
  lemma RemoveInStepIff(H: Hashing, s: RingState, placed: map<string, nat>, x: string, n: nat, s': RingState)
    requires H.InStep(s, placed) && x in placed && placed[x] <= n && H.Removed(s, x, n, s')
    ensures H.InStep(s', placed - {x}) <==> H.Clear(s, x, placed[x], n)
  {
    hide H.Points, H.Spare, H.CountIn, H.Without, RingAt, Num, NoEmpty, Sorted, H.InBuckets;
    RemoveInBuckets(H, s, placed, x, n, s');
    var c := placed[x];
    if H.Clear(s, x, c, n) {
      forall h ensures Num(s'.keys, h) == |RingAt(s'.ring, h)| {
        RemoveAt(H, s, placed, x, n, s', h);
        InSpare(H, x, c, n, h);
      }
    }
    if H.InStep(s', placed - {x}) {
      forall i | c <= i < n ensures H.CountIn(RingAt(s.ring, H.Point(x, i)), x) == |RingAt(s.ring, H.Point(x, i))| {
        var h := H.Point(x, i);
        RemoveAt(H, s, placed, x, n, s', h);
        InSpare(H, x, c, n, h);
        assert Num(s'.keys, h) == |RingAt(s'.ring, h)|;
      }
    }
  }

  /** Buckets and nodes after adding an absent node and removing it again. */
  lemma AddRemoveBuckets(H: Hashing, s: RingState, node: Any, r: nat, n: nat, s1: RingState, s2: RingState)
    requires r <= n && NoEmpty(s.ring) && H.repr(node) !in s.nodes
    requires forall h :: H.CountIn(RingAt(s.ring, h), H.repr(node)) == 0
    requires H.Placed(s, node, r, s1) && H.Removed(s1, H.repr(node), n, s2)
    ensures s2.ring == s.ring && s2.nodes == s.nodes
  {
    hide H.Points, H.Spare, H.CountIn, H.Without, RingAt, Num, NoEmpty, Sorted;
    var x := H.repr(node);
    forall h ensures RingAt(s2.ring, h) == RingAt(s.ring, h) {
      var bucket, c := RingAt(s.ring, h), Num(H.Points(x, r), h);
      assert H.CountIn(bucket, x) == 0;
      assert RingAt(s1.ring, h) == bucket + Copies(node, c);
      WithoutCopies(H, bucket, node, c, x);
      WithoutAbsent(H, bucket, x);
      SplitPoints(H, x, r, n, h);
      var added := bucket + Copies(node, c);
      assert RingAt(s2.ring, h) == if Num(H.Points(x, n), h) > 0 then H.Without(added, x) else added;
      assert c == 0 ==> bucket + Copies(node, c) == bucket;
    }
    RingsEqual(s2.ring, s.ring);
  }

  /** Of the keys, those at unused points of the node are lost. */
  lemma AddRemoveKeys(H: Hashing, s: RingState, node: Any, r: nat, n: nat, s1: RingState, s2: RingState, h: nat)
    requires r <= n && H.Placed(s, node, r, s1) && H.Removed(s1, H.repr(node), n, s2)
    ensures Num(s2.keys, h) == Minus(Num(s.keys, h), Num(H.Spare(H.repr(node), r, n), h))
  {
    hide H.Points, H.Spare, H.Without, RingAt, Num, NoEmpty, Sorted;
    SplitPoints(H, H.repr(node), r, n, h);
    assert Num(s2.keys, h) == Minus(Num(s1.keys, h), Num(H.Points(H.repr(node), n), h));
  }

  /** Taking away what `spare` counts leaves the same sorted keys iff none of it is among them. */
  lemma SameKeysIff(keys: seq<nat>, keys': seq<nat>, spare: seq<nat>)
    requires Sorted(keys) && Sorted(keys') && forall h :: Num(keys', h) == Minus(Num(keys, h), Num(spare, h))
    ensures keys' == keys <==> forall h | h in spare :: h !in keys
  {
    hide Num, Sorted;
    if forall h | h in spare :: h !in keys {
      forall h ensures Num(keys', h) == Num(keys, h) {
        NumIn(spare, h);
        NumIn(keys, h);
      }
      SortedUnique(keys', keys);
    }
    if h :| h in spare && h in keys {
      NumIn(spare, h);
      NumIn(keys, h);
      assert Num(keys', h) < Num(keys, h);
    }
  }

  /** Adding an absent node and removing it again always restores buckets and nodes, and restores the keys, and so
      everything, iff no point left unused was a key. */
  lemma AddRemoveRestoresIff(H: Hashing, s: RingState, node: Any, r: nat, n: nat, s1: RingState, s2: RingState)
    requires r <= n && Sorted(s.keys) && NoEmpty(s.ring) && H.repr(node) !in s.nodes
    requires forall h :: H.CountIn(RingAt(s.ring, h), H.repr(node)) == 0
    requires H.Placed(s, node, r, s1) && H.Removed(s1, H.repr(node), n, s2)
    ensures s2.ring == s.ring && s2.nodes == s.nodes
    ensures s2 == s <==> forall i | r <= i < n :: H.Point(H.repr(node), i) !in s.keys
  {
    hide H.Points, H.Spare, H.CountIn, H.Without, RingAt, Num, NoEmpty, Sorted;
    AddRemoveBuckets(H, s, node, r, n, s1, s2);
    var spare := H.Spare(H.repr(node), r, n);
    forall h ensures Num(s2.keys, h) == Minus(Num(s.keys, h), Num(spare, h)) {
      AddRemoveKeys(H, s, node, r, n, s1, s2, h);
    }
    SameKeysIff(s.keys, s2.keys, spare);
    forall h ensures h in spare <==> exists i :: r <= i < n && H.Point(H.repr(node), i) == h {
      InSpare(H, H.repr(node), r, n, h);
      NumIn(spare, h);
    }
  }

  /** A hash is a key after an addition iff it was one, or is that of the node with one of its numbers behind it. */
  lemma PlacedKeys(H: Hashing, s: RingState, node: Any, r: nat, s': RingState, h: nat)
    requires H.Placed(s, node, r, s')
    ensures h in s'.keys <==> h in s.keys || exists i: nat :: i < r && H.hash(H.repr(node) + Itoa(i)) == h
  {
    var points := H.Points(H.repr(node), r);
    hide Num;
    NumIn(s'.keys, h);
    NumIn(s.keys, h);
    NumIn(points, h);
    assert Num(s'.keys, h) == Num(s.keys, h) + Num(points, h);
    hide H.Placed;
    if h in points {
      var i :| 0 <= i < r && points[i] == h;
      assert H.hash(H.repr(node) + Itoa(i)) == h;
    }
    if i: nat :| i < r && H.hash(H.repr(node) + Itoa(i)) == h {
      assert points[i] == h;
    }
  }

  /** The keys are the old ones and the hashes of the node with the first r numbers behind it. */
  ghost predicate HashesAdded(H: Hashing, keys: seq<nat>, x: string, r: nat, keys': seq<nat>)
  {
    forall h :: h in keys' <==> h in keys || exists i: nat :: i < r && H.hash(x + Itoa(i)) == h
  }

  lemma PlacedHashes(H: Hashing, s: RingState, node: Any, r: nat, s': RingState)
    requires H.Placed(s, node, r, s')
    ensures HashesAdded(H, s.keys, H.repr(node), r, s'.keys)
  {
    hide H.Placed;
    forall h {
      PlacedKeys(H, s, node, r, s', h);
    }
  }

  /** With a hash that does not collide, a first node has as many different keys as it has points. */
  lemma FirstNodeKeys(H: Hashing, s: RingState, node: Any, r: nat, s': RingState)
    requires H.Placed(s, node, r, s')
    ensures Injective(H.hash) && s.keys == [] ==> |s'.keys| == r && NoDuplicates(s'.keys)
  {
    if Injective(H.hash) && s.keys == [] {
      FirstKeys(H, s, node, r, s');
    }
  }

  lemma FirstKeys(H: Hashing, s: RingState, node: Any, r: nat, s': RingState)
    requires Injective(H.hash) && s.keys == [] && H.Placed(s, node, r, s')
    ensures |s'.keys| == r && NoDuplicates(s'.keys)
  {
    var points := H.Points(H.repr(node), r);
    forall i, j | 0 <= i < j < r ensures points[i] != points[j] {
      if points[i] == points[j] {
        PointsDistinct(H, H.repr(node), i, j);
      }
    }
    forall h ensures Num(s'.keys, h) == Num(points, h) {
      NumIn([], h);
    }
    SameNum(s'.keys, points);
  }

  lemma SameNum(a: seq<nat>, b: seq<nat>)
    requires NoDuplicates(b) && forall h :: Num(a, h) == Num(b, h)
    ensures |a| == |b| && NoDuplicates(a)
  {
    forall h ensures multiset(a)[h] == multiset(b)[h] {
      assert Num(a, h) == Num(b, h);
    }
    assert multiset(a) == multiset(b);
    assert |multiset(a)| == |multiset(b)|;
    forall i, j | 0 <= i < j < |a| ensures a[i] != a[j] {
      if a[i] == a[j] {
        AtLeastTwo(a, i, j);
        AtMostOne(b, a[i]);
      }
    }
  }

  lemma AtLeastTwo(a: seq<nat>, i: nat, j: nat)
    requires i < j < |a| && a[i] == a[j]
    ensures multiset(a)[a[i]] >= 2
  {
    assert a == a[..j] + ([a[j]] + a[j + 1..]);
    assert a[..j][i] == a[i];
    assert a[i] in a[..j];
  }

  lemma {:induction false} AtMostOne(b: seq<nat>, h: nat)
    requires NoDuplicates(b)
    ensures multiset(b)[h] <= 1
  {
    if b != [] {
      assert b == [b[0]] + b[1..];
      AtMostOne(b[1..], h);
      assert b[0] !in b[1..];
    }
  }

  /** With a hash that collides, removing a node that was added with no points takes the key of another node,
      whose bucket stays behind without a key. */
  lemma PartialAddExample(H: Hashing, node: Any, other: Any, n: nat)
    requires n >= 1 && (forall t :: H.hash(t) == 7) && H.repr(node) != H.repr(other)
    ensures var s := RingState([7], map[7 := [other]], {H.repr(other)});
            var s1, s2 := s.(nodes := s.nodes + {H.repr(node)}), s.(keys := []);
            && H.InStep(s, map[H.repr(other) := 1]) && !H.InStep(s2, map[H.repr(other) := 1])
            && H.Placed(s, node, 0, s1) && H.Removed(s1, H.repr(node), n, s2)
  {
    hide Num;
    var s := RingState([7], map[7 := [other]], {H.repr(other)});
    forall x ensures H.Points(x, 0) == [] && H.Points(x, 1) == [7] {
      assert H.Points(x, 1)[0] == H.Point(x, 0);
    }
    forall h ensures Num([], h) == 0 && Num([7], h) == if h == 7 then 1 else 0 {
      NumIn([], h);
      NumOne(7, h);
    }
    forall h ensures RingAt(s.ring, h) + Copies(node, 0) == RingAt(s.ring, h) {
    }
    forall h ensures Num(H.Points(H.repr(node), n), h) > 0 <==> h == 7 {
      NumIn(H.Points(H.repr(node), n), h);
      assert H.Points(H.repr(node), n)[0] == 7;
    }
    assert H.CountIn([other], H.repr(node)) == 0;
    WithoutAbsent(H, [other], H.repr(node));
    assert Num([], 7) != |RingAt(s.ring, 7)|;
  }

  // ------------------------------------------------------------ looking up

  /** The key that decides a lookup: the first one that is at least h, or else the first of all. */
  function Deciding(keys: seq<nat>, h: nat): nat
    requires keys != []
  {
    keys[First(keys, h) % |keys|]
  }

  lemma Wrap(i: nat, n: nat)
    requires i <= n && n > 0
    ensures i % n == if i < n then i else 0
  {
  }

  /** The key that decides a lookup is the first one around the ring. */
  lemma DecidingKey(keys: seq<nat>, h: nat)
    requires Sorted(keys) && keys != []
    ensures Deciding(keys, h) in keys
    ensures forall b | b in keys :: NoLater(h, Deciding(keys, h), b)
  {
    var i := First(keys, h);
    Wrap(i, |keys|);
    var k := Deciding(keys, h);
    assert k == if i < |keys| then keys[i] else keys[0];
    forall b | b in keys ensures NoLater(h, k, b) {
      var j :| 0 <= j < |keys| && keys[j] == b;
      assert j < i ==> keys[j] < h;
    }
  }

  /** If the deciding key of a set of keys is in a part of them, it is the deciding key of the part too. */
  lemma SameDecidingKey(keys: seq<nat>, part: seq<nat>, h: nat)
    requires Sorted(keys) && Sorted(part) && keys != []
    requires forall b | b in part :: b in keys
    requires Deciding(keys, h) in part
    ensures Deciding(part, h) == Deciding(keys, h)
  {
    hide Deciding;
    DecidingKey(keys, h);
    DecidingKey(part, h);
  }

  lemma RingEmpty(H: Hashing, s: RingState, placed: map<string, nat>)
    requires H.InStep(s, placed) && NoEmpty(s.ring)
    ensures s.ring == map[] <==> s.keys == []
    ensures forall h :: h in s.keys <==> RingAt(s.ring, h) != []
  {
    hide H.Points, H.CountIn, Num, Sorted;
    forall h ensures h in s.keys <==> RingAt(s.ring, h) != [] {
      NumIn(s.keys, h);
      assert Num(s.keys, h) == |RingAt(s.ring, h)|;
    }
    if s.keys != [] {
      assert RingAt(s.ring, s.keys[0]) != [];
    }
    if h :| h in s.ring {
      assert RingAt(s.ring, h) != [];
    }
  }

  /** A lookup by way of the deciding key. */
  lemma LookupAt(H: Hashing, s: RingState, placed: map<string, nat>, v: Any)
    requires H.InStep(s, placed) && NoEmpty(s.ring)
    ensures H.Lookup(s, v) ==
            if s.keys == [] then Nobody else H.Pick(RingAt(s.ring, Deciding(s.keys, H.hash(H.repr(v)))), v)
  {
    hide H.InStep, First, NoEmpty, RingAt, H.Pick;
    RingEmpty(H, s, placed);
  }

  /** The answer for v comes from the bucket of the key that is met first around the ring from the hash of v on; of
      several nodes there, a second hash chooses. */
  ghost predicate Serves(H: Hashing, s: RingState, v: Any, answer: Answer)
  {
    exists k :: k in s.keys && ServedAt(H, s, v, answer, k)
  }

  ghost predicate ServedAt(H: Hashing, s: RingState, v: Any, answer: Answer, k: nat)
  {
    && (forall b | b in s.keys :: NoLater(H.hash(H.repr(v)), k, b))
    && var bucket := RingAt(s.ring, k);
       bucket != []
       && answer == Chosen(bucket[if |bucket| == 1 then 0
                                  else H.hash("16777619:" + H.format(v)) % |bucket|])
  }

  lemma LookupServes(H: Hashing, s: RingState, placed: map<string, nat>, v: Any)
    requires H.InStep(s, placed) && NoEmpty(s.ring) && Sorted(s.keys) && s.keys != []
    ensures Serves(H, s, v, H.Lookup(s, v))
  {
    hide H.InStep, First, NoEmpty, H.Lookup, Sorted, RingAt, Itoa;
    RingEmpty(H, s, placed);
    LookupAt(H, s, placed, v);
    DecidingKey(s.keys, H.hash(H.repr(v)));
    InnerPrefix(H, v);
    assert ServedAt(H, s, v, H.Lookup(s, v), Deciding(s.keys, H.hash(H.repr(v))));
  }

  lemma InnerPrefix(H: Hashing, v: Any)
    ensures H.InnerRepr(v) == "16777619:" + H.format(v)
  {
    hide Itoa;
    NextDigit(0, 1);
    NextDigit(1, 6);
    NextDigit(16, 7);
    NextDigit(167, 7);
    NextDigit(1677, 7);
    NextDigit(16777, 6);
    NextDigit(167776, 1);
    NextDigit(1677761, 9);
    assert Itoa(PRIME) == "16777619";
    assert "16777619:" == "16777619" + ":";
  }

  /** A node with a point is in a bucket, and so there is a key. */
  lemma PointsNotLost(H: Hashing, s: RingState, placed: map<string, nat>, x: string)
    requires H.InStep(s, placed) && NoEmpty(s.ring) && x in placed && placed[x] > 0
    ensures s.keys != []
  {
    hide Num, Sorted, RingAt, NoEmpty, H.CountIn;
    var h := H.Point(x, 0);
    assert H.Points(x, placed[x])[0] == h;
    NumIn(H.Points(x, placed[x]), h);
    NumIn(s.keys, h);
    assert H.CountIn(RingAt(s.ring, h), x) == Num(H.Points(x, placed[x]), h);
    assert Num(s.keys, h) == |RingAt(s.ring, h)|;
  }

  /** A lookup fails only when no node has a point, never divides by zero, and finds a node that was added. */
  lemma LookupFinds(H: Hashing, s: RingState, placed: map<string, nat>, v: Any)
    requires H.InStep(s, placed) && NoEmpty(s.ring) && Sorted(s.keys)
    ensures if forall x | x in placed :: placed[x] == 0 then H.Lookup(s, v) == Nobody
            else
              && H.Lookup(s, v).Chosen? && H.repr(H.Lookup(s, v).node) in placed
              && placed[H.repr(H.Lookup(s, v).node)] > 0
  {
    hide Num, Sorted, RingAt, NoEmpty, H.CountIn, Deciding, First, H.Lookup, H.Points;
    RingEmpty(H, s, placed);
    LookupAt(H, s, placed, v);
    if s.keys == [] {
      forall x | x in placed ensures placed[x] == 0 {
        if placed[x] > 0 {
          PointsNotLost(H, s, placed, x);
        }
      }
    } else {
      var h := Deciding(s.keys, H.hash(H.repr(v)));
      DecidingKey(s.keys, H.hash(H.repr(v)));
      var bucket := RingAt(s.ring, h);
      PickOne(H, bucket, v);
      var x := H.repr(H.Pick(bucket, v).node);
      assert H.CountIn(RingAt(s.ring, h), x) == if x in placed then Num(H.Points(x, placed[x]), h) else 0;
      NoPoints(H, x, h);
    }
  }

  lemma NoPoints(H: Hashing, x: string, h: nat)
    ensures Num(H.Points(x, 0), h) == 0
  {
    NumIn(H.Points(x, 0), h);
  }

  lemma PartEmpty(part: seq<nat>, keys: seq<nat>)
    requires forall b | b in part :: b in keys
    ensures part != [] ==> keys != []
  {
    if part != [] {
      assert part[0] in keys;
    }
  }

  lemma PickOne(H: Hashing, bucket: seq<Any>, v: Any)
    requires bucket != []
    ensures H.Pick(bucket, v).Chosen? && H.Pick(bucket, v).node in bucket
    ensures H.CountIn(bucket, H.repr(H.Pick(bucket, v).node)) > 0
  {
    Occurs(H, bucket, if |bucket| == 1 then 0 else H.hash(H.InnerRepr(v)) % |bucket|);
  }

  lemma {:induction false} Occurs(H: Hashing, bucket: seq<Any>, i: nat)
    requires i < |bucket|
    ensures H.CountIn(bucket, H.repr(bucket[i])) > 0
  {
    if i > 0 {
      Occurs(H, bucket[1..], i - 1);
    }
  }

  /** Removing a node that shares no point with others moves only what was looked up at that node. */
  lemma RemoveMovesOnlyItsOwn(H: Hashing, s: RingState, placed: map<string, nat>, x: string, n: nat, s': RingState,
      v: Any)
    requires H.InStep(s, placed) && x in placed && placed[x] <= n && NoEmpty(s.ring) && Sorted(s.keys)
    requires H.Removed(s, x, n, s') && H.Clear(s, x, 0, n)
    ensures (H.Lookup(s, v).Chosen? && H.repr(H.Lookup(s, v).node) == x) || H.Lookup(s', v) == H.Lookup(s, v)
  {
    RemoveInStepIff(H, s, placed, x, n, s');
    hide H.Points, H.CountIn, H.Without, H.Spare, First, Num, RingAt, NoEmpty, Sorted, Deciding, H.Lookup, H.InStep,
         H.Pick;
    RingEmpty(H, s, placed);
    RingEmpty(H, s', placed - {x});
    LookupAt(H, s, placed, v);
    LookupAt(H, s', placed - {x}, v);
    forall b | b in s'.keys ensures b in s.keys {
      NumIn(s.keys, b);
      NumIn(s'.keys, b);
      assert Num(s'.keys, b) == Minus(Num(s.keys, b), Num(H.Points(x, n), b));
    }
    if s.keys == [] {
      PartEmpty(s'.keys, s.keys);
    } else {
      var h := H.hash(H.repr(v));
      DecidingKey(s.keys, h);
      var k := Deciding(s.keys, h);
      NumIn(H.Points(x, n), k);
      if k in H.Points(x, n) {
        AtPoint(H, x, n, k);
        OnlyX(H, RingAt(s.ring, k), x, v);
      } else {
        assert RingAt(s'.ring, k) == RingAt(s.ring, k);
        SameDecidingKey(s.keys, s'.keys, h);
      }
    }
  }

  lemma AtPoint(H: Hashing, x: string, n: nat, k: nat)
    requires k in H.Points(x, n)
    ensures exists i :: 0 <= i < n && H.Point(x, i) == k
  {
  }

  lemma OnlyX(H: Hashing, bucket: seq<Any>, x: string, v: Any)
    requires bucket != [] && H.CountIn(bucket, x) == |bucket|
    ensures H.Pick(bucket, v).Chosen? && H.repr(H.Pick(bucket, v).node) == x
  {
    OnlyOne(H, bucket, x, if |bucket| == 1 then 0 else H.hash(H.InnerRepr(v)) % |bucket|);
  }

  lemma PickCopy(H: Hashing, node: Any, n: nat, v: Any)
    requires n > 0
    ensures H.Pick(Copies(node, n), v) == Chosen(node)
  {
  }

  /** Adding an absent node at points where no other node is moves things only to that node. */
  lemma AddMovesOnlyToIt(H: Hashing, s: RingState, placed: map<string, nat>, node: Any, r: nat, s': RingState, v: Any)
    requires H.InStep(s, placed) && H.repr(node) !in placed && NoEmpty(s.ring) && Sorted(s.keys)
    requires H.Placed(s, node, r, s') && H.Clear(s, H.repr(node), 0, r)
    ensures H.Lookup(s', v) == Chosen(node) || H.Lookup(s', v) == H.Lookup(s, v)
  {
    hide H.Points, H.CountIn, H.Without, H.Spare, First, Num, RingAt, NoEmpty, Sorted, Deciding, H.Lookup, H.Pick;
    var x := H.repr(node);
    PlaceInStep(H, s, placed, node, r, s');
    RingEmpty(H, s, placed);
    RingEmpty(H, s', placed[x := r]);
    LookupAt(H, s, placed, v);
    LookupAt(H, s', placed[x := r], v);
    forall b | b in s.keys ensures b in s'.keys {
      NumIn(s.keys, b);
      NumIn(s'.keys, b);
      assert Num(s'.keys, b) == Num(s.keys, b) + Num(H.Points(x, r), b);
    }
    if s'.keys == [] {
      PartEmpty(s.keys, s'.keys);
    } else {
      var h := H.hash(H.repr(v));
      DecidingKey(s'.keys, h);
      var k := Deciding(s'.keys, h);
      var bucket, c := RingAt(s.ring, k), Num(H.Points(x, r), k);
      assert RingAt(s'.ring, k) == bucket + Copies(node, c);
      NumIn(H.Points(x, r), k);
      if c > 0 {
        AtPoint(H, x, r, k);
        assert H.CountIn(bucket, x) == 0;
        assert bucket == [];
        assert bucket + Copies(node, c) == Copies(node, c);
        PickCopy(H, node, c, v);
      } else {
        assert bucket + Copies(node, c) == bucket;
        SameDecidingKey(s'.keys, s.keys, h);
      }
    }
  }
}
