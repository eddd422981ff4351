/** core/stringx/replacer.go: leftmost-longest replacement of keywords. */
module KeywordReplacer {
  import opened Keywords
  import opened KeywordNode

  const REPLACE_TIMES := 2

  // ------------------------------------------- the rewrite, without an automaton

  /** The stop of the longest word that starts at i and stops at or before t; i if there is none. */
  function LongestAt(words: set<string>, text: string, i: nat, t: nat): (r: nat)
    requires i <= t <= |text|
    ensures i <= r <= t && (r == i || text[i..r] in words)
  {
    if t == i then i else if text[i..t] in words then t else LongestAt(words, text, i, t - 1)
  }

  /** At each position take the longest keyword that starts there, else copy one rune. */
  function Rewrite(mapping: map<string, string>, text: string, i: nat): (r: string)
    requires i <= |text|
    decreases |text| - i
  {
    if i == |text| then ""
    else
      var t := LongestAt(mapping.Keys, text, i, |text|);
      if t == i then [text[i]] + Rewrite(mapping, text, i + 1)
      else mapping[text[i..t]] + Rewrite(mapping, text, t)
  }

  ghost predicate HasOccurrence(mapping: map<string, string>, text: string)
  {
    exists s :: Occurs(mapping.Keys - {""}, text, s)
  }

  /** No keyword starts in text[i..j). */
  ghost predicate Clear(mapping: map<string, string>, text: string, i: nat, j: nat)
  {
    forall s :: Occurs(mapping.Keys - {""}, text, s) ==> !(i <= s.start < j)
  }

  lemma {:induction false} LongestAtIs(words: set<string>, text: string, i: nat, t: nat, stop: nat)
    requires i < stop <= t <= |text| && text[i..stop] in words
    requires forall u | stop < u <= t :: text[i..u] !in words
    ensures LongestAt(words, text, i, t) == stop
  {
    if stop < t {
      LongestAtIs(words, text, i, t - 1, stop);
    }
  }

  /** Where no keyword starts, one rune is copied. */
  lemma RewriteCopies(mapping: map<string, string>, text: string, i: nat)
    requires i < |text| && Clear(mapping, text, i, i + 1)
    ensures Rewrite(mapping, text, i) == [text[i]] + Rewrite(mapping, text, i + 1)
  {
    hide LongestAt;
    var t := LongestAt(mapping.Keys, text, i, |text|);
    var s := Scope(i, t);
    assert |text[i..t]| == t - i;
    assert t != i ==> Occurs(mapping.Keys - {""}, text, s);
  }

  lemma {:induction false} RewriteClear(mapping: map<string, string>, text: string, i: nat, j: nat)
    requires i <= j <= |text| && Clear(mapping, text, i, j)
    ensures Rewrite(mapping, text, i) == text[i..j] + Rewrite(mapping, text, j)
    decreases j - i
  {
    hide Rewrite, Occurs;
    if i < j {
      RewriteCopies(mapping, text, i);
      RewriteClear(mapping, text, i + 1, j);
      assert text[i..j] == [text[i]] + text[i + 1..j];
    }
  }

  /** Where a keyword occurs and no longer one starts, it is replaced, and the rewrite goes on behind it. */
  lemma RewriteLongest(mapping: map<string, string>, text: string, s: Scope)
    requires Occurs(mapping.Keys - {""}, text, s)
    requires forall u | s.stop < u <= |text| :: !Occurs(mapping.Keys - {""}, text, Scope(s.start, u))
    ensures Rewrite(mapping, text, s.start) == mapping[text[s.start..s.stop]] + Rewrite(mapping, text, s.stop)
  {
    forall u | s.stop < u <= |text| ensures text[s.start..u] !in mapping.Keys {
      assert |text[s.start..u]| > 0;
      assert !Occurs(mapping.Keys - {""}, text, Scope(s.start, u));
    }
    LongestAtIs(mapping.Keys, text, s.start, |text|, s.stop);
  }

  /** Where no keyword occurs, the rewrite is the identity. */
  lemma RewriteIdentity(mapping: map<string, string>, text: string)
    requires !HasOccurrence(mapping, text)
    ensures Rewrite(mapping, text, 0) == text
  {
    RewriteClear(mapping, text, 0, |text|);
  }

  // ---------------------------------------------------------------- sorting

  predicate SortedBefore(a: Scope, b: Scope)
  {
    a.start < b.start || (a.start == b.start && a.stop >= b.stop)
  }

  ghost predicate Sorted(s: seq<Scope>)
  {
    forall i, j | 0 <= i < j < |s| :: SortedBefore(s[i], s[j])
  }

  /** Putting a scope before all that it sorts before keeps the order. */
  lemma InsertSorted(r: seq<Scope>, j: nat, x: Scope)
    requires Sorted(r) && j <= |r| && (j > 0 ==> SortedBefore(r[j - 1], x))
    requires forall k | j <= k < |r| :: SortedBefore(x, r[k])
    ensures Sorted(r[..j] + [x] + r[j..])
  {
    forall k | 0 <= k < j ensures SortedBefore(r[k], x) {
      assert k < j - 1 ==> SortedBefore(r[k], r[j - 1]);
    }
    hide SortedBefore;
    var all := r[..j] + [x] + r[j..];
    assert all[j] == x && all[..j] == r[..j] && all[j + 1..] == r[j..];
    forall a, b | 0 <= a < b < |all| ensures SortedBefore(all[a], all[b]) {
      InsertPair(r, j, x, all, a, b);
    }
  }

  lemma InsertPair(r: seq<Scope>, j: nat, x: Scope, all: seq<Scope>, a: nat, b: nat)
    requires Sorted(r) && j <= |r| && all == r[..j] + [x] + r[j..] && a < b < |all|
    requires (forall k | 0 <= k < j :: SortedBefore(r[k], x)) && forall k | j <= k < |r| :: SortedBefore(x, r[k])
    ensures SortedBefore(all[a], all[b])
  {
    hide SortedBefore;
    assert all[a] == if a < j then r[a] else if a == j then x else r[a - 1];
    assert all[b] == if b < j then r[b] else if b == j then x else r[b - 1];
  }

  lemma InsertMembers(r: seq<Scope>, j: nat, x: Scope)
    requires j <= |r|
    ensures multiset(r[..j] + [x] + r[j..]) == multiset(r) + multiset{x}
  {
    assert r == r[..j] + r[j..];
  }

  /** Meets the contract of sort.Slice: the same scopes, in order. */
  method SortScopes(scopes: seq<Scope>) returns (r: seq<Scope>)
    ensures Sorted(r)
    ensures multiset(r) == multiset(scopes)
  {
    hide Sorted;
    r := [];
    SortedNone();
    for i := 0 to |scopes|
      invariant Sorted(r)
      invariant multiset(r) == multiset(scopes[..i])
    {
      var j := |r|;
      while j > 0 && SortedBefore(scopes[i], r[j - 1])
        invariant 0 <= j <= |r|
        invariant forall k | j <= k < |r| :: SortedBefore(scopes[i], r[k])
      {
        j := j - 1;
      }
      InsertSorted(r, j, scopes[i]);
      InsertMembers(r, j, scopes[i]);
      r := r[..j] + [scopes[i]] + r[j..];
      assert scopes[..i + 1] == scopes[..i] + [scopes[i]];
    }
    assert scopes[..|scopes|] == scopes;
  }

  lemma SortedNone()
    ensures Sorted([])
  {
  }

  lemma SameMembers(a: seq<Scope>, b: seq<Scope>)
    requires multiset(a) == multiset(b)
    ensures forall s :: s in a <==> s in b
  {
    assert forall s :: s in a <==> s in multiset(a);
  }

  class Replacer {
    const root: Node
    const mapping: map<string, string>

    ghost predicate Valid()
      reads root, root.nodes.Values
    {
      root.IsBuilt() && root.words == mapping.Keys - {""}
    }

    constructor (mapping: map<string, string>)
      ensures Valid() && fresh(root.nodes.Values) && this.mapping == mapping
    {
      root := new Node();
      this.mapping := mapping;
      new;
      var keys := List(mapping.Keys);
      root.AddAll(keys);
      NonEmptyExact(keys, |keys|);
      assert keys[..|keys|] == keys;
      root.Build();
    }

    /** Two leftmost-longest rewrites; a pass that finds no keyword ends it early. */
    method Replace(text: string) returns (r: string)
      requires Valid()
      ensures r == Rewrite(mapping, Rewrite(mapping, text, 0), 0)
    {
      r := text;
      var i := 0;
      while i < REPLACE_TIMES
        invariant 0 <= i <= REPLACE_TIMES
        invariant i == 0 ==> r == text
        invariant i == 1 ==> r == Rewrite(mapping, text, 0)
        invariant i == 2 ==> r == Rewrite(mapping, Rewrite(mapping, text, 0), 0)
      {
        var replaced;
        var was := r;
        r, replaced := DoReplace(r);
        if !replaced {
          RewriteIdentity(mapping, was);
          return;
        }
        i := i + 1;
      }
    }

    /** One pass over the occurrences, leftmost first and longest first. */
    method DoReplace(text: string) returns (r: string, replaced: bool)
      requires Valid()
      ensures r == Rewrite(mapping, text, 0)
      ensures replaced <==> HasOccurrence(mapping, text)
    {
      var scopes := root.Find(text);
      AllScopesExact(root.words, text);
      if |scopes| == 0 {
        RewriteIdentity(mapping, text);
        return text, false;
      }
      assert scopes[0] in scopes;
      ghost var found := scopes;
      scopes := SortScopes(scopes);
      SameMembers(scopes, found);
      var buf, index: nat := "", 0;
      hide Rewrite, AllScopes, Node.IsBuilt, Sorted;
      for i := 0 to |scopes|
        invariant index <= |text| && buf + Rewrite(mapping, text, index) == Rewrite(mapping, text, 0)
        invariant forall k | 0 <= k < i :: scopes[k].start < index
      {
        var scp := scopes[i];
        assert Occurs(root.words, text, scp);
        if scp.start < index {
          continue;
        }
        RewriteAtScope(mapping, text, scopes, i, index);
        buf := buf + text[index..scp.start];
        buf := buf + mapping[text[scp.start..scp.stop]];
        index := scp.stop;
      }
      RewriteRest(mapping, text, scopes, index);
      if index < |text| {
        buf := buf + text[index..];
      }
      r, replaced := buf, true;
    }
  }

  /** The first sorted scope at or after `index` is where the rewrite goes on. */
  lemma RewriteAtScope(mapping: map<string, string>, text: string, scopes: seq<Scope>, i: nat, index: nat)
    requires Sorted(scopes) && i < |scopes|
    requires forall s :: s in scopes <==> Occurs(mapping.Keys - {""}, text, s)
    requires forall k | 0 <= k < i :: scopes[k].start < index
    requires index <= scopes[i].start
    ensures Occurs(mapping.Keys - {""}, text, scopes[i])
    ensures var scp := scopes[i];
            Rewrite(mapping, text, index)
            == text[index..scp.start] + mapping[text[scp.start..scp.stop]] + Rewrite(mapping, text, scp.stop)
  {
    var scp := scopes[i];
    assert scp in scopes;
    forall s | Occurs(mapping.Keys - {""}, text, s) && index <= s.start ensures SortedBefore(scp, s) {
      var k :| 0 <= k < |scopes| && scopes[k] == s;
    }
    RewriteClear(mapping, text, index, scp.start);
    forall u | scp.stop < u <= |text| ensures !Occurs(mapping.Keys - {""}, text, Scope(scp.start, u)) {
    }
    RewriteLongest(mapping, text, scp);
  }

  /** Once every scope is behind `index`, the rest of the text is copied. */
  lemma RewriteRest(mapping: map<string, string>, text: string, scopes: seq<Scope>, index: nat)
    requires index <= |text|
    requires forall s :: s in scopes <==> Occurs(mapping.Keys - {""}, text, s)
    requires forall k | 0 <= k < |scopes| :: scopes[k].start < index
    ensures Rewrite(mapping, text, index) == text[index..]
  {
    forall s | Occurs(mapping.Keys - {""}, text, s) ensures s.start < index {
      assert s in scopes;
    }
    RewriteClear(mapping, text, index, |text|);
  }
}
