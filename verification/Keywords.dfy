/** What the keyword automaton is for, stated without any automaton: the naive
    search for every occurrence of every word, and the longest suffix of a text
    that is a path of a trie.  Texts are sequences of runes. */
module Keywords {

  /** The occurrence text[start..stop) of some word. */
  datatype Scope = Scope(start: nat, stop: nat)

  /** The words that occur in the text and stop at `stop`, from position `start` on, leftmost first. */
  function ScopesEndingAt(words: set<string>, text: string, stop: nat, start: nat): (r: seq<Scope>)
    requires start <= stop <= |text|
    decreases stop - start
  {
    if start == stop then []
    else
      (if text[start..stop] in words then [Scope(start, stop)] else [])
      + ScopesEndingAt(words, text, stop, start + 1)
  }

  /** Every occurrence that stops at or before `n`. */
  function ScopesUpTo(words: set<string>, text: string, n: nat): (r: seq<Scope>)
    requires n <= |text|
  {
    if n == 0 then [] else ScopesUpTo(words, text, n - 1) + ScopesEndingAt(words, text, n, 0)
  }

  function AllScopes(words: set<string>, text: string): (r: seq<Scope>)
  {
    ScopesUpTo(words, text, |text|)
  }

  /** text[start..stop) is a non-empty word. */
  predicate Occurs(words: set<string>, text: string, s: Scope)
  {
    s.start < s.stop <= |text| && text[s.start..s.stop] in words
  }

  predicate Before(a: Scope, b: Scope)
  {
    a.stop < b.stop || (a.stop == b.stop && a.start < b.start)
  }

  /** By stop, then by start, each scope once. */
  ghost predicate InOrder(r: seq<Scope>)
  {
    forall i, j :: 0 <= i < j < |r| ==> Before(r[i], r[j])
  }

  lemma InOrderConcat(a: seq<Scope>, b: seq<Scope>)
    requires InOrder(a) && InOrder(b)
    requires forall x, y :: x in a && y in b ==> Before(x, y)
    ensures InOrder(a + b)
  {
  }

  lemma {:induction false} ScopesEndingAtExact(words: set<string>, text: string, stop: nat, start: nat)
    requires start <= stop <= |text|
    ensures forall s :: s in ScopesEndingAt(words, text, stop, start)
                        <==> Occurs(words, text, s) && s.stop == stop && start <= s.start
    ensures InOrder(ScopesEndingAt(words, text, stop, start))
    decreases stop - start
  {
    if start < stop {
      ScopesEndingAtExact(words, text, stop, start + 1);
      InOrderConcat(if text[start..stop] in words then [Scope(start, stop)] else [],
                    ScopesEndingAt(words, text, stop, start + 1));
    }
  }

  lemma {:induction false} ScopesUpToExact(words: set<string>, text: string, n: nat)
    requires n <= |text|
    ensures forall s :: s in ScopesUpTo(words, text, n) <==> Occurs(words, text, s) && s.stop <= n
    ensures InOrder(ScopesUpTo(words, text, n))
  {
    if n > 0 {
      ScopesUpToExact(words, text, n - 1);
      ScopesEndingAtExact(words, text, n, 0);
      InOrderConcat(ScopesUpTo(words, text, n - 1), ScopesEndingAt(words, text, n, 0));
    }
  }

  /** The naive search misses nothing, invents nothing, and lists each occurrence
      once, by stop and then by start. */
  lemma AllScopesExact(words: set<string>, text: string)
    ensures forall s :: s in AllScopes(words, text) <==> Occurs(words, text, s)
    ensures InOrder(AllScopes(words, text))
  {
    ScopesUpToExact(words, text, |text|);
  }

  // ---------------------------------------------------------------- suffixes

  ghost predicate PrefixClosed(paths: set<string>)
  {
    "" in paths && forall p, c :: p + [c] in paths ==> p in paths
  }

  /** The longest suffix of w, w included, that is a path. */
  function LongestSuffix(paths: set<string>, w: string): (r: string)
    requires "" in paths
  {
    if w in paths then w else LongestSuffix(paths, w[1..])
  }

  /** The longest proper suffix of the path p that is itself a path. */
  function Fail(paths: set<string>, p: string): (r: string)
    requires "" in paths && p != ""
  {
    LongestSuffix(paths, p[1..])
  }

  ghost predicate IsSuffix(s: string, w: string)
  {
    |s| <= |w| && s == w[|w| - |s|..]
  }

  lemma {:induction false} LongestSuffixIsLongest(paths: set<string>, w: string)
    requires "" in paths
    ensures var r := LongestSuffix(paths, w);
            && r in paths && IsSuffix(r, w)
            && forall s :: s in paths && IsSuffix(s, w) ==> |s| <= |r|
  {
    if w !in paths {
      LongestSuffixIsLongest(paths, w[1..]);
      forall s | s in paths && IsSuffix(s, w) ensures IsSuffix(s, w[1..]) {
        assert |s| < |w| || s == w;
      }
    }
  }

  /** `Fail` is the longest proper suffix that is a path, so it is strictly shorter. */
  lemma FailIsLongestProper(paths: set<string>, p: string)
    requires "" in paths && p != ""
    ensures var r := Fail(paths, p);
            && r in paths && IsSuffix(r, p) && |r| < |p|
            && forall s :: s in paths && IsSuffix(s, p) && |s| < |p| ==> |s| <= |r|
  {
    LongestSuffixIsLongest(paths, p[1..]);
    forall s | s in paths && IsSuffix(s, p) && |s| < |p| ensures IsSuffix(s, p[1..]) {
    }
  }

  /** Reading one more rune only needs the longest suffix kept so far. */
  lemma {:induction false} SuffixStep(paths: set<string>, w: string, c: char)
    requires PrefixClosed(paths)
    ensures LongestSuffix(paths, w + [c]) == LongestSuffix(paths, LongestSuffix(paths, w) + [c])
  {
    if w !in paths {
      assert (w + [c])[1..] == w[1..] + [c];
      SuffixStep(paths, w[1..], c);
    }
  }

  /** A missing child may be looked for at the fail link instead. */
  lemma FailStep(paths: set<string>, p: string, c: char)
    requires PrefixClosed(paths) && p != "" && p + [c] !in paths
    ensures LongestSuffix(paths, p + [c]) == LongestSuffix(paths, Fail(paths, p) + [c])
  {
    assert (p + [c])[1..] == p[1..] + [c];
    SuffixStep(paths, p[1..], c);
  }

  lemma FailOfChild(paths: set<string>, p: string, c: char)
    requires PrefixClosed(paths) && p != ""
    ensures Fail(paths, p + [c]) == LongestSuffix(paths, Fail(paths, p) + [c])
  {
    assert (p + [c])[1..] == p[1..] + [c];
    SuffixStep(paths, p[1..], c);
  }

  /** No word lies between a suffix and the longest suffix of it that is a path. */
  lemma {:induction false} SkipToLongestSuffix(words: set<string>, paths: set<string>, text: string, stop: nat,
      start: nat)
    requires "" in paths && words <= paths
    requires start <= stop <= |text|
    ensures |LongestSuffix(paths, text[start..stop])| <= stop - start
    ensures ScopesEndingAt(words, text, stop, start)
            == ScopesEndingAt(words, text, stop, stop - |LongestSuffix(paths, text[start..stop])|)
    decreases stop - start
  {
    var w := text[start..stop];
    assert |w| == 0 ==> w == "";
    if w !in paths {
      assert w[1..] == text[start + 1..stop];
      SkipToLongestSuffix(words, paths, text, stop, start + 1);
    }
  }

  /** The scopes that stop at `stop` and start at or after the longest suffix read that is a path are all of them. */
  lemma ScopesOfLongestSuffix(words: set<string>, paths: set<string>, text: string, stop: nat)
    requires "" in paths && words <= paths && stop <= |text|
    ensures var r := LongestSuffix(paths, text[..stop]);
            && r in paths && |r| <= stop && r == text[stop - |r|..stop]
            && ScopesEndingAt(words, text, stop, 0) == ScopesEndingAt(words, text, stop, stop - |r|)
    ensures ScopesEndingAt(words, text, stop, stop) == []
  {
    assert text[0..stop] == text[..stop];
    SkipToLongestSuffix(words, paths, text, stop, 0);
    LongestSuffixIsLongest(paths, text[..stop]);
  }

  /** Going from a path to its fail link passes no word but the path itself. */
  lemma ScopesOfFail(words: set<string>, paths: set<string>, text: string, stop: nat, r: string)
    requires "" in paths && words <= paths
    requires 0 < |r| <= stop <= |text| && r == text[stop - |r|..stop]
    ensures var f := Fail(paths, r);
            && f in paths && |f| < |r| && f == text[stop - |f|..stop]
            && ScopesEndingAt(words, text, stop, stop - |r|)
               == (if r in words then [Scope(stop - |r|, stop)] else []) + ScopesEndingAt(words, text, stop, stop - |f|)
  {
    assert r[1..] == text[stop - |r| + 1..stop];
    SkipToLongestSuffix(words, paths, text, stop, stop - |r| + 1);
    FailIsLongestProper(paths, r);
  }

  /** What reading the rune text[i] does to the longest suffix and to the scopes found. */
  lemma ReadOne(words: set<string>, paths: set<string>, text: string, i: nat)
    requires PrefixClosed(paths) && words <= paths && i < |text|
    ensures LongestSuffix(paths, text[..i + 1]) == LongestSuffix(paths, LongestSuffix(paths, text[..i]) + [text[i]])
    ensures ScopesUpTo(words, text, i + 1) == ScopesUpTo(words, text, i) + ScopesEndingAt(words, text, i + 1, 0)
    ensures LongestSuffix(paths, text[..i + 1]) == "" ==> ScopesEndingAt(words, text, i + 1, 0) == []
  {
    assert text[..i + 1] == text[..i] + [text[i]];
    SuffixStep(paths, text[..i], text[i]);
    ScopesOfLongestSuffix(words, paths, text, i + 1);
  }

  /** The non-empty words among the first n. */
  ghost function NonEmpty(words: seq<string>, n: nat): set<string>
    requires n <= |words|
  {
    if n == 0 then {} else NonEmpty(words, n - 1) + (if words[n - 1] == "" then {} else {words[n - 1]})
  }

  lemma {:induction false} NonEmptyExact(words: seq<string>, n: nat)
    requires n <= |words|
    ensures forall w :: w in NonEmpty(words, n) <==> w in words[..n] && w != ""
  {
    if n > 0 {
      NonEmptyExact(words, n - 1);
      assert words[..n] == words[..n - 1] + [words[n - 1]];
    }
  }

  /** The words are listed, in any order, each once. */
  ghost predicate Lists(keywords: seq<string>, words: set<string>)
  {
    (forall w :: w in keywords <==> w in words) && forall i, j | 0 <= i < j < |keywords| :: keywords[i] != keywords[j]
  }

  method List(words: set<string>) returns (keywords: seq<string>)
    ensures Lists(keywords, words)
  {
    keywords := [];
    var rest := words;
    while rest != {}
      invariant Lists(keywords, words - rest) && rest <= words
    {
      var w :| w in rest;
      keywords, rest := keywords + [w], rest - {w};
    }
  }
}
