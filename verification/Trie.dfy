/** core/stringx/trie.go: masking and collecting the keywords of a text. */
module KeywordTrie {
  import opened Keywords
  import opened KeywordNode

  const DEFAULT_MASK := '*'

  /** Position j of the text lies in some occurrence of a word. */
  ghost predicate Covered(words: set<string>, text: string, j: int)
  {
    exists s :: Occurs(words, text, s) && s.start <= j < s.stop
  }

  /** The words that occur in the text. */
  ghost function OccurringWords(words: set<string>, text: string): set<string>
  {
    set w | w in words && exists s :: Occurs(words, text, s) && text[s.start..s.stop] == w
  }

  class Trie {
    var root: Node
    var mask: char

    ghost predicate Valid()
      reads this, root, root.nodes.Values
    {
      root.IsBuilt()
    }

    /** `mask` is the rune the options ask for, or the zero rune. */
    constructor (words: seq<string>, mask: char)
      ensures Valid() && fresh(root.nodes.Values)
      ensures forall w :: w in root.words <==> w in words && w != ""
      ensures this.mask == if mask == '\0' then '*' else mask
    {
      root := new Node();
      this.mask := if mask == '\0' then DEFAULT_MASK else mask;
      new;
      root.AddAll(words);
      NonEmptyExact(words, |words|);
      assert words[..|words|] == words;
      root.Build();
    }

    /** Masks exactly the positions that lie in some occurrence of a word, and reports the words that occur. */
    method Filter(text: string) returns (sentence: string, keywords: seq<string>, found: bool)
      requires Valid()
      ensures |sentence| == |text|
      ensures forall j | 0 <= j < |text| ::
                sentence[j] == if Covered(root.words, text, j) then mask else text[j]
      ensures Lists(keywords, OccurringWords(root.words, text))
      ensures found <==> exists s :: Occurs(root.words, text, s)
    {
      if |text| == 0 {
        return text, [], false;
      }
      var chars := new char[|text|](i requires 0 <= i < |text| => text[i]);
      var scopes := root.Find(text);
      AllScopesExact(root.words, text);
      keywords := CollectKeywords(text, scopes);
      for k := 0 to |scopes|
        invariant forall j | 0 <= j < |text| ::
                    chars[j] == if exists i | 0 <= i < k :: scopes[i].start <= j < scopes[i].stop then mask else text[j]
      {
        assert Occurs(root.words, text, scopes[k]);
        ReplaceWithAsterisk(chars, scopes[k].start, scopes[k].stop);
      }
      forall j | 0 <= j < |text|
        ensures Covered(root.words, text, j) <==> exists i | 0 <= i < |scopes| :: scopes[i].start <= j < scopes[i].stop
      {
        if i :| 0 <= i < |scopes| && scopes[i].start <= j < scopes[i].stop {
          assert Occurs(root.words, text, scopes[i]);
        }
        if s :| Occurs(root.words, text, s) && s.start <= j < s.stop {
          assert s in scopes;
        }
      }
      sentence, found := chars[..], |keywords| > 0;
      KeywordsExact(root.words, text, keywords);
    }

    method FindKeywords(text: string) returns (keywords: seq<string>)
      requires Valid()
      ensures Lists(keywords, OccurringWords(root.words, text))
    {
      if |text| == 0 {
        return [];
      }
      var scopes := root.Find(text);
      keywords := CollectKeywords(text, scopes);
    }

    method CollectKeywords(chars: string, scopes: seq<Scope>) returns (keywords: seq<string>)
      requires Valid() && scopes == AllScopes(root.words, chars)
      ensures Lists(keywords, OccurringWords(root.words, chars))
    {
      AllScopesExact(root.words, chars);
      assert forall j | 0 <= j < |scopes| :: Occurs(root.words, chars, scopes[j]);
      hide AllScopes, Node.IsTrie, Node.IsBuilt;
      var found: set<string> := {};
      for i := 0 to |scopes|
        invariant forall j | 0 <= j < i :: chars[scopes[j].start..scopes[j].stop] in found
        invariant found <= OccurringWords(root.words, chars)
      {
        found := found + {chars[scopes[i].start..scopes[i].stop]};
      }
      forall s | Occurs(root.words, chars, s) ensures chars[s.start..s.stop] in found {
        assert s in scopes;
      }
      keywords := List(found);
    }

    method ReplaceWithAsterisk(chars: array<char>, start: nat, stop: nat)
      requires start <= stop <= chars.Length
      modifies chars
      ensures forall j | 0 <= j < chars.Length :: chars[j] == if start <= j < stop then mask else old(chars[j])
    {
      for i := start to stop
        invariant forall j | 0 <= j < chars.Length :: chars[j] == if start <= j < i then mask else old(chars[j])
      {
        chars[i] := mask;
      }
    }
  }

  lemma KeywordsExact(words: set<string>, text: string, keywords: seq<string>)
    requires Lists(keywords, OccurringWords(words, text))
    ensures keywords != [] <==> exists s :: Occurs(words, text, s)
  {
    if s :| Occurs(words, text, s) {
      assert text[s.start..s.stop] in keywords;
    }
    if keywords != [] {
      assert keywords[0] in keywords;
    }
  }
}
