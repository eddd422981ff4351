/** core/stringx/node.go: a trie of keywords whose fail links make it an automaton. */
module KeywordNode {
  import opened Keywords
  import opened Sequences

  class Node {
    var children: map<char, Node>
    var fail: Node?
    var depth: nat
    var end: bool

    ghost const path: string   // the runes on the way from the root to this node

    /** Meaningful at a root: the node that each path of the trie leads to. */
    ghost var nodes: map<string, Node>

    /** Meaningful at a root: the words added. */
    ghost var words: set<string>

    constructor ()
      ensures IsTrie() && words == {} && fresh(nodes.Values)
    {
      children, fail, depth, end := map[], null, 0, false;
      path := "";
      new;
      nodes, words := map["" := this], {};
    }

    /** A node of the trie below another one. */
    constructor Child(depth: nat, ghost path: string)
      ensures children == map[] && fail == null && this.depth == depth && !end && this.path == path
    {
      this.path := path;
      children, fail, this.depth, end := map[], null, depth, false;
      nodes, words := map[], {};
    }

    /** This is the root of a tree: `nodes` names each node by the path that leads to it. */
    ghost predicate IsTrie()
      reads this, nodes.Values
    {
      && "" in nodes && nodes[""] == this
      && fail == null && !end
      && PrefixClosed(nodes.Keys)
      && (forall p | p in nodes :: nodes[p].depth == |p|)
      && (forall p | p in nodes :: nodes[p].path == p)
      && (forall p, c | p in nodes :: c in nodes[p].children <==> p + [c] in nodes)
      && (forall p, c | p in nodes && c in nodes[p].children :: nodes[p].children[c] == nodes[p + [c]])
      && words <= nodes.Keys
      && (forall p | p in nodes :: nodes[p].end <==> p in words)
    }

    /** Every fail link leads to the longest proper suffix that is a path. */
    ghost predicate IsBuilt()
      reads this, nodes.Values
    {
      IsTrie() && forall p | p in nodes && p != "" :: HasFail(p)
    }

    ghost predicate HasFail(p: string)
      reads this, nodes.Values
    {
      && "" in nodes && p in nodes && p != ""
      && Fail(nodes.Keys, p) in nodes && nodes[p].fail == nodes[Fail(nodes.Keys, p)]
    }

    /** Gives the node nd, reached by p, a child for the rune c it has no child for. */
    method Grow(nd: Node, ghost p: string, c: char, depth: nat) returns (child: Node)
      requires IsTrie() && p in nodes && nodes[p] == nd && c !in nd.children && depth == |p| + 1
      modifies this`nodes, nd`children
      ensures IsTrie()
      ensures fresh(child) && nodes == old(nodes)[p + [c] := child]
    {
      child := new Node.Child(depth, p + [c]);
      nd.children := nd.children[c := child];
      nodes := nodes[p + [c] := child];
      forall q, d | q in nodes
        ensures d in nodes[q].children <==> q + [d] in nodes
        ensures d in nodes[q].children ==> nodes[q].children[d] == nodes[q + [d]]
      {
        SnocInjective(q, d, p, c);
        if q == p + [c] {
          assert q !in old(nodes.Keys);
        } else {
          assert d in old(nodes[q].children) <==> q + [d] in old(nodes);
        }
      }
      forall q, d | q + [d] in nodes ensures q in nodes {
        SnocInjective(q, d, p, c);
      }
    }

    /** Adds a word; the empty word is ignored. */
    method Add(word: string)
      requires IsTrie()
      modifies this`nodes, this`words, nodes.Values`children, nodes.Values`end
      ensures IsTrie()
      ensures words == old(words) + (if word == "" then {} else {word})
      ensures forall v | v in nodes.Values :: v in old(nodes.Values) || fresh(v)
    {
      if word == "" {
        return;
      }
      var nd := this;
      assert word[..0] == "";
      for i := 0 to |word|
        invariant IsTrie() && words == old(words)
        invariant word[..i] in nodes && nodes[word[..i]] == nd
        invariant forall v | v in nodes.Values :: v in old(nodes.Values) || fresh(v)
      {
        var c := word[i];
        assert word[..i + 1] == word[..i] + [c];
        if c in nd.children {
          nd := nd.children[c];
        } else {
          nd := Grow(nd, word[..i], c, i + 1);
        }
      }
      assert word[..|word|] == word;
      SetEnd(nd, word);
    }

    /** Adds the words one after the other. */
    method AddAll(list: seq<string>)
      requires IsTrie()
      modifies this`nodes, this`words, nodes.Values`children, nodes.Values`end
      ensures IsTrie()
      ensures words == old(words) + NonEmpty(list, |list|)
      ensures forall v | v in nodes.Values :: v in old(nodes.Values) || fresh(v)
    {
      hide IsTrie;
      for i := 0 to |list|
        invariant IsTrie() && words == old(words) + NonEmpty(list, i)
        invariant forall v | v in nodes.Values :: v in old(nodes.Values) || fresh(v)
      {
        Add(list[i]);
      }
    }

    method SetEnd(nd: Node, ghost word: string)
      requires IsTrie() && word != "" && word in nodes && nodes[word] == nd
      modifies nd`end, this`words
      ensures IsTrie() && words == old(words) + {word}
    {
      nd.end := true;
      words := words + {word};
    }

    /** Where the walk up the fail links of nd first finds a child for the rune c:
        the fail link of the child of nd for c. */
    method FailLink(nd: Node, ghost p: string, c: char) returns (f: Node)
      requires IsTrie() && p in nodes && p != "" && nodes[p] == nd
      requires forall q | q in nodes && 0 < |q| <= |p| :: HasFail(q)
      ensures Fail(nodes.Keys, p + [c]) in nodes && f == nodes[Fail(nodes.Keys, p + [c])]
    {
      ghost var keys := nodes.Keys;
      FailOfChild(keys, p, c);
      FailIsLongestProper(keys, p);
      var cur := nd;
      ghost var q := p;
      while cur.fail != null
        invariant q in nodes && cur == nodes[q] && |q| <= |p|
        invariant q != "" ==> Fail(keys, p + [c]) == LongestSuffix(keys, Fail(keys, q) + [c])
        invariant q == "" ==> Fail(keys, p + [c]) == ""
        decreases |q|
      {
        assert q != "" && HasFail(q);
        FailIsLongestProper(keys, q);
        ghost var r := Fail(keys, q);
        if c in cur.fail.children {
          assert r + [c] in nodes;
          return cur.fail.children[c];
        }
        assert r + [c] !in keys;
        if r == "" {
          assert ("" + [c])[1..] == "";
        } else {
          FailStep(keys, r, c);
        }
        q, cur := r, cur.fail;
      }
      f := this;
    }

    /** The links of every node the walk has reached are in place. */
    ghost predicate Linked(done: set<string>, paths: seq<string>)
      reads this, nodes.Values
    {
      forall q | (q in done || q in paths) && q != "" :: HasFail(q)
    }

    ghost predicate Queued(queue: seq<Node>, paths: seq<string>)
      reads this
    {
      |queue| == |paths| && forall i | 0 <= i < |paths| :: paths[i] in nodes && nodes[paths[i]] == queue[i]
    }

    /** Links the child that the node at p has for the rune c, and queues it. */
    method LinkChild(child: Node, f: Node, ghost q: string, queue: seq<Node>, ghost done: set<string>,
                     ghost paths: seq<string>) returns (queue': seq<Node>)
      requires IsTrie() && q in nodes && q != "" && nodes[q] == child
      requires Fail(nodes.Keys, q) in nodes && nodes[Fail(nodes.Keys, q)] == f
      requires Queued(queue, paths) && Linked(done, paths)
      modifies child`fail
      ensures IsTrie() && HasFail(q) && Queued(queue', paths + [q]) && Linked(done, paths + [q])
      ensures forall r | r in nodes && old(HasFail(r)) :: HasFail(r)
    {
      child.fail := f;
      queue' := queue + [child];
      assert forall r | r in nodes && old(HasFail(r)) :: HasFail(r);
    }

    /** Queues the children of the node at p, each with its fail link. */
    method LinkChildren(nd: Node, ghost p: string, queue: seq<Node>, ghost done: set<string>, ghost paths: seq<string>)
      returns (queue': seq<Node>, ghost paths': seq<string>)
      requires IsTrie() && p in nodes && nodes[p] == nd
      requires Frontier(nodes.Keys, done, paths, p, nd.children.Keys)
      requires Queued(queue, paths) && Linked(done, paths)
      requires forall r | r in nodes && 0 < |r| <= |p| :: HasFail(r)
      modifies nodes.Values`fail
      ensures IsTrie() && Frontier(nodes.Keys, done, paths', p, {})
      ensures Queued(queue', paths') && Linked(done, paths')
    {
      hide Frontier;
      var rest := nd.children.Keys;
      queue', paths' := queue, paths;
      while rest != {}
        invariant rest <= nd.children.Keys
        invariant IsTrie() && Frontier(nodes.Keys, done, paths', p, rest)
        invariant Queued(queue', paths') && Linked(done, paths')
        invariant forall r | r in nodes && 0 < |r| <= |p| :: HasFail(r)
      {
        var c :| c in rest;
        FrontierPush(nodes.Keys, done, paths', p, rest, c);
        var f := this;
        if nd != this {
          f := FailLink(nd, p, c);
        } else {
          assert p == "" && (p + [c])[1..] == "";
        }
        queue' := LinkChild(nd.children[c], f, p + [c], queue', done, paths');
        paths', rest := paths' + [p + [c]], rest - {c};
      }
    }

    lemma Pop(queue: seq<Node>, done: set<string>, paths: seq<string>)
      requires Queued(queue, paths) && Linked(done, paths) && paths != []
      ensures Queued(queue[1..], paths[1..]) && Linked(done + {paths[0]}, paths[1..])
    {
    }

    /** Builds the fail links breadth first. */
    method Build()
      requires IsTrie()
      modifies nodes.Values`fail
      ensures IsBuilt()
    {
      ghost var keys, done, p, paths: seq<string> := nodes.Keys, {""}, "", [];
      var queue: seq<Node> := [];
      FrontierStart(keys, children.Keys);
      hide Frontier;
      queue, paths := LinkChildren(this, "", queue, done, paths);
      while queue != []
        invariant IsTrie() && Frontier(keys, done, paths, p, {})
        invariant Queued(queue, paths) && Linked(done, paths)
        decreases keys - done
      {
        var nd := queue[0];
        FrontierPop(keys, done, paths, p, nd.children.Keys);
        forall r | r in keys && 0 < |r| <= |paths[0]| ensures HasFail(r) {
          Shallow(keys, done, paths, p, r);
        }
        Pop(queue, done, paths);
        p, done, paths := paths[0], done + {paths[0]}, paths[1..];
        queue, paths := LinkChildren(nd, p, queue[1..], done, paths);
      }
      forall r | r in nodes && r != "" ensures HasFail(r) {
        Shallow(keys, done, paths, p, r);
      }
    }

    /** From the node cur, spelling q, to the node for the longest suffix of q + [c]; no node if that is the root. */
    method Step(cur: Node, ghost q: string, c: char) returns (next: Node, found: bool)
      requires IsBuilt() && q in nodes && nodes[q] == cur
      ensures LongestSuffix(nodes.Keys, q + [c]) in nodes && next == nodes[LongestSuffix(nodes.Keys, q + [c])]
      ensures !found ==> LongestSuffix(nodes.Keys, q + [c]) == ""
    {
      if c in cur.children {
        assert q + [c] in nodes;
        return cur.children[c], true;
      }
      next := cur;
      ghost var keys, r := nodes.Keys, q;
      while next != this
        invariant r in keys && nodes[r] == next && r + [c] !in keys
        invariant LongestSuffix(keys, q + [c]) == LongestSuffix(keys, r + [c])
        decreases |r|
      {
        assert HasFail(r);
        FailStep(keys, r, c);
        FailIsLongestProper(keys, r);
        r := Fail(keys, r);
        next := next.fail;
        if c in next.children {
          assert r + [c] in nodes;
          return next.children[c], true;
        }
      }
      assert r == "" && (r + [c])[1..] == "";
      found := false;
    }

    /** Every occurrence of a word that stops at i + 1: the words on the fail chain of child. */
    method Outputs(child: Node, ghost q: string, i: nat, ghost chars: string) returns (scopes: seq<Scope>)
      requires IsBuilt() && i < |chars| && q in nodes && nodes[q] == child
      requires q == LongestSuffix(nodes.Keys, chars[..i + 1])
      ensures scopes == ScopesEndingAt(words, chars, i + 1, 0)
    {
      hide LongestSuffix, Fail, ScopesEndingAt;
      ghost var keys, r, stop := nodes.Keys, q, i + 1;
      ScopesOfLongestSuffix(words, keys, chars, stop);
      var cur := child;
      scopes := [];
      while cur != this
        invariant r in keys && nodes[r] == cur && |r| <= stop && r == chars[stop - |r|..stop]
        invariant scopes + ScopesEndingAt(words, chars, stop, stop - |r|) == ScopesEndingAt(words, chars, stop, 0)
        decreases |r|
      {
        assert r != "" && HasFail(r);
        ScopesOfFail(words, keys, chars, stop, r);
        if cur.end {
          scopes := scopes + [Scope(i + 1 - cur.depth, i + 1)];
        }
        r, cur := Fail(keys, r), cur.fail;
      }
      assert r == "";
    }

    /** One pass of the automaton over the text finds every occurrence of every word. */
    method Find(chars: string) returns (scopes: seq<Scope>)
      requires IsBuilt()
      ensures scopes == AllScopes(words, chars)
    {
      scopes := [];
      var cur := this;
      ghost var keys := nodes.Keys;
      assert chars[..0] == "" && LongestSuffix(keys, "") == "";
      hide LongestSuffix, ScopesEndingAt, IsBuilt;
      for i := 0 to |chars|
        invariant scopes == ScopesUpTo(words, chars, i)
        invariant LongestSuffix(keys, chars[..i]) in nodes && cur == nodes[LongestSuffix(keys, chars[..i])]
      {
        ReadOne(words, keys, chars, i);
        var found;
        cur, found := Step(cur, LongestSuffix(keys, chars[..i]), chars[i]);
        if !found {
          continue;
        }
        var outputs := Outputs(cur, LongestSuffix(keys, chars[..i + 1]), i, chars);
        scopes := scopes + outputs;
      }
    }
  }

  /** What a breadth-first walk of the tree `keys` keeps: the paths `done` with, and the
      queue of those reached but not yet done with.  The children of the last path taken
      from the queue, p, are being put into it; those for the runes in `rest` are still missing. */
  ghost predicate Frontier(keys: set<string>, done: set<string>, paths: seq<string>, p: string, rest: set<char>)
  {
    && PrefixClosed(keys) && "" in done && p in done
    && (forall q | q in done || q in paths :: q in keys)
    && (forall q | q in done :: q !in paths && |q| <= |p|)
    && (forall i | 0 <= i < |paths| :: |p| <= |paths[i]| <= |p| + 1)
    && (forall i, j | 0 <= i < j < |paths| :: |paths[i]| <= |paths[j]| && paths[i] != paths[j])
    && (forall q, c | q + [c] in done || q + [c] in paths :: q in done)
    && (forall c | c in rest :: p + [c] in keys && p + [c] !in done && p + [c] !in paths)
    && (forall q, c | q in done && q + [c] in keys :: q + [c] in done || q + [c] in paths || (q == p && c in rest))
  }

  lemma FrontierStart(keys: set<string>, rest: set<char>)
    requires PrefixClosed(keys) && forall c :: c in rest <==> "" + [c] in keys
    ensures Frontier(keys, {""}, [], "", rest)
  {
  }

  lemma FrontierPush(keys: set<string>, done: set<string>, paths: seq<string>, p: string, rest: set<char>, c: char)
    requires Frontier(keys, done, paths, p, rest) && c in rest
    ensures Frontier(keys, done, paths + [p + [c]], p, rest - {c})
  {
    forall q, d ensures p + [c] == q + [d] <==> p == q && c == d {
      SnocInjective(p, c, q, d);
    }
  }

  lemma FrontierPop(keys: set<string>, done: set<string>, paths: seq<string>, p: string, rest: set<char>)
    requires Frontier(keys, done, paths, p, {}) && paths != []
    requires forall c :: c in rest <==> paths[0] + [c] in keys
    ensures paths[0] in keys - done && paths[0] != ""
    ensures Frontier(keys, done + {paths[0]}, paths[1..], paths[0], rest)
  {
  }

  /** The walk has reached every path no longer than the head of its queue. */
  lemma {:induction false} Shallow(keys: set<string>, done: set<string>, paths: seq<string>, p: string, r: string)
    requires Frontier(keys, done, paths, p, {}) && r in keys
    requires paths == [] || |r| <= |paths[0]|
    ensures r in done || r in paths
    decreases |r|
  {
    if r != "" {
      var q, c := r[..|r| - 1], r[|r| - 1];
      assert r == q + [c];
      Shallow(keys, done, paths, p, q);
    }
  }
}
