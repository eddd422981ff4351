/** core/search/tree.go: routes in a tree of literal and parameter children. */
module SearchTree {
  import opened Options
  import opened RoutePatterns
  import opened Sequences

  datatype AddError = Ok | NotFromRoot | EmptyItem | DupItem | DupSlash

  datatype Result = NotFound | Found(item: Item, params: map<string, string>)

  /** The pattern that a route adds below `at`. */
  ghost function Full(at: Pattern, route: string): Option<Pattern>
  {
    match Parse(route)
    case None => None
    case Some(p) => Some(at + p)
  }

  /** What Add answers, by the table of patterns alone. */
  ghost function AddOutcome(patterns: map<Pattern, Item>, pattern: Option<Pattern>): AddError
  {
    if pattern.None? then DupSlash else if pattern.value in patterns then DupItem else Ok
  }

  /** The table of patterns after an Add. */
  ghost function AddPattern(patterns: map<Pattern, Item>, pattern: Option<Pattern>, item: Item): map<Pattern, Item>
  {
    if AddOutcome(patterns, pattern) == Ok then patterns[pattern.value := item] else patterns
  }

  /** The children of a node, literals and parameters apart. */
  datatype Children = Children(literals: map<string, Node>, params: map<string, Node>) {
    function Get(route: string): map<string, Node>
    {
      if |route| > 0 && route[0] == ':' then params else literals
    }

    function With(seg: string, child: Node): Children
    {
      if |seg| > 0 && seg[0] == ':' then this.(params := params[seg := child])
      else this.(literals := literals[seg := child])
    }
  }

  class Node {
    var item: Option<Item>
    var children: Children
    ghost const path: Pattern

    constructor (item: Option<Item>, ghost path: Pattern)
      ensures this.item == item && children == Children(map[], map[]) && this.path == path
    {
      this.item, children := item, Children(map[], map[]);
      this.path := path;
    }
  }

  /** The child of the node at p for seg is the node one segment longer, if there is one. */
  ghost predicate ShapeAt(nodes: map<Pattern, Node>, kids: map<Pattern, Children>, p: Pattern, seg: string)
  {
    && (p + [seg] in nodes ==> p in nodes && seg != "")
    && (p in kids ==>
          && (seg in kids[p].Get(seg) <==> p + [seg] in nodes)
          && (p + [seg] in nodes ==> kids[p].Get(seg)[seg] == nodes[p + [seg]])
          && (seg in kids[p].literals ==> !IsParam(seg))
          && (seg in kids[p].params ==> IsParam(seg)))
  }

  ghost predicate Shape(nodes: map<Pattern, Node>, kids: map<Pattern, Children>)
  {
    kids.Keys == nodes.Keys && forall p, seg :: ShapeAt(nodes, kids, p, seg)
  }

  lemma LinkShape(nodes: map<Pattern, Node>, kids: map<Pattern, Children>, p: Pattern, seg: string, child: Node)
    requires Shape(nodes, kids) && p in nodes && seg != "" && p + [seg] !in nodes
    ensures Shape(nodes[p + [seg] := child], kids[p := kids[p].With(seg, child)][p + [seg] := Children(map[], map[])])
  {
    var nodes' := nodes[p + [seg] := child];
    var kids' := kids[p := kids[p].With(seg, child)][p + [seg] := Children(map[], map[])];
    forall q, s ensures ShapeAt(nodes', kids', q, s) {
      assert ShapeAt(nodes, kids, q, s) && ShapeAt(nodes, kids, p + [seg], s);
      SnocInjective(q, s, p, seg);
    }
  }

  class Tree {
    const root: Node
    ghost var nodes: map<Pattern, Node>       // the node of each path of the tree
    ghost var patterns: map<Pattern, Item>    // the routes added, with their items

    ghost function Kids(): map<Pattern, Children>
      reads this`nodes, nodes.Values`children
    {
      map p | p in nodes :: nodes[p].children
    }

    /** `nodes` names each node by its path. */
    ghost predicate Linked()
      reads this`nodes, nodes.Values`children
    {
      && [] in nodes && nodes[[]] == root
      && (forall p | p in nodes :: nodes[p].path == p)
      && Shape(nodes, Kids())
    }

    /** The nodes with items are the routes added. */
    ghost predicate Stored()
      reads this`nodes, this`patterns, nodes.Values`item
    {
      && patterns.Keys <= nodes.Keys
      && (forall p | p in nodes :: nodes[p].path == p)
      && (forall p | p in nodes :: nodes[p].item == if p in patterns then Some(patterns[p]) else None)
    }

    ghost predicate Valid()
      reads this, nodes.Values
    {
      Linked() && Stored()
    }

    constructor ()
      ensures Valid() && patterns == map[] && fresh(nodes.Values)
    {
      root := new Node(None, []);
      new;
      nodes := map[[] := root];
      patterns := map[];
    }

    /** Links a new node below nd as the child for seg. */
    method Link(nd: Node, ghost p: Pattern, seg: string, child: Node)
      requires Linked() && p in nodes && nodes[p] == nd && seg != "" && p + [seg] !in nodes
      requires child !in nodes.Values && child.path == p + [seg] && child.children == Children(map[], map[])
      modifies this`nodes, nd`children
      ensures Linked() && nodes == old(nodes)[p + [seg] := child]
    {
      hide Shape, ShapeAt;
      LinkShape(nodes, Kids(), p, seg, child);
      SetChildren(nd, p, nd.children.With(seg, child));
      ghost var kids := Kids()[p + [seg] := child.children];
      nodes := nodes[p + [seg] := child];
      assert Kids() == kids;
    }

    method SetChildren(nd: Node, ghost p: Pattern, children: Children)
      requires p in nodes && nodes[p] == nd && forall q | q in nodes :: nodes[q].path == q
      modifies nd`children
      ensures nd.children == children && Kids() == old(Kids())[p := children]
    {
      nd.children := children;
    }

    /** Gives the node at p a child for a segment it has none for. */
    method Grow(nd: Node, ghost p: Pattern, seg: string, item: Option<Item>) returns (child: Node)
      requires Valid() && p in nodes && nodes[p] == nd && seg != "" && p + [seg] !in nodes
      modifies this`nodes, this`patterns, nd`children
      ensures Valid() && fresh(child) && nodes == old(nodes)[p + [seg] := child] && p + [seg] !in old(patterns)
      ensures patterns == if item.Some? then old(patterns)[p + [seg] := item.value] else old(patterns)
    {
      assert p + [seg] !in patterns.Keys;
      child := new Node(item, p + [seg]);
      Link(nd, p, seg, child);
      Store(p + [seg]);
    }

    ghost method Store(p: Pattern)
      requires Linked() && p in nodes && p !in patterns && patterns.Keys <= nodes.Keys
      requires forall q | q in nodes && q != p ::
                 nodes[q].path == q && nodes[q].item == if q in patterns then Some(patterns[q]) else None
      modifies this`patterns
      ensures Valid() && patterns == if nodes[p].item.Some? then old(patterns)[p := nodes[p].item.value]
              else old(patterns)
    {
      hide Shape, Kids;
      assert nodes[p].path == p;
      hide Linked;
      if nodes[p].item.Some? {
        patterns := patterns[p := nodes[p].item.value];
      }
    }

    /** Puts an item at a node that has none. */
    method SetItem(nd: Node, ghost p: Pattern, item: Item)
      requires Valid() && p in nodes && nodes[p] == nd && nd.item.None?
      modifies nd`item, this`patterns
      ensures Valid() && patterns == old(patterns)[p := item]
    {
      hide Linked;
      nd.item := Some(item);
      patterns := patterns[p := item];
    }

    /** A segment's child is in the map that getChildren chooses. */
    lemma ChildAt(p: Pattern, seg: string)
      requires Valid() && p in nodes
      ensures seg in nodes[p].children.Get(seg) <==> p + [seg] in nodes
      ensures seg in nodes[p].children.Get(seg) ==> nodes[p].children.Get(seg)[seg] == nodes[p + [seg]]
    {
      assert ShapeAt(nodes, Kids(), p, seg);
    }

    /** The literal children and the parameter children are the nodes one segment longer. */
    lemma ChildOf(p: Pattern, seg: string)
      requires Valid() && p in nodes
      ensures var c := nodes[p].children;
              && (seg in c.literals || seg in c.params ==> seg != "" && p + [seg] in nodes)
              && (seg in c.literals ==> !IsParam(seg) && c.literals[seg] == nodes[p + [seg]])
              && (seg in c.params ==> IsParam(seg) && c.params[seg] == nodes[p + [seg]])
              && (p + [seg] in nodes ==> seg in c.literals || seg in c.params)
    {
      assert ShapeAt(nodes, Kids(), p, seg);
    }

    lemma ItemAt(p: Pattern)
      requires Valid()
      ensures p in patterns ==> p in nodes
      ensures p in nodes ==> nodes[p].item == if p in patterns then Some(patterns[p]) else None
    {
    }

    /** Adds an item below the node at p.  A failing addition may leave nodes behind, but no item. */
    method AddAt(nd: Node, ghost p: Pattern, route: string, item: Item) returns (err: AddError)
      requires Valid() && p in nodes && nodes[p] == nd
      modifies this`nodes, this`patterns, nodes.Values
      ensures Valid() && forall v | v in nodes.Values :: v in old(nodes.Values) || fresh(v)
      ensures err == AddOutcome(old(patterns), Full(p, route))
      ensures patterns == AddPattern(old(patterns), Full(p, route), item)
      decreases |route|
    {
      hide Linked, Stored, Valid;
      ItemAt(p);
      if |route| == 0 {
        assert p + [] == p;
        if nd.item.Some? {
          return DupItem;
        }
        SetItem(nd, p, item);
        return Ok;
      }
      if route[0] == '/' {
        return DupSlash;
      }
      var i := FindSlash(route);
      var token := route[..i];
      ChildAt(p, token);
      ItemAt(p + [token]);
      var children := nd.children.Get(token);
      if i < |route| {
        var child;
        if token in children {
          child := children[token];
        } else {
          child := Grow(nd, p, token, None);
        }
        FullBelow(p, route);
        err := AddAt(child, p + [token], route[i + 1..], item);
      } else {
        assert token == route;
        if token in children {
          var child := children[token];
          if child.item.Some? {
            return DupItem;
          }
          SetItem(child, p + [token], item);
        } else {
          var child := Grow(nd, p, token, Some(item));
        }
        err := Ok;
      }
    }

    /** Adds an item for a route.  What it answers, and what the tree then holds, is decided by the table of
        patterns alone: it fails iff two slashes meet in the route or the pattern that the route spells is there.
        An Add that fails leaves the table as it was. */
    method Add(route: string, item: Option<Item>) returns (err: AddError)
      requires Valid()
      modifies this`nodes, this`patterns, nodes.Values
      ensures Valid() && forall v | v in nodes.Values :: v in old(nodes.Values) || fresh(v)
      ensures if route == "" || route[0] != '/' then err == NotFromRoot
              else if item.None? then err == EmptyItem
              else err == AddOutcome(old(patterns), Full([], route[1..]))
      ensures patterns == if err == Ok then AddPattern(old(patterns), Full([], route[1..]), item.value)
                          else old(patterns)
      ensures err == DupSlash <==> route != "" && route[0] == '/' && item.Some? && SlashesMeet(route)
      ensures err == DupItem || err == Ok ==>
                exists p :: Spells(p, route) && Added(old(patterns), p, item, err, patterns)
    {
      if |route| == 0 || route[0] != '/' {
        return NotFromRoot;
      }
      if item.None? {
        return EmptyItem;
      }
      hide *;
      err := AddAt(root, [], route[1..], item.value);
      RouteSpells(route);
      AddMeans(old(patterns), route, item, err, patterns);
    }

    /** A node on the way to a pattern. */
    lemma {:induction false} OnTheWay(p: Pattern, q: Pattern)
      requires Valid() && p + q in nodes && q != []
      ensures p + [q[0]] in nodes && q[0] != ""
      decreases |q|
    {
      if |q| == 1 {
        assert q == [q[0]];
        assert ShapeAt(nodes, Kids(), p, q[0]);
      } else {
        var q', last := q[..|q| - 1], q[|q| - 1];
        assert p + q == (p + q') + [last];
        assert ShapeAt(nodes, Kids(), p + q', last);
        OnTheWay(p, q');
      }
    }

    /** Searches the path below the child that n has for the segment k. */
    method TryChild(k: string, v: Node, ghost p: Pattern, route: string, i: nat)
        returns (result: Result, ghost q: Pattern)
      requires Valid() && p + [k] in nodes && nodes[p + [k]] == v && k != "" && i == FirstSlash(route)
      ensures result.Found? ==> Chosen(patterns, p, q, Tokens(route), result) && q != [] && q[0] == k
      ensures result.Found? ==>
                forall q' | Candidate(patterns, p, q', Tokens(route)) && q' != [] && q'[0] == k :: !Before(q', q)
      ensures result.NotFound? ==> forall q' | Candidate(patterns, p, q', Tokens(route)) :: q' == [] || q'[0] != k
      decreases |route|, 0
    {
      hide Linked, Stored, Valid, Candidate, Chosen, Tokens, FirstSlash, SegMatches;
      var token := route[..i];
      ghost var below: Pattern := [];
      q := [k];
      var named, found := Match(k, token);
      if i < |route| {
        result := NotFound;
        if found {
          result, below := Next(v, p + [k], route[i + 1..]);
        }
        forall q' | Candidate(patterns, p, q', Tokens(route)) && q' != [] && q'[0] == k
          ensures found && Candidate(patterns, p + [k], q'[1..], Tokens(route[i + 1..]))
        {
          CandidateBelow(patterns, p, k, q', route);
        }
        if result.NotFound? {
          return;
        }
        ChosenBelow(patterns, p, k, below, route, result);
      } else {
        ItemAt(p + [k]);
        assert token == route;
        forall q' | Candidate(patterns, p, q', Tokens(route)) && q' != [] && q'[0] == k
          ensures found && v.item.Some? && q'[1..] == []
        {
          LastCandidate(patterns, p, k, q', route);
        }
        if !found || v.item.None? {
          return NotFound, q;
        }
        result := Found(v.item.value, map[]);
        LastChosen(patterns, p, k, route);
        assert [k] + below == [k];
      }
      q := [k] + below;
      forall q' | Candidate(patterns, p, q', Tokens(route)) && q' != [] && q'[0] == k ensures !Before(q', q) {
        BeforeBelow(k, q', below);
      }
      if named {
        result := AddParam(result, k[1..], token);
      }
    }

    /** A candidate below p goes on with the segment of a child, unless it is p itself. */
    lemma CandidateChild(p: Pattern, q: Pattern, tokens: seq<string>)
      requires Valid() && p in nodes && tokens != [] && Candidate(patterns, p, q, tokens)
      ensures q == [] || q[0] in nodes[p].children.literals || q[0] in nodes[p].children.params
      ensures q == [] ==> p in patterns && tokens == [""]
    {
      if q == [] {
        assert p + [] == p;
      } else {
        OnTheWay(p, q);
        ChildOf(p, q[0]);
      }
    }

    /** Searches the path below n: first the item of n itself, then its literal child, then its parameters. */
    method Next(n: Node, ghost p: Pattern, route: string) returns (result: Result, ghost q: Pattern)
      requires Valid() && p in nodes && nodes[p] == n
      ensures result.Found? ==> Chosen(patterns, p, q, Tokens(route), result)
      ensures result.Found? ==> forall q' | Candidate(patterns, p, q', Tokens(route)) :: !Before(q', q)
      ensures result.NotFound? ==> forall q' :: !Candidate(patterns, p, q', Tokens(route))
      decreases |route|, 1
    {
      hide *;
      q := [];
      ghost var tokens := Tokens(route);
      ItemAt(p);
      if |route| == 0 && n.item.Some? {
        ItemFirst(patterns, p, route);
        return Found(n.item.value, map[]), q;
      }
      var i := FindSlash(route);
      forall q' | Candidate(patterns, p, q', tokens)
        ensures q' != [] && q'[0] in n.children.literals.Keys + n.children.params.Keys
      {
        CandidateChild(p, q', tokens);
        NoTokens(route);
      }
      var rest := n.children.literals.Keys;
      while rest != {}
        invariant rest <= n.children.literals.Keys
        invariant forall q' | Candidate(patterns, p, q', tokens) :: q' != [] && q'[0] in rest + n.children.params.Keys
      {
        var k :| k in rest;
        ChildOf(p, k);
        result, q := TryChild(k, n.children.literals[k], p, route, i);
        if result.Found? {
          forall q' | Candidate(patterns, p, q', tokens) ensures !Before(q', q) {
            if q'[0] != k {
              NotBefore(q', q);
            }
          }
          return;
        }
        rest := rest - {k};
      }
      rest := n.children.params.Keys;
      while rest != {}
        invariant rest <= n.children.params.Keys
        invariant forall q' | Candidate(patterns, p, q', tokens) :: q' != [] && q'[0] in rest
      {
        var k :| k in rest;
        ChildOf(p, k);
        result, q := TryChild(k, n.children.params[k], p, route, i);
        if result.Found? {
          forall q' | Candidate(patterns, p, q', tokens) ensures !Before(q', q) {
            ChildOf(p, q'[0]);
            if q'[0] != k {
              NotBefore(q', q);
            }
          }
          return;
        }
        rest := rest - {k};
      }
      result := NotFound;
    }

    /** A search succeeds iff some pattern of the table matches the path, and then finds the item and the bindings
        of a matching pattern to which no other is preferred. */
    method Search(route: string) returns (result: Result)
      requires Valid()
      ensures if route == "" || route[0] != '/' then result == NotFound
              else Answers(patterns, Tokens(route[1..]), result)
    {
      if |route| == 0 || route[0] != '/' {
        return NotFound;
      }
      assert nodes[[]] == root;
      hide *;
      ghost var q;
      result, q := Next(root, [], route[1..]);
      AnswerAtRoot(patterns, Tokens(route[1..]), result, q);
    }
  }

  /** What a search may answer, by the table of patterns alone. */
  ghost predicate Answers(patterns: map<Pattern, Item>, tokens: seq<string>, result: Result)
    requires tokens != []
  {
    match result
    case NotFound => forall q | q in patterns :: !Matches(q, tokens)
    case Found(_, _) => exists q :: IsAnswer(patterns, tokens, result, q)
  }

  ghost predicate IsAnswer(patterns: map<Pattern, Item>, tokens: seq<string>, result: Result, q: Pattern)
    requires tokens != []
  {
    Best(patterns.Keys, q, tokens) && result == Found(patterns[q], Bindings(q, tokens))
  }

  /** Where no node has two parameter children, the table determines the answer, whatever the order of the children;
      so an Add that fails, and leaves the table as it was, changes no search. */
  lemma AnswersUnique(patterns: map<Pattern, Item>, tokens: seq<string>, r: Result, r': Result)
    requires tokens != [] && OneParam(patterns.Keys) && Answers(patterns, tokens, r) && Answers(patterns, tokens, r')
    ensures r == r'
  {
    hide Matches, Bindings, OneParam;
    if r.Found? {
      var q :| IsAnswer(patterns, tokens, r, q);
      if r'.Found? {
        var q' :| IsAnswer(patterns, tokens, r', q');
        if q != q' {
          MostLiteral(patterns.Keys, q, q', tokens);
        }
      }
    }
  }

  lemma AnswerAtRoot(patterns: map<Pattern, Item>, tokens: seq<string>, result: Result, q: Pattern)
    requires tokens != []
    requires result.Found? ==> Chosen(patterns, [], q, tokens, result)
    requires result.Found? ==> forall q' | Candidate(patterns, [], q', tokens) :: !Before(q', q)
    requires result.NotFound? ==> forall q' :: !Candidate(patterns, [], q', tokens)
    ensures Answers(patterns, tokens, result)
  {
    hide Matches, Bindings, Before;
    forall q' | q' in patterns && Matches(q', tokens) ensures Candidate(patterns, [], q', tokens) {
      assert [] + q' == q';
    }
    assert [] + q == q;
    if result.Found? {
      assert IsAnswer(patterns, tokens, result, q);
    }
  }

  /** p + q is a pattern of the table, and q matches the tokens. */
  ghost predicate Candidate(patterns: map<Pattern, Item>, p: Pattern, q: Pattern, tokens: seq<string>)
    requires tokens != []
  {
    p + q in patterns && Matches(q, tokens)
  }

  /** The result is that of the pattern p + q. */
  ghost predicate Chosen(patterns: map<Pattern, Item>, p: Pattern, q: Pattern, tokens: seq<string>, result: Result)
    requires tokens != []
  {
    Candidate(patterns, p, q, tokens) && result == Found(patterns[p + q], Bindings(q, tokens))
  }

  /** An item at p is found first when the path ends. */
  lemma ItemFirst(patterns: map<Pattern, Item>, p: Pattern, route: string)
    requires route == "" && p in patterns
    ensures Chosen(patterns, p, [], Tokens(route), Found(patterns[p], map[]))
    ensures forall q' :: !Before(q', [])
  {
    assert p + [] == p;
  }

  lemma NoTokens(route: string)
    ensures Tokens(route) == [""] ==> route == ""
  {
  }

  lemma NotBefore(q': Pattern, q: Pattern)
    requires q' != [] && q != [] && q'[0] != q[0] && (IsParam(q'[0]) || !IsParam(q[0]))
    ensures !Before(q', q)
  {
  }

  method Match(pat: string, token: string) returns (named: bool, found: bool)
    requires pat != ""
    ensures named <==> IsParam(pat)
    ensures found <==> SegMatches(pat, token)
  {
    if pat[0] == ':' {
      return true, true;
    }
    named, found := false, pat == token;
  }

  method AddParam(result: Result, k: string, v: string) returns (r: Result)
    requires result.Found?
    ensures r == result.(params := result.params[k := v])
  {
    r := result.(params := result.params[k := v]);
  }

  lemma TokensBelow(route: string)
    requires FirstSlash(route) < |route|
    ensures var i := FirstSlash(route);
            && Tokens(route) != [] && |Tokens(route)| > 1
            && Tokens(route)[0] == route[..i] && Tokens(route)[1..] == Tokens(route[i + 1..])
  {
    hide FirstSlash;
    FirstThen(route[..FirstSlash(route)], Tokens(route[FirstSlash(route) + 1..]), Tokens(route));
  }

  lemma FirstThen(token: string, rest: seq<string>, tokens: seq<string>)
    requires rest != [] && tokens == [token] + rest
    ensures |tokens| > 1 && tokens[0] == token && tokens[1..] == rest
  {
  }

  lemma LastToken(route: string)
    requires FirstSlash(route) == |route|
    ensures Tokens(route) == [route]
  {
  }

  /** Below a child, a candidate is one of the child, if the child matches the first token. */
  lemma CandidateBelow(patterns: map<Pattern, Item>, p: Pattern, k: string, q: Pattern, route: string)
    requires FirstSlash(route) < |route| && q != [] && q[0] == k
    ensures var i := FirstSlash(route);
            Candidate(patterns, p, q, Tokens(route))
            <==> SegMatches(k, route[..i]) && Candidate(patterns, p + [k], q[1..], Tokens(route[i + 1..]))
  {
    hide Tokens, FirstSlash, SegMatches;
    TokensBelow(route);
    assert p + q == p + [k] + q[1..];
  }

  lemma ChosenBelow(patterns: map<Pattern, Item>, p: Pattern, k: string, q: Pattern, route: string, result: Result)
    requires FirstSlash(route) < |route|
    requires SegMatches(k, route[..FirstSlash(route)])
    requires Chosen(patterns, p + [k], q, Tokens(route[FirstSlash(route) + 1..]), result)
    ensures Chosen(patterns, p, [k] + q, Tokens(route),
                   if IsParam(k) then result.(params := result.params[k[1..] := route[..FirstSlash(route)]])
                   else result)
  {
    hide Tokens, FirstSlash, SegMatches;
    TokensBelow(route);
    assert p + ([k] + q) == p + [k] + q && ([k] + q)[1..] == q;
  }

  lemma LastCandidate(patterns: map<Pattern, Item>, p: Pattern, k: string, q: Pattern, route: string)
    requires FirstSlash(route) == |route| && q != [] && q[0] == k
    ensures Candidate(patterns, p, q, Tokens(route)) <==> SegMatches(k, route) && q == [k] && p + [k] in patterns
  {
    hide Tokens, FirstSlash, SegMatches;
    LastToken(route);
    assert |q| == 1 ==> q == [k];
  }

  lemma LastChosen(patterns: map<Pattern, Item>, p: Pattern, k: string, route: string)
    requires FirstSlash(route) == |route| && SegMatches(k, route) && p + [k] in patterns
    ensures Chosen(patterns, p, [k], Tokens(route),
                   Found(patterns[p + [k]], if IsParam(k) then map[k[1..] := route] else map[]))
  {
    LastToken(route);
  }

  lemma BeforeBelow(k: string, q': Pattern, q: Pattern)
    requires q' != [] && q'[0] == k
    ensures Before(q', [k] + q) <==> Before(q'[1..], q)
  {
  }

  /** What an Add of an item at a pattern answers and leaves. */
  ghost predicate Added(patterns: map<Pattern, Item>, p: Pattern, item: Option<Item>, err: AddError,
                        patterns': map<Pattern, Item>)
  {
    if p in patterns then err == DupItem && patterns' == patterns
    else err == Ok && item.Some? && patterns' == patterns[p := item.value]
  }

  /** The pattern that is added for a route is the one that the route spells; there is none iff two slashes meet. */
  lemma RouteSpells(route: string)
    requires route != "" && route[0] == '/'
    ensures Full([], route[1..]).None? <==> SlashesMeet(route)
    ensures Full([], route[1..]).Some? ==> Spells(Full([], route[1..]).value, route)
  {
    hide Parse, Spells, SlashesMeet;
    assert route == "/" + route[1..];
    ParseNoneIff(route[1..]);
    if Parse(route[1..]).Some? {
      ParseSpells(route[1..]);
      assert [] + Parse(route[1..]).value == Parse(route[1..]).value;
    }
  }

  lemma AddMeans(patterns: map<Pattern, Item>, route: string, item: Option<Item>, err: AddError,
                 patterns': map<Pattern, Item>)
    requires route != "" && item.Some? && err == AddOutcome(patterns, Full([], route[1..]))
    requires patterns' == AddPattern(patterns, Full([], route[1..]), item.value)
    requires Full([], route[1..]).Some? ==> Spells(Full([], route[1..]).value, route)
    ensures err == DupSlash <==> Full([], route[1..]).None?
    ensures err == DupItem || err == Ok || err == DupSlash
    ensures err == DupItem || err == Ok ==> exists p :: Spells(p, route) && Added(patterns, p, item, err, patterns')
    ensures err != Ok ==> patterns' == patterns
  {
    hide Full, Spells;
    var full := Full([], route[1..]);
    if full.Some? {
      assert Spells(full.value, route) && Added(patterns, full.value, item, err, patterns');
    }
  }

  method FindSlash(route: string) returns (i: nat)
    ensures i == FirstSlash(route)
  {
    i := 0;
    while i < |route| && route[i] != '/'
      invariant i <= |route| && FirstSlash(route) == i + FirstSlash(route[i..])
    {
      assert route[i..][1..] == route[i + 1..];
      i := i + 1;
    }
  }

  /** A route with a first token adds the same pattern as its rest does, one segment further down. */
  lemma FullBelow(p: Pattern, route: string)
    requires FirstSlash(route) < |route| && route[0] != '/'
    ensures var i := FirstSlash(route); Full(p, route) == Full(p + [route[..i]], route[i + 1..])
  {
    hide FirstSlash, Parse;
    var i := FirstSlash(route);
    var below, here := Parse(route[i + 1..]), [route[..i]];
    ParseBelow(route);
    if below.Some? {
      assert p + (here + below.value) == p + here + below.value;
    }
  }

  lemma ParseBelow(route: string)
    requires FirstSlash(route) < |route| && route[0] != '/'
    ensures var i := FirstSlash(route);
            var below := Parse(route[i + 1..]);
            Parse(route) == if below.None? then None else Some([route[..i]] + below.value)
  {
    hide FirstSlash;
  }
}
