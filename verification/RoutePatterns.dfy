/** What a route search means, as a flat table of patterns: no tree.
    A pattern is the list of its segments; a segment that starts with a colon is a parameter. */
module RoutePatterns {
  import opened Options

  type Item(!new)

  type Pattern = seq<string>

  predicate IsParam(seg: string)
  {
    |seg| > 0 && seg[0] == ':'
  }

  predicate SegMatches(seg: string, token: string)
  {
    IsParam(seg) || seg == token
  }

  /** The position of the first slash; the length if there is none. */
  function FirstSlash(route: string): (i: nat)
    ensures i <= |route| && (forall j | 0 <= j < i :: route[j] != '/') && (i < |route| ==> route[i] == '/')
  {
    if route == "" || route[0] == '/' then 0 else 1 + FirstSlash(route[1..])
  }

  /** A path without its leading slash, as tokens; a trailing slash leaves an empty last token. */
  function Tokens(route: string): (r: seq<string>)
    ensures r != []
    decreases |route|
  {
    var i := FirstSlash(route);
    if i == |route| then [route] else [route[..i]] + Tokens(route[i + 1..])
  }

  /** A route without its leading slash, as a pattern; None if two slashes meet. One trailing slash does not count. */
  function Parse(route: string): (r: Option<Pattern>)
    ensures r.Some? ==> forall seg | seg in r.value :: seg != ""
    decreases |route|
  {
    if route == "" then Some([])
    else if route[0] == '/' then None
    else
      var i := FirstSlash(route);
      if i == |route| then Some([route])
      else match Parse(route[i + 1..])
        case None => None
        case Some(rest) => Some([route[..i]] + rest)
  }

  /** The pattern matches the tokens.  At the end of a path, an empty token may be left over. */
  predicate Matches(pattern: Pattern, tokens: seq<string>)
    requires tokens != []
  {
    if pattern == [] then tokens == [""]
    else
      && SegMatches(pattern[0], tokens[0])
      && if |tokens| == 1 then |pattern| == 1 else Matches(pattern[1..], tokens[1..])
  }

  /** What the parameters of a matching pattern are bound to; of two with one name, the left one counts. */
  function Bindings(pattern: Pattern, tokens: seq<string>): (r: map<string, string>)
    requires tokens != [] && Matches(pattern, tokens)
  {
    if pattern == [] then map[]
    else
      var rest := if |tokens| == 1 then map[] else Bindings(pattern[1..], tokens[1..]);
      if IsParam(pattern[0]) then rest[pattern[0][1..] := tokens[0]] else rest
  }

  /** p is preferred to q: it ends where q goes on, or is literal where q first differs and has a parameter. */
  predicate Before(p: Pattern, q: Pattern)
  {
    if p == [] then q != []
    else if q == [] then false
    else if p[0] == q[0] then Before(p[1..], q[1..])
    else !IsParam(p[0]) && IsParam(q[0])
  }

  // ------------------------------------------------------------ reading the definitions

  /** Segment by segment: as many tokens as segments, or one more, empty, at the end. */
  lemma {:induction false} MatchesFlat(pattern: Pattern, tokens: seq<string>)
    requires tokens != []
    ensures Matches(pattern, tokens)
            <==> (|| |tokens| == |pattern|
                  || (|tokens| == |pattern| + 1 && tokens[|pattern|] == ""))
                 && forall i | 0 <= i < |pattern| && i < |tokens| :: SegMatches(pattern[i], tokens[i])
  {
    if pattern != [] && |tokens| > 1 {
      MatchesFlat(pattern[1..], tokens[1..]);
      assert pattern == [pattern[0]] + pattern[1..] && tokens == [tokens[0]] + tokens[1..];
      if Matches(pattern, tokens) {
        forall i | 0 <= i < |pattern| && i < |tokens| ensures SegMatches(pattern[i], tokens[i]) {
          assert i > 0 ==> SegMatches(pattern[1..][i - 1], tokens[1..][i - 1]);
        }
      }
    }
  }

  /** A name is bound iff some parameter has it, and then to the token of the leftmost such parameter. */
  lemma {:induction false} BindingsLeftmost(pattern: Pattern, tokens: seq<string>, name: string)
    requires tokens != [] && Matches(pattern, tokens)
    ensures name in Bindings(pattern, tokens) <==> exists i :: 0 <= i < |pattern| && pattern[i] == ":" + name
    ensures forall i | 0 <= i < |pattern| && pattern[i] == ":" + name
            && (forall j | 0 <= j < i :: pattern[j] != ":" + name) ::
              i < |tokens| && Bindings(pattern, tokens)[name] == tokens[i]
  {
    if pattern != [] {
      assert IsParam(pattern[0]) ==> pattern[0] == ":" + pattern[0][1..];
      if |tokens| > 1 {
        BindingsLeftmost(pattern[1..], tokens[1..], name);
        var rest := Bindings(pattern[1..], tokens[1..]);
        assert pattern == [pattern[0]] + pattern[1..] && tokens == [tokens[0]] + tokens[1..];
        if name in rest {
          var i :| 0 <= i < |pattern[1..]| && pattern[1..][i] == ":" + name;
          assert pattern[i + 1] == ":" + name;
        }
        forall i | 0 < i < |pattern| && pattern[i] == ":" + name && (forall j | 0 <= j < i :: pattern[j] != ":" + name)
          ensures i < |tokens| && name in rest && rest[name] == tokens[i]
        {
          assert pattern[1..][i - 1] == ":" + name;
          assert forall j | 0 <= j < i - 1 :: pattern[1..][j] == pattern[j + 1];
        }
      }
    }
  }

  /** The tokens of a cleaned path: a route with no empty segment is its own pattern and its own tokens. */
  lemma {:induction false} ParseTokens(route: string)
    requires Parse(route).Some? && route != "" && route[|route| - 1] != '/'
    ensures Parse(route).value == Tokens(route)
    decreases |route|
  {
    var i := FirstSlash(route);
    if i < |route| {
      ParseTokens(route[i + 1..]);
    }
  }

  /** Where no position has two parameters to choose from, two patterns that match the same path are comparable. */
  lemma {:induction false} BeforeTotal(p: Pattern, q: Pattern, tokens: seq<string>)
    requires tokens != [] && Matches(p, tokens) && Matches(q, tokens) && p != q
    requires forall i | 0 <= i < |p| && i < |q| && p[..i] == q[..i] && IsParam(p[i]) && IsParam(q[i]) :: p[i] == q[i]
    ensures Before(p, q) != Before(q, p)
  {
    if p != [] && q != [] {
      assert p[..0] == q[..0];
      if p[0] == q[0] {
        assert p == [p[0]] + p[1..] && q == [q[0]] + q[1..];
        forall i | 0 <= i < |p[1..]| && i < |q[1..]| && p[1..][..i] == q[1..][..i]
                   && IsParam(p[1..][i]) && IsParam(q[1..][i])
          ensures p[1..][i] == q[1..][i]
        {
          assert p[..i + 1] == [p[0]] + p[1..][..i] && q[..i + 1] == [q[0]] + q[1..][..i];
        }
        BeforeTotal(p[1..], q[1..], tokens[1..]);
      }
    }
  }

  /** No two of the patterns go on with different parameters after the same segments: no node of their tree has two
      parameter children. */
  ghost predicate OneParam(patterns: set<Pattern>)
  {
    forall p, q, i | p in patterns && q in patterns && 0 <= i < |p| && i < |q| && p[..i] == q[..i] ::
      IsParam(p[i]) && IsParam(q[i]) ==> p[i] == q[i]
  }

  /** The pattern matches, and no other matching pattern is preferred to it. */
  ghost predicate Best(patterns: set<Pattern>, q: Pattern, tokens: seq<string>)
    requires tokens != []
  {
    && q in patterns && Matches(q, tokens)
    && forall q' | q' in patterns && Matches(q', tokens) :: !Before(q', q)
  }

  /** Then the best match is preferred to every other match; so there is only one. */
  lemma MostLiteral(patterns: set<Pattern>, q: Pattern, q': Pattern, tokens: seq<string>)
    requires tokens != [] && OneParam(patterns) && Best(patterns, q, tokens)
    requires q' in patterns && Matches(q', tokens) && q' != q
    ensures Before(q, q') && !Best(patterns, q', tokens)
  {
    BeforeTotal(q, q', tokens);
  }

  // ------------------------------------------------------------ what is written and what is read

  /** Segments with a slash between any two. */
  function Join(segs: seq<string>): string
  {
    if segs == [] then "" else if |segs| == 1 then segs[0] else segs[0] + "/" + Join(segs[1..])
  }

  ghost predicate NoSlash(segs: seq<string>)
  {
    forall seg | seg in segs :: '/' !in seg
  }

  /** Two slashes side by side in a route. */
  ghost predicate SlashesMeet(route: string)
  {
    exists i :: 0 < i < |route| && route[i - 1] == '/' && route[i] == '/'
  }

  /** The pattern written as a route: its segments, none empty, with at most one slash behind them. */
  ghost predicate Spells(pattern: Pattern, route: string)
  {
    && NoSlash(pattern) && "" !in pattern
    && (route == "/" + Join(pattern) || (pattern != [] && route == "/" + Join(pattern) + "/"))
  }

  lemma JoinCons(seg: string, segs: seq<string>)
    ensures Join([seg] + segs) == if segs == [] then seg else seg + "/" + Join(segs)
  {
    assert ([seg] + segs)[1..] == segs;
  }

  /** A route without its leading slash has no pattern iff two slashes meet in the route. */
  lemma {:induction false} ParseNoneIff(route: string)
    ensures Parse(route).None? <==> SlashesMeet("/" + route)
    decreases |route|
  {
    var full, i := "/" + route, FirstSlash(route);
    if route != "" && route[0] == '/' {
      assert full[0] == '/' && full[1] == '/';
    } else if i < |route| {
      var rest := route[i + 1..];
      ParseNoneIff(rest);
      assert full[i + 1..] == "/" + rest;
      MeetLater(full, i + 1);
    } else {
      assert forall j | 0 < j < |full| :: full[j] == route[j - 1];
    }
  }

  /** Before the first slash that follows a first segment, no slashes meet. */
  lemma MeetLater(full: string, n: nat)
    requires 1 < n < |full| && full[0] == '/' && full[n] == '/' && forall j | 0 < j < n :: full[j] != '/'
    ensures SlashesMeet(full) <==> SlashesMeet(full[n..])
  {
    var later := full[n..];
    if i :| 0 < i < |full| && full[i - 1] == '/' && full[i] == '/' {
      assert later[i - n - 1] == '/' && later[i - n] == '/';
    }
    if i :| 0 < i < |later| && later[i - 1] == '/' && later[i] == '/' {
      assert full[n + i - 1] == '/' && full[n + i] == '/';
    }
  }

  /** What is read from a route is what the route spells. */
  lemma {:induction false} ParseSpells(route: string)
    requires Parse(route).Some?
    ensures Spells(Parse(route).value, "/" + route)
    decreases |route|
  {
    hide Spells, FirstSlash, Join;
    var i := FirstSlash(route);
    SpellsFew(route);
    if i < |route| {
      var rest := route[i + 1..];
      ParseSpells(rest);
      SpellsCons(route[..i], Parse(rest).value, rest);
      assert route[..i] + "/" + rest == route;
    }
  }

  lemma SpellsFew(route: string)
    ensures Spells([], "/" + "")
    ensures route != "" && '/' !in route ==> Spells([route], "/" + route)
  {
    assert "/" + "" == "/" + Join([]) && Join([route]) == route;
  }

  lemma SpellsCons(seg: string, segs: Pattern, rest: string)
    requires Spells(segs, "/" + rest) && seg != "" && '/' !in seg
    ensures Spells([seg] + segs, "/" + (seg + "/" + rest))
  {
    JoinCons(seg, segs);
    assert ("/" + rest)[1..] == rest;
    if "/" + rest == "/" + Join(segs) {
      assert ("/" + Join(segs))[1..] == Join(segs);
      if segs == [] {
        assert "/" + (seg + "/" + rest) == "/" + Join([seg]) + "/";
      }
    } else {
      assert ("/" + Join(segs) + "/")[1..] == Join(segs) + "/";
      assert seg + "/" + (Join(segs) + "/") == seg + "/" + Join(segs) + "/";
    }
  }

  /** The tokens of a path, joined, are the path. */
  lemma {:induction false} TokensJoin(route: string)
    ensures Join(Tokens(route)) == route && NoSlash(Tokens(route))
    decreases |route|
  {
    var i := FirstSlash(route);
    if i < |route| {
      TokensJoin(route[i + 1..]);
      JoinCons(route[..i], Tokens(route[i + 1..]));
    }
  }

  /** Segments without slashes can be told from what they are joined to. */
  lemma {:induction false} JoinInjective(a: seq<string>, b: seq<string>)
    requires a != [] && b != [] && NoSlash(a) && NoSlash(b) && Join(a) == Join(b)
    ensures a == b
  {
    var s := Join(a);
    FirstOfJoin(a);
    FirstOfJoin(b);
    assert a == [a[0]] + a[1..] && b == [b[0]] + b[1..];
    if |a| > 1 {
      assert |b| > 1;
      assert s[|a[0]| + 1..] == Join(a[1..]) && s[|b[0]| + 1..] == Join(b[1..]);
      JoinInjective(a[1..], b[1..]);
    }
  }

  lemma FirstOfJoin(a: seq<string>)
    requires a != [] && NoSlash(a)
    ensures |a[0]| == FirstSlash(Join(a)) && a[0] == Join(a)[..|a[0]|] && (|a| > 1 <==> |a[0]| < |Join(a)|)
    ensures |a| > 1 ==> Join(a)[|a[0]| + 1..] == Join(a[1..]) && NoSlash(a[1..])
  {
    var s, n := Join(a), |a[0]|;
    assert a[0] in a;
    FirstSlashAt(s, n);
  }

  lemma FirstSlashAt(s: string, n: nat)
    requires n <= |s| && (forall j | 0 <= j < n :: s[j] != '/') && (n < |s| ==> s[n] == '/')
    ensures FirstSlash(s) == n
  {
  }

  /** p and q agree up to i; there p ends and q goes on, or p is literal and q has a parameter. */
  predicate PreferredAt(p: Pattern, q: Pattern, i: nat)
  {
    && i <= |p| && i < |q| && p[..i] == q[..i]
    && (i < |p| ==> !IsParam(p[i]) && IsParam(q[i]))
  }

  /** Which of two patterns is preferred is decided where they first differ. */
  lemma {:induction false} BeforeFlat(p: Pattern, q: Pattern)
    ensures Before(p, q) <==> exists i :: PreferredAt(p, q, i)
  {
    hide PreferredAt;
    PreferredFirst(p, q);
    if p != [] && q != [] {
      BeforeFlat(p[1..], q[1..]);
      if i: nat :| PreferredAt(p, q, i) && i > 0 {
        PreferredLater(p, q, i - 1);
      }
      if p[0] == q[0] {
        if i: nat :| PreferredAt(p[1..], q[1..], i) {
          PreferredLater(p, q, i);
        }
      }
    } else if q == [] {
      forall i: nat ensures !PreferredAt(p, q, i) {
        PreferredInside(p, q, i);
      }
    }
  }

  lemma PreferredInside(p: Pattern, q: Pattern, i: nat)
    ensures PreferredAt(p, q, i) ==> i <= |p| && i < |q|
  {
  }

  lemma PreferredFirst(p: Pattern, q: Pattern)
    ensures PreferredAt(p, q, 0) <==> q != [] && (p == [] || (!IsParam(p[0]) && IsParam(q[0])))
  {
    assert q != [] ==> p[..0] == q[..0];
  }

  lemma PreferredLater(p: Pattern, q: Pattern, i: nat)
    requires p != [] && q != []
    ensures PreferredAt(p, q, i + 1) <==> p[0] == q[0] && PreferredAt(p[1..], q[1..], i)
  {
    if i + 1 <= |p| && i + 1 < |q| {
      assert p[..i + 1] == [p[0]] + p[1..][..i] && q[..i + 1] == [q[0]] + q[1..][..i];
      assert p[..i + 1] == q[..i + 1] ==> p[..i + 1][1..] == q[..i + 1][1..] && p[..i + 1][0] == q[..i + 1][0];
    }
  }

  /** A route spells at most one pattern. */
  lemma SpellsUnique(p: Pattern, q: Pattern, route: string)
    requires Spells(p, route) && Spells(q, route)
    ensures p == q
  {
    if route == "/" + Join(p) && route == "/" + Join(q) {
      SameJoin(p, q, route[1..]);
    } else if route == "/" + Join(p) {
      assert route[1..] == Join(q) + "/";
      TrailingSlash(q, p);
    } else if route == "/" + Join(q) {
      assert route[1..] == Join(p) + "/";
      TrailingSlash(p, q);
    } else {
      assert (Join(p) + "/")[..|Join(p)|] == Join(p) && (Join(q) + "/")[..|Join(q)|] == Join(q);
      assert route[1..] == Join(p) + "/" && route[1..] == Join(q) + "/";
      SameJoin(p, q, Join(p));
    }
  }

  lemma SameJoin(p: Pattern, q: Pattern, joined: string)
    requires NoSlash(p) && NoSlash(q) && "" !in p && "" !in q && Join(p) == joined && Join(q) == joined
    ensures p == q
  {
    JoinEmpty(p);
    JoinEmpty(q);
    if p != [] && q != [] {
      JoinInjective(p, q);
    }
  }

  lemma JoinEmpty(p: Pattern)
    ensures "" !in p ==> (Join(p) == "" <==> p == [])
  {
    if p != [] {
      assert p[0] in p;
    }
  }

  /** What is joined from segments that are not empty has no slash at its end. */
  lemma TrailingSlash(p: Pattern, q: Pattern)
    requires p != [] && NoSlash(p) && NoSlash(q)
    ensures Join(p) + "/" == Join(q) ==> "" in q
  {
    if Join(p) + "/" == Join(q) {
      var p' := p + [""];
      JoinSnoc(p);
      JoinInjective(p', q);
      assert q[|p|] == "";
    }
  }

  lemma {:induction false} JoinSnoc(p: Pattern)
    requires p != []
    ensures Join(p + [""]) == Join(p) + "/"
  {
    if |p| > 1 {
      JoinSnoc(p[1..]);
      assert (p + [""])[1..] == p[1..] + [""];
    } else {
      assert (p + [""])[1..] == [""];
    }
  }
}
