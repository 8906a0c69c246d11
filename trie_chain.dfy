/** Search in a trie that holds one special pattern, against an independent
    reference matcher for that pattern. */
module TrieChain {
  import opened Wrappers
  import opened TrieSpec
  import opened TrieProperties

  /** The name under which the `:` segment at position `i`, whose name ends at
      position `a`, is reported: its own name, or `*` when a wildcard follows
      the name directly, because the wildcard owner's name overwrites it. */
  function SegmentName(key: string, i: nat, a: nat): (s: string)
    requires i < a <= |key|
    ensures a < |key| && key[a] == '*' ==> s == WildcardKey
    ensures a == |key| || key[a] != '*' ==> s == key[i + 1..a]
  {
    if a < |key| && key[a] == '*' then WildcardKey else key[i + 1..a]
  }

  /** Reference matcher: the captures with which `query` from position `q`
      matches the pattern `key` from position `i`, or None.
      - a plain pattern character must equal the path character;
      - `:name` takes one path character whatever it is, then the run of name
        characters after it, and binds the segment name to what it took;
      - `*` binds the whole rest of the path and ignores the rest of the pattern;
      - the pattern and the path must end together. */
  function PatternMatch(key: string, i: nat, query: string, q: nat, params: map<string, string>): Option<map<string, string>>
    requires i <= |key| && q <= |query|
    decreases |key| - i
  {
    if i == |key| then
      if q == |query| then Some(params) else None
    else if key[i] == '*' then
      Some(params[WildcardKey := query[q..]])
    else if key[i] == ':' then
      if q == |query| then None
      else
        var a := NameRunEnd(key, i + 1);
        var b := NameRunEnd(query, q + 1);
        PatternMatch(key, a, query, b, params[SegmentName(key, i, a) := query[q..b]])
    else if q < |query| && query[q] == key[i] then
      PatternMatch(key, i + 1, query, q + 1, params)
    else
      None
  }

  /** A reference answer as a search result carrying `value`. */
  function Answer<T>(value: T, p: Option<map<string, string>>): (r: Option<Match<T>>)
    ensures r.Some? <==> p.Some?
    ensures r.Some? ==> r.value == Match(Some(value), p.value)
  {
    if p.Some? then Some(Match(Some(value), p.value)) else None
  }

  /** In a trie holding only the special pattern `key`, a path matches exactly
      when it starts with the pattern's first character and the reference
      matcher accepts the rest; the result carries the pattern's value and the
      matcher's captures. */
  lemma SinglePatternSearch<T>(key: string, value: T, query: string)
    requires HasSpecialCharacter(key)
    ensures Search(Insert(Empty(), key, value), query) ==
      if |query| == 0 || query[0] != key[0] then None
      else Answer(value, PatternMatch(key, 1, query, 1, map[]))
  {
    var nodes: seq<Node<T>> := [Blank()];
    assert Empty<T>().nodes + [Blank()] == nodes;
    var r := InsertWalk(nodes, key, value, 0, 1, false, "");
    assert Insert(Empty(), key, value) == Tree(r, map[], map[key[0] := 0]);
    if |query| > 0 && query[0] == key[0] {
      ChainWalkMatches(nodes, key, value, 0, 1, "", query, 1, r[0].paramName.GetOr(""), "", map[]);
    }
  }

  /** The insert loop from a blank node lays out a fresh chain; a search on
      it, outside any capture, answers what the reference matcher does. */
  lemma {:induction false} ChainWalkMatches<T>(nodes: seq<Node<T>>, key: string, value: T, cur: nat, i: nat, nm: string,
                                               query: string, q: nat, name: string, captured: string,
                                               params: map<string, string>)
    requires Forward(nodes) && cur < |nodes| && nodes[cur] == Blank()
    requires i <= |key| && q <= |query|
    ensures Scan(InsertWalk(nodes, key, value, cur, i, false, nm), query, cur, q, false, name, captured, params)
      == Answer(value, PatternMatch(key, i, query, q, params))
    decreases |key| - i, 2
  {
    if i == |key| {
      var r := InsertWalk(nodes, key, value, cur, i, false, nm);
      assert r[cur] == Blank().(value := Some(value), isWord := true);
      if q < |query| {
        assert Scan(r, query, cur, q, false, name, captured, params) == Route(r, query, cur, q, name, captured, params);
      }
    } else {
      assert InsertWalk(nodes, key, value, cur, i, false, nm) == InsertStep(nodes, key, value, cur, i, nm);
      assert Blank<T>().(paramName := None) == Blank();
      ChainStepMatches(nodes, key, value, cur, i, nm, None, query, q, name, captured, params);
    }
  }

  /** One pattern character from a node that is blank but for its recorded
      name: the search answers what the reference matcher does, and the node
      keeps its name unless the character is `*`. */
  lemma {:induction false} ChainStepMatches<T>(nodes: seq<Node<T>>, key: string, value: T, cur: nat, i: nat, nm: string,
                                               pn: Option<string>, query: string, q: nat, name: string, captured: string,
                                               params: map<string, string>)
    requires Forward(nodes) && cur < |nodes| && nodes[cur] == Blank().(paramName := pn)
    requires i < |key| && q <= |query|
    ensures var r := InsertStep(nodes, key, value, cur, i, nm);
      && Scan(r, query, cur, q, false, name, captured, params) == Answer(value, PatternMatch(key, i, query, q, params))
      && r[cur].paramName == (if key[i] == '*' then Some(WildcardKey) else pn)
      && (key[i] != '*' ==> !r[cur].isWord && r[cur].wildcard.None?)
    decreases |key| - i, 1
  {
    if key[i] == ':' {
      ChainParamMatches(nodes, key, value, cur, i, nm, pn, query, q, name, captured, params);
    } else if key[i] == '*' {
      var r := InsertStep(nodes, key, value, cur, i, nm);
      var o := SetNode(nodes, cur, WildcardOwner(nodes[cur], value));
      assert r == WithWildcard(o, cur);
      assert r[cur] == o[cur].(wildcard := Some(|nodes|));
      if q < |query| {
        assert Scan(r, query, cur, q, false, name, captured, params) == Route(r, query, cur, q, name, captured, params);
      }
    } else {
      ChainStaticMatches(nodes, key, value, cur, i, nm, pn, query, q, name, captured, params);
    }
  }

  /** A plain pattern character: the path must spell it, and the search goes
      on in the fresh child. */
  lemma {:induction false} ChainStaticMatches<T>(nodes: seq<Node<T>>, key: string, value: T, cur: nat, i: nat, nm: string,
                                                 pn: Option<string>, query: string, q: nat, name: string, captured: string,
                                                 params: map<string, string>)
    requires Forward(nodes) && cur < |nodes| && nodes[cur] == Blank().(paramName := pn)
    requires i < |key| && key[i] != ':' && key[i] != '*' && q <= |query|
    ensures var r := InsertStep(nodes, key, value, cur, i, nm);
      && Scan(r, query, cur, q, false, name, captured, params) == Answer(value, PatternMatch(key, i, query, q, params))
      && r[cur].paramName == pn && !r[cur].isWord && r[cur].wildcard.None?
    decreases |key| - i, 0
  {
    var c := key[i];
    var r := InsertStep(nodes, key, value, cur, i, nm);
    var w := WithChild(nodes, cur, c);
    var next := |nodes|;
    assert w[cur].children == map[c := next];
    assert r == InsertWalk(w, key, value, next, i + 1, false, nm);
    InsertWalkFrame(w, key, value, next, i + 1, false, nm);
    assert r[cur] == w[cur];
    if q < |query| {
      assert Scan(r, query, cur, q, false, name, captured, params) == Route(r, query, cur, q, name, captured, params);
      if query[q] == c {
        ChainWalkMatches(w, key, value, next, i + 1, nm, query, q + 1, name, captured, params);
      }
    }
  }

  /** A `:` segment: the fresh parameter node records the segment's name, and
      the search takes one path character and the run of name characters
      after it, binds them, and goes on from the parameter node. */
  lemma {:induction false} ChainParamMatches<T>(nodes: seq<Node<T>>, key: string, value: T, cur: nat, i: nat, nm: string,
                                                pn: Option<string>, query: string, q: nat, name: string, captured: string,
                                                params: map<string, string>)
    requires Forward(nodes) && cur < |nodes| && nodes[cur] == Blank().(paramName := pn)
    requires i < |key| && key[i] == ':' && q <= |query|
    ensures var r := InsertStep(nodes, key, value, cur, i, nm);
      && Scan(r, query, cur, q, false, name, captured, params) == Answer(value, PatternMatch(key, i, query, q, params))
      && r[cur].paramName == pn && !r[cur].isWord && r[cur].wildcard.None?
    decreases |key| - i, 0
  {
    var r := InsertStep(nodes, key, value, cur, i, nm);
    var w := WithParam(nodes, cur);
    var p := |nodes|;
    var a := NameRunEnd(key, i + 1);
    var full := key[i + 1..a];
    ChainParamInsert(nodes, key, value, cur, i, nm);
    if q < |query| {
      ChainParamSearch(r, query, cur, p, q, name, captured, params);
      var pname := r[p].paramName.GetOr("");
      var b := NameRunEnd(query, q + 1);
      var val := query[q..b];
      var params' := params[SegmentName(key, i, a) := val];
      if a == |key| {
        assert r[p] == Blank().(value := Some(value), isWord := true, paramName := Some(full));
        assert pname == SegmentName(key, i, a);
        if b < |query| {
          assert Route(r, query, p, b, pname, val, params') == None;
        }
      } else {
        var u := SetNode(w, p, NamedParam(w[p], full));
        ChainStepMatches(u, key, value, p, a, full, Some(full), query, b, pname, val, params');
        assert pname == SegmentName(key, i, a);
        if b == |query| && key[a] == '*' {
          assert params'[WildcardKey := query[b..]] == params[WildcardKey := query[b..]];
        }
      }
    }
  }

  /** Insert at a `:` from a blank node: a fresh parameter node, which ends
      the pattern or records the name and goes on at the end of the name. */
  lemma ChainParamInsert<T>(nodes: seq<Node<T>>, key: string, value: T, cur: nat, i: nat, nm: string)
    requires Forward(nodes) && cur < |nodes| && i < |key| && key[i] == ':'
    ensures var w := WithParam(nodes, cur);
      var r := InsertStep(nodes, key, value, cur, i, nm);
      var p := |nodes|;
      var a := NameRunEnd(key, i + 1);
      var full := key[i + 1..a];
      && (nodes[cur].param.None? ==> w[cur].param == Some(p) && w[p] == Blank() && r[cur] == w[cur])
      && r == (if a == |key| then SetNode(w, w[cur].param.value, Terminal(w[w[cur].param.value], value, true, full))
               else InsertStep(SetNode(w, w[cur].param.value, NamedParam(w[w[cur].param.value], full)), key, value, w[cur].param.value, a, full))
  {
    var w := WithParam(nodes, cur);
    var p := w[cur].param.value;
    assert EdgesForward(w[cur], cur, |w|);
    assert InsertStep(nodes, key, value, cur, i, nm) == InsertWalk(w, key, value, p, i + 1, true, "");
    InsertWalkFrame(w, key, value, p, i + 1, true, "");
    InsertCollectsName(w, key, value, p, i + 1, "");
    var a := NameRunEnd(key, i + 1);
    assert "" + key[i + 1..a] == key[i + 1..a];
  }

  /** Search at a node whose only edge is the parameter edge to `p`: the
      capture takes the path character and the name run after it. */
  lemma ChainParamSearch<T>(r: seq<Node<T>>, query: string, cur: nat, p: nat, q: nat, name: string,
                            captured: string, params: map<string, string>)
    requires Forward(r) && cur < |r| && p < |r| && q < |query|
    requires r[cur].children == map[] && r[cur].param == Some(p)
    ensures var pname := r[p].paramName.GetOr("");
      var b := NameRunEnd(query, q + 1);
      Scan(r, query, cur, q, false, name, captured, params) ==
        if b == |query| then Finish(r, query, p, b, true, pname, query[q..b], params)
        else Route(r, query, p, b, pname, query[q..b], params[pname := query[q..b]])
  {
    var c := query[q];
    var pname := r[p].paramName.GetOr("");
    assert Scan(r, query, cur, q, false, name, captured, params) == Route(r, query, cur, q, name, captured, params);
    assert Route(r, query, cur, q, name, captured, params) == Scan(r, query, p, q + 1, true, pname, [c], params);
    ScanCollectsValue(r, query, p, q + 1, pname, [c], params);
    var b := NameRunEnd(query, q + 1);
    assert [c] + query[q + 1..b] == query[q..b];
  }

  // ---------------------------------------------------------------------------
  // Filling a pattern's parameters in: every name is bound

  /** The path that a pattern without `*` spells from position `i` when its
      `:name` segments are replaced, in order, by `args`. */
  function Fill(key: string, i: nat, args: seq<string>): string
    requires i <= |key|
    decreases |key| - i
  {
    if i == |key| then ""
    else if key[i] == ':' then
      var a := NameRunEnd(key, i + 1);
      (if |args| > 0 then args[0] else "") + Fill(key, a, if |args| > 0 then args[1..] else [])
    else [key[i]] + Fill(key, i + 1, args)
  }

  /** The names of the `:name` segments from position `i` on. */
  function SegmentNames(key: string, i: nat): set<string>
    requires i <= |key|
    decreases |key| - i
  {
    if i == |key| then {}
    else if key[i] == ':' then
      var a := NameRunEnd(key, i + 1);
      {key[i + 1..a]} + SegmentNames(key, a)
    else SegmentNames(key, i + 1)
  }

  /** The captures that binding the `:name` segments from position `i` to
      `args`, in order, adds to `params`: every name bound before stays
      bound, only segment names are added, and a name that no later segment
      reuses keeps its earlier value. */
  function Bind(key: string, i: nat, args: seq<string>, params: map<string, string>): (r: map<string, string>)
    requires i <= |key|
    ensures params.Keys <= r.Keys <= params.Keys + SegmentNames(key, i)
    ensures forall n :: n in params && n !in SegmentNames(key, i) ==> r[n] == params[n]
    decreases |key| - i
  {
    if i == |key| then params
    else if key[i] == ':' then
      var a := NameRunEnd(key, i + 1);
      if |args| > 0 then Bind(key, a, args[1..], params[key[i + 1..a] := args[0]])
      else Bind(key, a, [], params)
    else Bind(key, i + 1, args, params)
  }

  /** The number of `:name` segments from position `i` on. */
  function ParamCount(key: string, i: nat): nat
    requires i <= |key|
    decreases |key| - i
  {
    if i == |key| then 0
    else if key[i] == ':' then 1 + ParamCount(key, NameRunEnd(key, i + 1))
    else ParamCount(key, i + 1)
  }

  /** A pattern whose parameters can be filled in: no `*`, and every `:name`
      ends the pattern or is followed by a plain character. */
  predicate Fillable(key: string, i: nat)
    requires i <= |key|
    decreases |key| - i
  {
    if i == |key| then true
    else if key[i] == '*' then false
    else if key[i] == ':' then
      var a := NameRunEnd(key, i + 1);
      (a == |key| || key[a] != ':') && Fillable(key, a)
    else Fillable(key, i + 1)
  }

  /** An argument the reference matcher takes whole: at least one character,
      all after the first continuing a name. */
  predicate WholeArgument(arg: string) {
    |arg| >= 1 && forall k :: 1 <= k < |arg| ==> ContinuesName(arg[k])
  }

  /** A run of name characters from `i` that stops at `j` ends exactly there. */
  lemma {:induction false} NameRunEndAt(s: string, i: nat, j: nat)
    requires i <= j <= |s|
    requires forall k :: i <= k < j ==> ContinuesName(s[k])
    requires j == |s| || !ContinuesName(s[j])
    ensures NameRunEnd(s, i) == j
    decreases j - i
  {
    if i < j {
      NameRunEndAt(s, i + 1, j);
    }
  }

  /** A run of plain pattern characters is copied into the filled-in path
      and adds no parameter. */
  lemma {:induction false} PlainRun(key: string, i: nat, j: nat, args: seq<string>, params: map<string, string>)
    requires i <= j <= |key| && forall k :: i <= k < j ==> key[k] != ':' && key[k] != '*'
    ensures Fillable(key, i) == Fillable(key, j) && ParamCount(key, i) == ParamCount(key, j)
    ensures Fill(key, i, args) == key[i..j] + Fill(key, j, args)
    ensures Bind(key, i, args, params) == Bind(key, j, args, params)
    decreases j - i
  {
    if i < j {
      PlainStep(key, i, args, params);
      PlainRun(key, i + 1, j, args, params);
      assert key[i..j] == [key[i]] + key[i + 1..j];
    }
  }

  /** One plain pattern character is copied and adds no parameter. */
  lemma PlainStep(key: string, i: nat, args: seq<string>, params: map<string, string>)
    requires i < |key| && key[i] != ':' && key[i] != '*'
    ensures Fillable(key, i) == Fillable(key, i + 1) && ParamCount(key, i) == ParamCount(key, i + 1)
    ensures Fill(key, i, args) == [key[i]] + Fill(key, i + 1, args)
    ensures Bind(key, i, args, params) == Bind(key, i + 1, args, params)
  {
  }

  /** A `:name` segment ending at `a`, followed by plain characters up to `j`:
      it takes the next argument, copies the plain run, and binds the name. */
  lemma ParamThenPlain(key: string, i: nat, a: nat, j: nat, args: seq<string>, params: map<string, string>)
    requires i < a <= j <= |key| && key[i] == ':' && |args| > 0
    requires forall k :: i + 1 <= k < a ==> ContinuesName(key[k])
    requires a == |key| || !ContinuesName(key[a])
    requires forall k :: a <= k < j ==> key[k] != ':' && key[k] != '*'
    requires a == |key| || key[a] != ':'
    ensures Fillable(key, i) == Fillable(key, j) && ParamCount(key, i) == 1 + ParamCount(key, j)
    ensures Fill(key, i, args) == args[0] + key[a..j] + Fill(key, j, args[1..])
    ensures Bind(key, i, args, params) == Bind(key, j, args[1..], params[key[i + 1..a] := args[0]])
  {
    NameRunEndAt(key, i + 1, a);
    PlainRun(key, a, j, args[1..], params[key[i + 1..a] := args[0]]);
  }

  /** The reference matcher accepts the filled-in path and binds every
      segment name to its argument. */
  lemma {:induction false} FillMatches(key: string, i: nat, args: seq<string>, query: string, q: nat, params: map<string, string>)
    requires i <= |key| && q <= |query| && Fillable(key, i)
    requires |args| == ParamCount(key, i) && forall k :: 0 <= k < |args| ==> WholeArgument(args[k])
    requires query[q..] == Fill(key, i, args)
    ensures PatternMatch(key, i, query, q, params) == Some(Bind(key, i, args, params))
    decreases |key| - i
  {
    if i == |key| {
    } else if key[i] == ':' {
      var a := NameRunEnd(key, i + 1);
      var b := q + |args[0]|;
      FillParamStep(key, i, args, query, q, params);
      FillMatches(key, a, args[1..], query, b, params[key[i + 1..a] := args[0]]);
    } else {
      FillPlainStep(key, i, args, query, q, params);
      FillMatches(key, i + 1, args, query, q + 1, params);
    }
  }

  /** A plain pattern character meets the same character in the filled-in
      path, and the matcher goes on after both. */
  lemma FillPlainStep(key: string, i: nat, args: seq<string>, query: string, q: nat, params: map<string, string>)
    requires i < |key| && key[i] != ':' && q <= |query| && Fillable(key, i)
    requires query[q..] == Fill(key, i, args)
    ensures q < |query| && query[q + 1..] == Fill(key, i + 1, args)
    ensures Fillable(key, i + 1) && ParamCount(key, i) == ParamCount(key, i + 1)
    ensures PatternMatch(key, i, query, q, params) == PatternMatch(key, i + 1, query, q + 1, params)
    ensures Bind(key, i, args, params) == Bind(key, i + 1, args, params)
  {
    PlainStep(key, i, args, params);
    assert query[q] == key[i] by { assert query[q] == query[q..][0]; }
    assert query[q + 1..] == Fill(key, i + 1, args) by { assert query[q + 1..] == query[q..][1..]; }
  }

  /** A `:name` segment of the pattern meets its argument in the filled-in
      path: the matcher captures exactly that argument and goes on after it. */
  lemma FillParamStep(key: string, i: nat, args: seq<string>, query: string, q: nat, params: map<string, string>)
    requires i < |key| && key[i] == ':' && q <= |query| && Fillable(key, i)
    requires |args| == ParamCount(key, i) && forall k :: 0 <= k < |args| ==> WholeArgument(args[k])
    requires query[q..] == Fill(key, i, args)
    ensures var a := NameRunEnd(key, i + 1);
      var b := q + |args[0]|;
      && b <= |query| && query[b..] == Fill(key, a, args[1..])
      && Fillable(key, a) && |args[1..]| == ParamCount(key, a)
      && PatternMatch(key, i, query, q, params) == PatternMatch(key, a, query, b, params[key[i + 1..a] := args[0]])
      && Bind(key, i, args, params) == Bind(key, a, args[1..], params[key[i + 1..a] := args[0]])
  {
    var a := NameRunEnd(key, i + 1);
    ParamUnfold(key, i, args, params);
    var arg := args[0];
    var rest := Fill(key, a, args[1..]);
    SplitAt(query, q, arg, rest);
    var b := q + |arg|;
    assert WholeArgument(arg);
    if b < |query| {
      assert query[b] == key[a] by { assert query[b] == query[b..][0]; }
    }
    NameRunEndAt(query, q + 1, b);
    assert SegmentName(key, i, a) == key[i + 1..a];
  }

  /** At a `:name` segment of a fillable pattern: it takes the first argument,
      and what follows the name is the end or a plain, non-name character. */
  lemma ParamUnfold(key: string, i: nat, args: seq<string>, params: map<string, string>)
    requires i < |key| && key[i] == ':' && Fillable(key, i) && |args| == ParamCount(key, i)
    ensures var a := NameRunEnd(key, i + 1);
      && |args| > 0 && Fillable(key, a) && |args[1..]| == ParamCount(key, a)
      && Fill(key, i, args) == args[0] + Fill(key, a, args[1..])
      && Bind(key, i, args, params) == Bind(key, a, args[1..], params[key[i + 1..a] := args[0]])
      && (a < |key| ==> !ContinuesName(key[a]) && Fill(key, a, args[1..]) == [key[a]] + Fill(key, a + 1, args[1..]))
  {
  }

  /** A sequence whose suffix from `q` is `arg + rest` holds `arg` at `q`. */
  lemma SplitAt(query: string, q: nat, arg: string, rest: string)
    requires q <= |query| && query[q..] == arg + rest
    ensures q + |arg| <= |query| && query[q..q + |arg|] == arg && query[q + |arg|..] == rest
    ensures forall k :: q <= k < q + |arg| ==> query[k] == arg[k - q]
  {
    assert query[q..q + |arg|] == (arg + rest)[..|arg|];
    assert query[q + |arg|..] == (arg + rest)[|arg|..];
  }

  /** In a trie holding only the parametrised route `key`, the route's first
      character followed by the filled-in path is found, with every segment
      name bound to its argument. */
  lemma FilledRouteMatches<T>(key: string, value: T, args: seq<string>)
    requires HasSpecialCharacter(key) && Fillable(key, 1)
    requires |args| == ParamCount(key, 1) && forall k :: 0 <= k < |args| ==> WholeArgument(args[k])
    ensures Search(Insert(Empty(), key, value), [key[0]] + Fill(key, 1, args))
      == Some(Match(Some(value), Bind(key, 1, args, map[])))
  {
    var query := [key[0]] + Fill(key, 1, args);
    assert query[1..] == Fill(key, 1, args);
    SinglePatternSearch(key, value, query);
    FillMatches(key, 1, args, query, 1, map[]);
  }
}
