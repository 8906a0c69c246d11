/** What insert and search promise, stated over the functions of TrieSpec. */
module TrieProperties {
  import opened Wrappers
  import opened TrieSpec
  import opened TrieValid

  // ---------------------------------------------------------------------------
  // Parameter names: one continuation rule for insert and search

  /** The end of the run of name characters that starts at position `i`. */
  function NameRunEnd(s: string, i: nat): (j: nat)
    requires i <= |s|
    ensures i <= j <= |s|
    ensures forall k :: i <= k < j ==> ContinuesName(s[k])
    ensures j < |s| ==> !ContinuesName(s[j])
    decreases |s| - i
  {
    if i < |s| && ContinuesName(s[i]) then NameRunEnd(s, i + 1) else i
  }

  /** Insert collects the name characters after a `:` up to the end of the run
      and records the whole name on the parameter node, either as the node
      that ends the pattern or before handling the character that ends the run. */
  lemma {:induction false} InsertCollectsName<T>(nodes: seq<Node<T>>, key: string, value: T, cur: nat, i: nat, name: string)
    requires Forward(nodes) && cur < |nodes| && i <= |key|
    ensures var j := NameRunEnd(key, i);
      var full := name + key[i..j];
      InsertWalk(nodes, key, value, cur, i, true, name) ==
        if j == |key| then SetNode(nodes, cur, Terminal(nodes[cur], value, true, full))
        else InsertStep(SetNode(nodes, cur, NamedParam(nodes[cur], full)), key, value, cur, j, full)
    decreases |key| - i
  {
    if i < |key| && ContinuesName(key[i]) {
      InsertCollectsName(nodes, key, value, cur, i + 1, name + [key[i]]);
      var j := NameRunEnd(key, i);
      assert name + [key[i]] + key[i + 1..j] == name + key[i..j];
    } else {
      assert name + key[i..i] == name;
    }
  }

  /** Search collects the value of an open parameter by the same rule: the
      capture ends where the run of name characters ends, and is recorded
      under the parameter's name. */
  lemma {:induction false} ScanCollectsValue<T>(nodes: seq<Node<T>>, key: string, cur: nat, i: nat, name: string,
                                                captured: string, params: map<string, string>)
    requires Forward(nodes) && cur < |nodes| && i <= |key|
    ensures var j := NameRunEnd(key, i);
      var full := captured + key[i..j];
      Scan(nodes, key, cur, i, true, name, captured, params) ==
        if j == |key| then Finish(nodes, key, cur, j, true, name, full, params)
        else Route(nodes, key, cur, j, name, full, params[name := full])
    decreases |key| - i
  {
    if i < |key| && ContinuesName(key[i]) {
      ScanCollectsValue(nodes, key, cur, i + 1, name, captured + [key[i]], params);
      var j := NameRunEnd(key, i);
      assert captured + [key[i]] + key[i + 1..j] == captured + key[i..j];
    } else {
      assert captured + key[i..i] == captured;
    }
  }

  // ---------------------------------------------------------------------------
  // Insert only writes at and after the node it stands on

  lemma {:induction false} InsertWalkFrame<T>(nodes: seq<Node<T>>, key: string, value: T, cur: nat, i: nat, seeking: bool, name: string)
    requires Forward(nodes) && cur < |nodes| && i <= |key|
    ensures var r := InsertWalk(nodes, key, value, cur, i, seeking, name);
      forall k :: 0 <= k < cur ==> r[k] == nodes[k]
    decreases |key| - i, 1
  {
    if i == |key| {
    } else if seeking && ContinuesName(key[i]) {
      InsertWalkFrame(nodes, key, value, cur, i + 1, true, name + [key[i]]);
    } else {
      var nodes' := if seeking then SetNode(nodes, cur, NamedParam(nodes[cur], name)) else nodes;
      InsertStepFrame(nodes', key, value, cur, i, name);
    }
  }

  lemma {:induction false} InsertStepFrame<T>(nodes: seq<Node<T>>, key: string, value: T, cur: nat, i: nat, name: string)
    requires Forward(nodes) && cur < |nodes| && i < |key|
    ensures var r := InsertStep(nodes, key, value, cur, i, name);
      forall k :: 0 <= k < cur ==> r[k] == nodes[k]
    decreases |key| - i, 0
  {
    var c := key[i];
    if c == ':' {
      var nodes' := WithParam(nodes, cur);
      assert EdgesForward(nodes'[cur], cur, |nodes'|);
      InsertWalkFrame(nodes', key, value, nodes'[cur].param.value, i + 1, true, "");
      forall k | 0 <= k < cur ensures nodes'[k] == nodes[k] {
        if nodes[cur].param.None? { assert nodes'[..|nodes|][k] == nodes'[k]; }
      }
    } else if c == '*' {
    } else {
      var nodes' := WithChild(nodes, cur, c);
      assert EdgesForward(nodes'[cur], cur, |nodes'|);
      InsertWalkFrame(nodes', key, value, nodes'[cur].children[c], i + 1, false, name);
      forall k | 0 <= k < cur ensures nodes'[k] == nodes[k] {
        if c !in nodes[cur].children { assert nodes'[..|nodes|][k] == nodes'[k]; }
      }
    }
  }

  // ---------------------------------------------------------------------------
  // Wildcard nodes stay empty, so the wildcard retry never matches

  /** A search started on a node that holds nothing fails, whatever capture
      is open. */
  lemma BlankSearchFails<T>(nodes: seq<Node<T>>, key: string, start: nat, index: nat, previous: Option<char>)
    requires Forward(nodes) && start < |nodes| && index <= |key| && nodes[start] == Blank()
    ensures SearchFrom(nodes, key, start, index, previous) == None
  {
    assert SearchFrom(nodes, key, start, index, previous) ==
      Scan(nodes, key, start, index, previous == Some(':') || previous == Some('*'), "", "", map[]);
    if previous == Some(':') || previous == Some('*') {
      ScanCollectsValue(nodes, key, start, index, "", "", map[]);
      var j := NameRunEnd(key, index);
      if j < |key| {
        assert Route(nodes, key, start, j, "", key[index..j], map["" := key[index..j]]) == None;
      }
    } else if index < |key| {
      assert Route(nodes, key, start, index, "", "", map[]) == None;
    }
  }

  /** The retry through a wildcard edge at a branch point starts on the
      wildcard node itself, which is blank in every valid trie. */
  lemma WildcardRetryFails<T>(t: Tree<T>, key: string, cur: nat, index: nat)
    requires Valid(t) && cur < |t.nodes| && t.nodes[cur].wildcard.Some? && index <= |key|
    ensures SearchFrom(t.nodes, key, t.nodes[cur].wildcard.value, index, Some('*')) == None
  {
    BlankSearchFails(t.nodes, key, t.nodes[cur].wildcard.value, index, Some('*'));
  }

  /** At a branch point of a valid trie only the static subtree and the
      parameter edge can produce a match; the wildcard edge never does. */
  lemma BranchIgnoresWildcard<T>(t: Tree<T>, key: string, index: nat, params: map<string, string>, cur: nat, next: nat)
    requires Valid(t) && cur < |t.nodes| && next < |t.nodes| && index < |key|
    ensures DepthFirstSearch(t.nodes, key, index, params, cur, next) ==
      var viaStatic := SearchFrom(t.nodes, key, next, index + 1, None);
      if viaStatic.Some? then Some(Merge(viaStatic.value, params))
      else if t.nodes[cur].param.None? then None
      else
        var viaParam := SearchFrom(t.nodes, key, t.nodes[cur].param.value, index, Some(':'));
        if viaParam.Some? then Some(Merge(viaParam.value, params)) else None
  {
    assert EdgesForward(t.nodes[cur], cur, |t.nodes|);
    if t.nodes[cur].wildcard.Some? {
      WildcardRetryFails(t, key, cur, index);
    }
  }

  /** The retry through a parameter edge at a branch point opens the capture
      with nothing collected, so unlike a parameter entered from the walk it
      does not take the first character unconditionally: the capture is the
      run of name characters at `index`, and is empty when the character
      there does not continue a name. */
  lemma RetryCapturesNameRun<T>(nodes: seq<Node<T>>, key: string, start: nat, index: nat)
    requires Forward(nodes) && start < |nodes| && index <= |key|
    ensures var name := nodes[start].paramName.GetOr("");
      var j := NameRunEnd(key, index);
      SearchFrom(nodes, key, start, index, Some(':')) ==
        if j == |key| then Finish(nodes, key, start, j, true, name, key[index..j], map[])
        else Route(nodes, key, start, j, name, key[index..j], map[name := key[index..j]])
    ensures index < |key| && !ContinuesName(key[index]) ==>
      SearchFrom(nodes, key, start, index, Some(':')) ==
        Route(nodes, key, start, index, nodes[start].paramName.GetOr(""), "", map[nodes[start].paramName.GetOr("") := ""])
  {
    var name := nodes[start].paramName.GetOr("");
    ScanCollectsValue(nodes, key, start, index, name, "", map[]);
    var j := NameRunEnd(key, index);
    assert "" + key[index..j] == key[index..j];
  }

  // ---------------------------------------------------------------------------
  // A match returns a registered value

  /** Every value stored in the trie, in the static table or on a node, is in `vs`. */
  ghost predicate ValuesIn<T>(t: Tree<T>, vs: set<T>) {
    && (forall key :: key in t.statics ==> t.statics[key] in vs)
    && NodeValuesIn(t.nodes, vs)
  }

  ghost predicate NodeValuesIn<T>(nodes: seq<Node<T>>, vs: set<T>) {
    forall k :: 0 <= k < |nodes| && nodes[k].value.Some? ==> nodes[k].value.value in vs
  }

  /** A search result, when there is one, carries a value stored on some node. */
  ghost predicate FromSomeNode<T>(nodes: seq<Node<T>>, r: Option<Match<T>>) {
    r.Some? ==> r.value.value.Some? && exists k :: 0 <= k < |nodes| && nodes[k].value == r.value.value
  }

  lemma {:induction false} SearchFromFromNode<T>(nodes: seq<Node<T>>, key: string, start: nat, index: nat, previous: Option<char>)
    requires Forward(nodes) && TerminalsCarryValues(nodes) && start < |nodes| && index <= |key|
    ensures FromSomeNode(nodes, SearchFrom(nodes, key, start, index, previous))
    decreases |key| - index, |nodes| - start, 3
  {
    ScanFromNode(nodes, key, start, index, previous == Some(':') || previous == Some('*'),
                 nodes[start].paramName.GetOr(""), "", map[]);
  }

  lemma {:induction false} ScanFromNode<T>(nodes: seq<Node<T>>, key: string, cur: nat, i: nat, seeking: bool, name: string,
                                           captured: string, params: map<string, string>)
    requires Forward(nodes) && TerminalsCarryValues(nodes) && cur < |nodes| && i <= |key|
    ensures FromSomeNode(nodes, Scan(nodes, key, cur, i, seeking, name, captured, params))
    decreases |key| - i, |nodes| - cur, 2
  {
    if i == |key| {
      var r := Finish(nodes, key, cur, i, seeking, name, captured, params);
      if r.Some? { assert nodes[cur].value == r.value.value; }
    } else if seeking && ContinuesName(key[i]) {
      ScanFromNode(nodes, key, cur, i + 1, true, name, captured + [key[i]], params);
    } else {
      RouteFromNode(nodes, key, cur, i, name, captured, if seeking then params[name := captured] else params);
    }
  }

  lemma {:induction false} RouteFromNode<T>(nodes: seq<Node<T>>, key: string, cur: nat, i: nat, name: string,
                                            captured: string, params: map<string, string>)
    requires Forward(nodes) && TerminalsCarryValues(nodes) && cur < |nodes| && i < |key|
    ensures FromSomeNode(nodes, Route(nodes, key, cur, i, name, captured, params))
    decreases |key| - i, |nodes| - cur, 1
  {
    var node := nodes[cur];
    var c := key[i];
    assert EdgesForward(node, cur, |nodes|);
    if c in node.children && (node.param.Some? || node.wildcard.Some?) {
      DepthFirstSearchFromNode(nodes, key, i, params, cur, node.children[c]);
    } else if c in node.children {
      ScanFromNode(nodes, key, node.children[c], i + 1, false, name, captured, params);
    } else if node.param.Some? {
      ScanFromNode(nodes, key, node.param.value, i + 1, true, nodes[node.param.value].paramName.GetOr(""), [c], params);
    } else if node.wildcard.Some? {
      assert nodes[cur].value == Route(nodes, key, cur, i, name, captured, params).value.value;
    }
  }

  lemma {:induction false} DepthFirstSearchFromNode<T>(nodes: seq<Node<T>>, key: string, index: nat, params: map<string, string>,
                                                       cur: nat, next: nat)
    requires Forward(nodes) && TerminalsCarryValues(nodes) && cur < |nodes| && next < |nodes| && index < |key|
    ensures FromSomeNode(nodes, DepthFirstSearch(nodes, key, index, params, cur, next))
    decreases |key| - index, |nodes| - cur, 0
  {
    assert EdgesForward(nodes[cur], cur, |nodes|);
    SearchFromFromNode(nodes, key, next, index + 1, None);
    if nodes[cur].param.Some? {
      SearchFromFromNode(nodes, key, nodes[cur].param.value, index, Some(':'));
    }
    if nodes[cur].wildcard.Some? {
      SearchFromFromNode(nodes, key, nodes[cur].wildcard.value, index, Some('*'));
    }
  }

  /** In a valid trie a match always carries a value, taken from the static
      table or from a node of the tree. */
  lemma SearchFindsStoredValue<T>(t: Tree<T>, key: string)
    requires Valid(t)
    ensures var r := Search(t, key);
      r.Some? ==>
        && r.value.value.Some?
        && ((key in t.statics && r.value.value == Some(t.statics[key])) ||
            (exists k :: 0 <= k < |t.nodes| && t.nodes[k].value == r.value.value))
  {
    if key !in t.statics && |key| > 0 && key[0] in t.dispatch {
      SearchFromFromNode(t.nodes, key, t.dispatch[key[0]], 1, None);
    }
  }

  lemma {:induction false} InsertWalkValues<T>(nodes: seq<Node<T>>, key: string, value: T, cur: nat, i: nat,
                                               seeking: bool, name: string, vs: set<T>)
    requires Forward(nodes) && cur < |nodes| && i <= |key| && NodeValuesIn(nodes, vs) && value in vs
    ensures NodeValuesIn(InsertWalk(nodes, key, value, cur, i, seeking, name), vs)
    decreases |key| - i, 1
  {
    if i == |key| {
    } else if seeking && ContinuesName(key[i]) {
      InsertWalkValues(nodes, key, value, cur, i + 1, true, name + [key[i]], vs);
    } else {
      var nodes' := if seeking then SetNode(nodes, cur, NamedParam(nodes[cur], name)) else nodes;
      InsertStepValues(nodes', key, value, cur, i, name, vs);
    }
  }

  lemma {:induction false} InsertStepValues<T>(nodes: seq<Node<T>>, key: string, value: T, cur: nat, i: nat,
                                               name: string, vs: set<T>)
    requires Forward(nodes) && cur < |nodes| && i < |key| && NodeValuesIn(nodes, vs) && value in vs
    ensures NodeValuesIn(InsertStep(nodes, key, value, cur, i, name), vs)
    decreases |key| - i, 0
  {
    var c := key[i];
    if c == ':' {
      var nodes' := WithParam(nodes, cur);
      forall k | 0 <= k < |nodes'| && nodes'[k].value.Some? ensures nodes'[k].value.value in vs {
        if nodes[cur].param.None? && k < |nodes| { assert nodes'[..|nodes|][k] == nodes'[k]; }
      }
      InsertWalkValues(nodes', key, value, nodes'[cur].param.value, i + 1, true, "", vs);
    } else if c == '*' {
      var nodes' := SetNode(nodes, cur, WildcardOwner(nodes[cur], value));
      var r := WithWildcard(nodes', cur);
      forall k | 0 <= k < |r| && r[k].value.Some? ensures r[k].value.value in vs {
        if nodes'[cur].wildcard.None? && k < |nodes'| { assert r[..|nodes'|][k] == r[k]; }
      }
    } else {
      var nodes' := WithChild(nodes, cur, c);
      forall k | 0 <= k < |nodes'| && nodes'[k].value.Some? ensures nodes'[k].value.value in vs {
        if c !in nodes[cur].children && k < |nodes| { assert nodes'[..|nodes|][k] == nodes'[k]; }
      }
      InsertWalkValues(nodes', key, value, nodes'[cur].children[c], i + 1, false, name, vs);
    }
  }

  /** Insert stores no value other than the one it registers. */
  lemma InsertValues<T>(t: Tree<T>, key: string, value: T, vs: set<T>)
    requires Valid(t) && ValuesIn(t, vs) && value in vs
    ensures ValuesIn(Insert(t, key, value), vs)
  {
    if HasSpecialCharacter(key) {
      var c := key[0];
      var nodes := if c in t.dispatch then t.nodes else t.nodes + [Blank()];
      assert NodeValuesIn(nodes, vs);
      assert Forward(nodes) by {
        forall k | 0 <= k < |t.nodes| ensures EdgesForward(nodes[k], k, |nodes|) {
          assert EdgesForward(t.nodes[k], k, |t.nodes|);
        }
      }
      InsertWalkValues(nodes, key, value, if c in t.dispatch then t.dispatch[c] else |t.nodes|, 1, false, "", vs);
    }
  }

  /** The values of a list of routes. */
  ghost function RouteValues<T>(routes: seq<(string, T)>): set<T> {
    set j | 0 <= j < |routes| :: routes[j].1
  }

  lemma {:induction false} RegisteredValuesIn<T>(routes: seq<(string, T)>)
    ensures ValuesIn(Registered(routes), RouteValues(routes))
    decreases |routes|
  {
    if |routes| > 0 {
      var prefix := routes[..|routes| - 1];
      var route := routes[|routes| - 1];
      RegisteredValuesIn(prefix);
      assert RouteValues(prefix) <= RouteValues(routes) by {
        forall x | x in RouteValues(prefix) ensures x in RouteValues(routes) {
          var j :| 0 <= j < |prefix| && prefix[j].1 == x;
          assert routes[j].1 == x;
        }
      }
      assert route.1 == routes[|routes| - 1].1;
      InsertValues(Registered(prefix), route.0, route.1, RouteValues(routes));
    }
  }

  /** Every match in a trie built from `routes` carries the value of one of
      those routes. */
  lemma SearchReturnsRegisteredValue<T>(routes: seq<(string, T)>, key: string)
    ensures var r := Search(Registered(routes), key);
      r.Some? ==> exists j :: 0 <= j < |routes| && r.value.value == Some(routes[j].1)
  {
    var t := Registered(routes);
    RegisteredValuesIn(routes);
    SearchFindsStoredValue(t, key);
  }

  // ---------------------------------------------------------------------------
  // Static patterns, and registering a pattern again

  /** A pattern without `:` or `*` is found again exactly, with no parameters. */
  lemma StaticRoundTrip<T>(t: Tree<T>, key: string, value: T)
    requires Valid(t) && !HasSpecialCharacter(key)
    ensures Search(Insert(t, key, value), key) == Some(Match(Some(value), map[]))
  {
  }

  /** Registering a plain pattern changes the answer for that exact path only. */
  lemma StaticInsertIsLocal<T>(t: Tree<T>, key: string, value: T, other: string)
    requires Valid(t) && !HasSpecialCharacter(key) && other != key
    ensures Search(Insert(t, key, value), other) == Search(t, other)
  {
  }

  /** A plain and a special pattern touch disjoint parts of the trie, so the
      order in which they are registered does not matter. */
  lemma InsertsCommute<T>(t: Tree<T>, plain: string, a: T, special: string, b: T)
    requires Valid(t) && !HasSpecialCharacter(plain) && HasSpecialCharacter(special)
    ensures Insert(Insert(t, plain, a), special, b) == Insert(Insert(t, special, b), plain, a)
  {
    var s := Insert(t, plain, a);
    assert s.nodes == t.nodes && s.dispatch == t.dispatch;
  }

  /** Registering a special pattern leaves the static table alone, keeps every
      node and edge of the tree, and adds at most the dispatch entry for its
      first character. */
  lemma SpecialInsertExtendsTree<T>(t: Tree<T>, key: string, value: T)
    requires Valid(t) && HasSpecialCharacter(key)
    ensures var r := Insert(t, key, value);
      && r.statics == t.statics
      && Extends(t.nodes, r.nodes)
      && r.dispatch.Keys == t.dispatch.Keys + {key[0]}
      && (forall c :: c in t.dispatch ==> r.dispatch[c] == t.dispatch[c])
  {
    InsertValid(t, key, value);
  }

  lemma {:induction false} ReinsertWalk<T>(nodes: seq<Node<T>>, key: string, v1: T, v2: T, cur: nat, i: nat, seeking: bool, name: string)
    requires Forward(nodes) && cur < |nodes| && i <= |key|
    ensures InsertWalk(InsertWalk(nodes, key, v1, cur, i, seeking, name), key, v2, cur, i, seeking, name)
         == InsertWalk(nodes, key, v2, cur, i, seeking, name)
    decreases |key| - i, 1
  {
    var r1 := InsertWalk(nodes, key, v1, cur, i, seeking, name);
    if i == |key| {
      assert r1 == nodes[cur := Terminal(nodes[cur], v1, seeking, name)];
    } else if seeking && ContinuesName(key[i]) {
      ReinsertWalk(nodes, key, v1, v2, cur, i + 1, true, name + [key[i]]);
    } else {
      var nodes' := if seeking then SetNode(nodes, cur, NamedParam(nodes[cur], name)) else nodes;
      assert r1 == InsertStep(nodes', key, v1, cur, i, name);
      var p := if seeking then Some(name) else r1[cur].paramName;
      if seeking && key[i] != '*' {
        InsertStepKeepsName(nodes', key, v1, cur, i, name);
      }
      ReinsertStep(nodes', key, v1, v2, cur, i, name, p);
      var r1' := SetNode(r1, cur, r1[cur].(paramName := p));
      assert InsertWalk(r1, key, v2, cur, i, seeking, name) == InsertStep(r1', key, v2, cur, i, name) by {
        if !seeking { assert r1' == r1; }
      }
    }
  }

  /** Away from a `*`, the step leaves the name recorded on the node it stands on. */
  lemma InsertStepKeepsName<T>(nodes: seq<Node<T>>, key: string, value: T, cur: nat, i: nat, name: string)
    requires Forward(nodes) && cur < |nodes| && i < |key| && key[i] != '*'
    ensures InsertStep(nodes, key, value, cur, i, name)[cur].paramName == nodes[cur].paramName
  {
    var c := key[i];
    if c == ':' {
      var nodes' := WithParam(nodes, cur);
      assert EdgesForward(nodes'[cur], cur, |nodes'|);
      InsertWalkFrame(nodes', key, value, nodes'[cur].param.value, i + 1, true, "");
    } else {
      var nodes' := WithChild(nodes, cur, c);
      assert EdgesForward(nodes'[cur], cur, |nodes'|);
      InsertWalkFrame(nodes', key, value, nodes'[cur].children[c], i + 1, false, name);
    }
  }

  lemma {:induction false} ReinsertStep<T>(nodes: seq<Node<T>>, key: string, v1: T, v2: T, cur: nat, i: nat, name: string,
                                           p: Option<string>)
    requires Forward(nodes) && cur < |nodes| && i < |key|
    requires key[i] == '*' || p == InsertStep(nodes, key, v1, cur, i, name)[cur].paramName
    ensures var r1 := InsertStep(nodes, key, v1, cur, i, name);
      InsertStep(SetNode(r1, cur, r1[cur].(paramName := p)), key, v2, cur, i, name)
        == InsertStep(nodes, key, v2, cur, i, name)
    decreases |key| - i, 0
  {
    var r1 := InsertStep(nodes, key, v1, cur, i, name);
    var y := SetNode(r1, cur, r1[cur].(paramName := p));
    var c := key[i];
    if c == ':' {
      var w := WithParam(nodes, cur);
      assert EdgesForward(w[cur], cur, |w|);
      var next := w[cur].param.value;
      InsertWalkFrame(w, key, v1, next, i + 1, true, "");
      assert y == r1;
      ReinsertWalk(w, key, v1, v2, next, i + 1, true, "");
    } else if c == '*' {
      var n1 := SetNode(nodes, cur, WildcardOwner(nodes[cur], v1));
      var n2 := SetNode(nodes, cur, WildcardOwner(nodes[cur], v2));
      var z := SetNode(y, cur, WildcardOwner(y[cur], v2));
      if nodes[cur].wildcard.Some? {
        assert z == n2;
      } else {
        assert z == n2[cur := n2[cur].(wildcard := Some(|nodes|))] + [Blank()];
      }
    } else {
      var w := WithChild(nodes, cur, c);
      assert EdgesForward(w[cur], cur, |w|);
      var next := w[cur].children[c];
      InsertWalkFrame(w, key, v1, next, i + 1, false, name);
      assert y == r1;
      ReinsertWalk(w, key, v1, v2, next, i + 1, false, name);
    }
  }

  /** Registering a pattern a second time replaces its value and changes
      nothing else: the table entry or the tree nodes of the first
      registration are reused. */
  lemma ReinsertReplacesValue<T>(t: Tree<T>, key: string, v1: T, v2: T)
    requires Valid(t)
    ensures Insert(Insert(t, key, v1), key, v2) == Insert(t, key, v2)
  {
    InsertValid(t, key, v1);
    if HasSpecialCharacter(key) {
      var c := key[0];
      var start := if c in t.dispatch then t.dispatch[c] else |t.nodes|;
      var nodes := if c in t.dispatch then t.nodes else t.nodes + [Blank()];
      assert Forward(nodes) by {
        forall k | 0 <= k < |t.nodes| ensures EdgesForward(nodes[k], k, |nodes|) {
          assert EdgesForward(t.nodes[k], k, |t.nodes|);
        }
      }
      ReinsertWalk(nodes, key, v1, v2, start, 1, false, "");
    }
  }

  // ---------------------------------------------------------------------------
  // Round trips through a trie holding a single special pattern

  /** From a blank node, the rest of a pattern `...*` is laid out as a fresh
      chain, and a path that spells the same characters reaches the node
      before the `*` and captures everything after it. */
  lemma {:induction false} FreshWildcardChain<T>(nodes: seq<Node<T>>, key: string, value: T, cur: nat, i: nat,
                                                 query: string, name: string, captured: string)
    requires Forward(nodes) && cur < |nodes| && nodes[cur] == Blank()
    requires 1 <= i < |key| && key[|key| - 1] == '*'
    requires forall k :: i <= k < |key| - 1 ==> key[k] != ':' && key[k] != '*'
    requires |key| - 1 <= |query| && query[i..|key| - 1] == key[i..|key| - 1]
    ensures Scan(InsertWalk(nodes, key, value, cur, i, false, ""), query, cur, i, false, name, captured, map[])
         == Some(Match(Some(value), map[WildcardKey := query[|key| - 1..]]))
    decreases |key| - i
  {
    var r := InsertWalk(nodes, key, value, cur, i, false, "");
    assert r == InsertStep(nodes, key, value, cur, i, "");
    if i == |key| - 1 {
      assert r == WithWildcard(SetNode(nodes, cur, WildcardOwner(nodes[cur], value)), cur);
      if i < |query| {
        assert Scan(r, query, cur, i, false, name, captured, map[]) == Route(r, query, cur, i, name, captured, map[]);
      }
    } else {
      var c := key[i];
      assert query[i] == c by { assert query[i..|key| - 1][0] == key[i..|key| - 1][0]; }
      var w := WithChild(nodes, cur, c);
      assert c != ':' && c != '*';
      assert w[cur].children[c] == |nodes|;
      assert r == InsertWalk(w, key, value, |nodes|, i + 1, false, "");
      InsertWalkFrame(w, key, value, |nodes|, i + 1, false, "");
      assert r[cur] == w[cur];
      assert query[i + 1..|key| - 1] == key[i + 1..|key| - 1] by {
        assert query[i + 1..|key| - 1] == query[i..|key| - 1][1..];
        assert key[i + 1..|key| - 1] == key[i..|key| - 1][1..];
      }
      FreshWildcardChain(w, key, value, |nodes|, i + 1, query, name, captured);
      assert Scan(r, query, cur, i, false, name, captured, map[]) == Route(r, query, cur, i, name, captured, map[]);
    }
  }

  /** In a trie holding only `prefix*`, every path that starts with `prefix`
      matches, and the wildcard captures the rest of the path, possibly empty.
      The first character of the pattern is never examined, so it may itself
      be a `:` or a `*`. */
  lemma WildcardRoundTrip<T>(prefix: string, rest: string, value: T)
    requires |prefix| >= 1 && forall k :: 1 <= k < |prefix| ==> prefix[k] != ':' && prefix[k] != '*'
    ensures Search(Insert(Empty(), prefix + "*", value), prefix + rest) == Some(Match(Some(value), map[WildcardKey := rest]))
  {
    var key := prefix + "*";
    var query := prefix + rest;
    assert key[|key| - 1] == '*' && '*' in key;
    var nodes: seq<Node<T>> := [Blank()];
    var r := InsertWalk(nodes, key, value, 0, 1, false, "");
    assert HasSpecialCharacter(key) && Empty<T>().nodes + [Blank()] == nodes;
    assert Insert(Empty(), key, value) == Tree(r, map[], map[key[0] := 0]);
    assert query[1..|key| - 1] == key[1..|key| - 1];
    assert query[0] == key[0];
    FreshWildcardChain(nodes, key, value, 0, 1, query, r[0].paramName.GetOr(""), "");
    assert query[|key| - 1..] == rest;
  }

  /** From a blank node, the rest of a pattern `...:name` is laid out as a
      fresh chain ending in a parameter node. A path that spells the same
      characters up to the `:` at position `m` then opens a capture that takes
      the next character unconditionally and then a run of name characters; it
      matches exactly when that run reaches the end of the path. */
  lemma {:induction false} FreshParamChain<T>(nodes: seq<Node<T>>, key: string, value: T, cur: nat, i: nat, m: nat,
                                              query: string, name: string, captured: string)
    requires Forward(nodes) && cur < |nodes| && nodes[cur] == Blank()
    requires 1 <= i <= m < |key| && key[m] == ':'
    requires forall k :: i <= k < m ==> key[k] != ':' && key[k] != '*'
    requires forall k :: m < k < |key| ==> ContinuesName(key[k])
    requires m < |query| && query[i..m] == key[i..m]
    ensures var j := NameRunEnd(query, m + 1);
      Scan(InsertWalk(nodes, key, value, cur, i, false, ""), query, cur, i, false, name, captured, map[])
        == if j == |query| then Some(Match(Some(value), map[key[m + 1..] := query[m..]])) else None
    decreases m - i
  {
    var r := InsertWalk(nodes, key, value, cur, i, false, "");
    assert r == InsertStep(nodes, key, value, cur, i, "");
    if i == m {
      var w := WithParam(nodes, cur);
      var p := |nodes|;
      assert r == InsertWalk(w, key, value, p, m + 1, true, "");
      InsertCollectsName(w, key, value, p, m + 1, "");
      assert NameRunEnd(key, m + 1) == |key|;
      assert "" + key[m + 1..|key|] == key[m + 1..];
      var r' := SetNode(w, p, Terminal(w[p], value, true, key[m + 1..]));
      assert r == r';
      assert cur < p && r'[cur] == w[cur];
      assert Scan(r, query, cur, i, false, name, captured, map[]) == Route(r, query, cur, i, name, captured, map[]);
      assert Route(r, query, cur, i, name, captured, map[])
          == Scan(r, query, p, m + 1, true, key[m + 1..], [query[m]], map[]);
      ScanCollectsValue(r, query, p, m + 1, key[m + 1..], [query[m]], map[]);
      var j := NameRunEnd(query, m + 1);
      assert [query[m]] + query[m + 1..j] == query[m..j];
      if j < |query| {
        assert Route(r, query, p, j, key[m + 1..], query[m..j], map[key[m + 1..] := query[m..j]]) == None;
      } else {
        assert r[p] == Terminal(Blank(), value, true, key[m + 1..]);
        assert query[m..j] == query[m..];
        assert Finish(r, query, p, j, true, key[m + 1..], query[m..j], map[])
            == Some(Match(Some(value), map[key[m + 1..] := query[m..]]));
      }
    } else {
      var c := key[i];
      assert query[i] == c by { assert query[i..m][0] == key[i..m][0]; }
      var w := WithChild(nodes, cur, c);
      assert c != ':' && c != '*';
      assert w[cur].children[c] == |nodes|;
      assert r == InsertWalk(w, key, value, |nodes|, i + 1, false, "");
      InsertWalkFrame(w, key, value, |nodes|, i + 1, false, "");
      assert r[cur] == w[cur];
      assert query[i + 1..m] == key[i + 1..m] by {
        assert query[i + 1..m] == query[i..m][1..];
        assert key[i + 1..m] == key[i..m][1..];
      }
      FreshParamChain(w, key, value, |nodes|, i + 1, m, query, name, captured);
      assert Scan(r, query, cur, i, false, name, captured, map[]) == Route(r, query, cur, i, name, captured, map[]);
    }
  }

  /** In a trie holding only `prefix:name`, a path `prefix` + `arg` matches and
      binds `name` to `arg` when every character of `arg` after the first
      continues a name. The first character is taken unconditionally, and
      `name` may be empty. */
  lemma ParamRoundTrip<T>(prefix: string, name: string, arg: string, value: T)
    requires |prefix| >= 1 && forall k :: 1 <= k < |prefix| ==> prefix[k] != ':' && prefix[k] != '*'
    requires forall k :: 0 <= k < |name| ==> ContinuesName(name[k])
    requires |arg| >= 1 && forall k :: 1 <= k < |arg| ==> ContinuesName(arg[k])
    ensures Search(Insert(Empty(), prefix + ":" + name, value), prefix + arg) == Some(Match(Some(value), map[name := arg]))
  {
    ParamSearch(prefix, name, arg, value);
  }

  /** ... and a path that continues past the argument with a character that
      does not continue a name, such as `/`, is not found: there is no prefix
      match. */
  lemma ParamRejectsLongerPath<T>(prefix: string, name: string, arg: string, tail: string, value: T)
    requires |prefix| >= 1 && forall k :: 1 <= k < |prefix| ==> prefix[k] != ':' && prefix[k] != '*'
    requires forall k :: 0 <= k < |name| ==> ContinuesName(name[k])
    requires |arg| >= 1 && forall k :: 1 <= k < |arg| ==> ContinuesName(arg[k])
    requires |tail| >= 1 && !ContinuesName(tail[0])
    ensures Search(Insert(Empty(), prefix + ":" + name, value), prefix + arg + tail) == None
  {
    ParamSearch(prefix, name, arg + tail, value);
    var query := prefix + arg + tail;
    assert query == prefix + (arg + tail);
    var j := NameRunEnd(query, |prefix| + 1);
    var e := |prefix| + |arg|;
    assert !ContinuesName(query[e]) by { assert query[e] == tail[0]; }
    assert j <= e;
  }

  /** The search through a trie holding only `prefix:name`, for a path that
      begins with `prefix` and has at least one more character. */
  lemma ParamSearch<T>(prefix: string, name: string, arg: string, value: T)
    requires |prefix| >= 1 && forall k :: 1 <= k < |prefix| ==> prefix[k] != ':' && prefix[k] != '*'
    requires forall k :: 0 <= k < |name| ==> ContinuesName(name[k])
    requires |arg| >= 1
    ensures var query := prefix + arg;
      var j := NameRunEnd(query, |prefix| + 1);
      Search(Insert(Empty(), prefix + ":" + name, value), query)
        == if j == |query| then Some(Match(Some(value), map[name := arg])) else None
  {
    var key := prefix + ":" + name;
    var query := prefix + arg;
    var m := |prefix|;
    assert key[m] == ':' && ':' in key;
    var nodes: seq<Node<T>> := [Blank()];
    var r := InsertWalk(nodes, key, value, 0, 1, false, "");
    assert HasSpecialCharacter(key) && Empty<T>().nodes + [Blank()] == nodes;
    assert Insert(Empty(), key, value) == Tree(r, map[], map[key[0] := 0]);
    assert query[1..m] == key[1..m];
    assert query[0] == key[0];
    forall k | m < k < |key| ensures ContinuesName(key[k]) { assert key[k] == name[k - m - 1]; }
    FreshParamChain(nodes, key, value, 0, 1, m, query, r[0].paramName.GetOr(""), "");
    assert key[m + 1..] == name;
    assert query[m..] == arg;
  }

  /** From a blank node, a path that leaves the static part of a freshly laid
      out pattern, by a different character at position `d` or by ending at
      `d`, before its first special character at position `m`, is not found.
      A path that ends exactly at a `:` is not found either. */
  lemma {:induction false} FreshChainMiss<T>(nodes: seq<Node<T>>, key: string, value: T, cur: nat, i: nat, m: nat, d: nat,
                                             query: string, name: string, captured: string)
    requires Forward(nodes) && cur < |nodes| && nodes[cur] == Blank()
    requires 1 <= i <= d <= m < |key| && (key[m] == ':' || key[m] == '*')
    requires forall k :: i <= k < m ==> key[k] != ':' && key[k] != '*'
    requires d <= |query| && query[i..d] == key[i..d]
    requires (d < m && (d == |query| || query[d] != key[d])) || (d == m == |query| && key[m] == ':')
    ensures Scan(InsertWalk(nodes, key, value, cur, i, false, ""), query, cur, i, false, name, captured, map[]) == None
    decreases d - i
  {
    var r := InsertWalk(nodes, key, value, cur, i, false, "");
    if i == d && d == m {
      assert r == InsertStep(nodes, key, value, cur, i, "");
      var w := WithParam(nodes, cur);
      assert r == InsertWalk(w, key, value, |nodes|, m + 1, true, "");
      InsertWalkFrame(w, key, value, |nodes|, m + 1, true, "");
      assert r[cur] == w[cur];
    } else {
      FreshStaticStep(nodes, key, value, cur, i);
      if i == d {
        if d < |query| {
          assert Scan(r, query, cur, i, false, name, captured, map[]) == Route(r, query, cur, i, name, captured, map[]);
        }
      } else {
        assert query[i] == key[i] by { assert query[i..d][0] == key[i..d][0]; }
        var w := WithChild(nodes, cur, key[i]);
        assert query[i + 1..d] == key[i + 1..d] by {
          assert query[i + 1..d] == query[i..d][1..];
          assert key[i + 1..d] == key[i..d][1..];
        }
        FreshChainMiss(w, key, value, |nodes|, i + 1, m, d, query, name, captured);
        assert Scan(r, query, cur, i, false, name, captured, map[]) == Route(r, query, cur, i, name, captured, map[]);
      }
    }
  }

  /** A plain character walked from a blank node gives it exactly one static
      child, a new blank node that the rest of the walk starts from. */
  lemma FreshStaticStep<T>(nodes: seq<Node<T>>, key: string, value: T, cur: nat, i: nat)
    requires Forward(nodes) && cur < |nodes| && nodes[cur] == Blank()
    requires 1 <= i < |key| && key[i] != ':' && key[i] != '*'
    ensures var w := WithChild(nodes, cur, key[i]);
      var r := InsertWalk(nodes, key, value, cur, i, false, "");
      && |w| == |nodes| + 1 && w[|nodes|] == Blank()
      && r == InsertWalk(w, key, value, |nodes|, i + 1, false, "")
      && r[cur] == Blank().(children := map[key[i] := |nodes|])
  {
    var r := InsertWalk(nodes, key, value, cur, i, false, "");
    assert r == InsertStep(nodes, key, value, cur, i, "");
    var w := WithChild(nodes, cur, key[i]);
    assert w[cur].children[key[i]] == |nodes|;
    assert r == InsertWalk(w, key, value, |nodes|, i + 1, false, "");
    InsertWalkFrame(w, key, value, |nodes|, i + 1, false, "");
    assert r[cur] == w[cur];
  }

  /** The first position where `query` departs from `prefix`, or the end of the shorter one. */
  function CommonPrefixLength(prefix: string, query: string): (d: nat)
    ensures d <= |prefix| && d <= |query|
    ensures query[..d] == prefix[..d]
    ensures d < |prefix| && d < |query| ==> query[d] != prefix[d]
    ensures d == |prefix| <==> prefix <= query
    ensures 0 < |prefix| && 0 < |query| && query[0] == prefix[0] ==> d >= 1
  {
    if |prefix| == 0 || |query| == 0 || query[0] != prefix[0] then 0
    else
      var d := 1 + CommonPrefixLength(prefix[1..], query[1..]);
      assert query[..d] == [query[0]] + query[1..][..d - 1];
      assert prefix[..d] == [prefix[0]] + prefix[1..][..d - 1];
      assert d == |prefix| ==> prefix == [prefix[0]] + prefix[1..];
      d
  }

  /** In a trie holding only `prefix` followed by `:` or `*` and more,
      a path without `prefix` as its beginning is not found; with a `:`
      neither is `prefix` on its own. */
  lemma FreshPathMiss<T>(prefix: string, special: char, tail: string, value: T, query: string)
    requires |prefix| >= 1 && forall k :: 1 <= k < |prefix| ==> prefix[k] != ':' && prefix[k] != '*'
    requires special == ':' || special == '*'
    requires !(prefix <= query) || (special == ':' && query == prefix)
    ensures Search(Insert(Empty(), prefix + [special] + tail, value), query) == None
  {
    var key := prefix + [special] + tail;
    var m := |prefix|;
    assert key[m] == special && special in key;
    var d := CommonPrefixLength(prefix, query);
    if |query| == 0 || query[0] != key[0] {
    } else {
      var nodes: seq<Node<T>> := [Blank()];
      var r := InsertWalk(nodes, key, value, 0, 1, false, "");
      assert HasSpecialCharacter(key) && Empty<T>().nodes + [Blank()] == nodes;
      assert Insert(Empty(), key, value) == Tree(r, map[], map[key[0] := 0]);
      assert query[1..d] == key[1..d] by {
        assert query[1..d] == query[..d][1..];
        assert key[1..d] == prefix[..d][1..];
      }
      if d < m && d < |query| { assert query[d] != key[d]; }
      FreshChainMiss(nodes, key, value, 0, 1, m, d, query, r[0].paramName.GetOr(""), "");
    }
  }
}
