/** Insert keeps the trie's structural invariant and only ever adds to the
    tree: no node is removed and no existing edge is redirected. */
module TrieValid {
  import opened Wrappers
  import opened TrieSpec

  /** Node `b` keeps every edge of node `a`. */
  ghost predicate NodeGrows<T>(a: Node<T>, b: Node<T>) {
    && (forall c :: c in a.children ==> c in b.children && b.children[c] == a.children[c])
    && (a.param.Some? ==> b.param == a.param)
    && (a.wildcard.Some? ==> b.wildcard == a.wildcard)
  }

  /** `b` is `a` with nodes appended and edges added, never removed. */
  ghost predicate Extends<T>(a: seq<Node<T>>, b: seq<Node<T>>) {
    |a| <= |b| && forall k :: 0 <= k < |a| ==> NodeGrows(a[k], b[k])
  }

  lemma ExtendsTransitive<T>(a: seq<Node<T>>, b: seq<Node<T>>, c: seq<Node<T>>)
    requires Extends(a, b) && Extends(b, c)
    ensures Extends(a, c)
  {
    forall k | 0 <= k < |a| ensures NodeGrows(a[k], c[k]) {
      assert NodeGrows(a[k], b[k]) && NodeGrows(b[k], c[k]);
    }
  }

  /** Two arenas of one length whose wildcard edges agree have the same wildcard targets. */
  lemma SameWildcardTargets<T>(a: seq<Node<T>>, b: seq<Node<T>>, k: nat)
    requires |a| == |b| && forall m :: 0 <= m < |a| ==> a[m].wildcard == b[m].wildcard
    ensures NotWildcardTarget(a, k) <==> NotWildcardTarget(b, k)
  {
    if NotWildcardTarget(a, k) {
      forall m | 0 <= m < |b| ensures b[m].wildcard != Some(k) { assert a[m].wildcard != Some(k); }
    }
    if NotWildcardTarget(b, k) {
      forall m | 0 <= m < |a| ensures a[m].wildcard != Some(k) { assert b[m].wildcard != Some(k); }
    }
  }

  /** Appending a node without a wildcard edge keeps the old nodes' status and makes
      the new index a non-target, since every existing edge points below it. */
  lemma AppendedWildcardTargets<T>(a: seq<Node<T>>, b: seq<Node<T>>, k: nat)
    requires Forward(a) && |b| == |a| + 1 && b[|a|].wildcard.None?
    requires forall m :: 0 <= m < |a| ==> a[m].wildcard == b[m].wildcard
    ensures NotWildcardTarget(a, k) ==> NotWildcardTarget(b, k)
    ensures NotWildcardTarget(b, |a|)
  {
    if NotWildcardTarget(a, k) {
      forall m | 0 <= m < |b| ensures b[m].wildcard != Some(k) {
        if m < |a| { assert a[m].wildcard != Some(k); }
      }
    }
    forall m | 0 <= m < |b| ensures b[m].wildcard != Some(|a|) {
      if m < |a| { assert EdgesForward(a[m], m, |a|); }
    }
  }

  /** Rewriting the fields of a node that is not a wildcard node keeps the invariant. */
  lemma SetNodeValid<T>(t: Tree<T>, cur: nat, n: Node<T>)
    requires Valid(t) && cur < |t.nodes| && NotWildcardTarget(t.nodes, cur)
    requires n.children == t.nodes[cur].children && n.param == t.nodes[cur].param && n.wildcard == t.nodes[cur].wildcard
    requires n.isWord || n.wildcard.Some? ==> n.value.Some?
    ensures var r := SetNode(t.nodes, cur, n);
      Valid(t.(nodes := r)) && NotWildcardTarget(r, cur) && Extends(t.nodes, r)
  {
    var r := SetNode(t.nodes, cur, n);
    var t' := t.(nodes := r);
    forall k ensures NotWildcardTarget(t.nodes, k) <==> NotWildcardTarget(r, k) {
      SameWildcardTargets(t.nodes, r, k);
    }
    assert WildcardsDetached(t') by {
      forall m | 0 <= m < |r| && r[m].wildcard.Some?
        ensures r[m].wildcard.value < |r| && r[r[m].wildcard.value] == Blank()
      {
        assert t.nodes[m].wildcard == r[m].wildcard;
      }
      forall m | 0 <= m < |r| ensures WalkEdgesDetached(r, r[m]) {
        assert WalkEdgesDetached(t.nodes, t.nodes[m]);
      }
    }
    forall k | 0 <= k < |t.nodes| ensures NodeGrows(t.nodes[k], r[k]) { }
  }

  /** Creating or reusing a static child keeps the invariant; the child is not a
      wildcard node. */
  lemma WithChildValid<T>(t: Tree<T>, cur: nat, c: char)
    requires Valid(t) && cur < |t.nodes| && NotWildcardTarget(t.nodes, cur)
    ensures var r := WithChild(t.nodes, cur, c);
      Valid(t.(nodes := r)) && NotWildcardTarget(r, r[cur].children[c]) && Extends(t.nodes, r)
  {
    var r := WithChild(t.nodes, cur, c);
    if c in t.nodes[cur].children {
      assert WalkEdgesDetached(t.nodes, t.nodes[cur]);
    } else {
      var size := |t.nodes|;
      assert forall m :: 0 <= m < size ==> t.nodes[m].wildcard == r[m].wildcard by {
        forall m | 0 <= m < size ensures t.nodes[m].wildcard == r[m].wildcard {
          assert r[..size][m] == r[m];
        }
      }
      forall k ensures NotWildcardTarget(t.nodes, k) ==> NotWildcardTarget(r, k) {
        AppendedWildcardTargets(t.nodes, r, k);
      }
      AppendedWildcardTargets(t.nodes, r, size);
      assert WildcardsDetached(t.(nodes := r)) by {
        forall m | 0 <= m < |r| && r[m].wildcard.Some?
          ensures r[m].wildcard.value < |r| && r[r[m].wildcard.value] == Blank()
        {
          assert m < size;
          assert t.nodes[m].wildcard == r[m].wildcard;
          assert EdgesForward(t.nodes[m], m, size);
          assert r[m].wildcard.value != cur;
          assert r[..size][r[m].wildcard.value] == r[r[m].wildcard.value];
        }
        forall m | 0 <= m < |r| ensures WalkEdgesDetached(r, r[m]) {
          if m < size {
            assert WalkEdgesDetached(t.nodes, t.nodes[m]);
            assert r[..size][m] == r[m];
          }
        }
      }
      assert TerminalsCarryValues(r) by {
        forall k | 0 <= k < |r| && (r[k].isWord || r[k].wildcard.Some?) ensures r[k].value.Some? {
          assert r[..size][k] == r[k];
        }
      }
      forall k | 0 <= k < size ensures NodeGrows(t.nodes[k], r[k]) {
        assert r[..size][k] == r[k];
      }
    }
  }

  /** Creating or reusing a parameter child keeps the invariant; the child is not
      a wildcard node. */
  lemma WithParamValid<T>(t: Tree<T>, cur: nat)
    requires Valid(t) && cur < |t.nodes| && NotWildcardTarget(t.nodes, cur)
    ensures var r := WithParam(t.nodes, cur);
      Valid(t.(nodes := r)) && NotWildcardTarget(r, r[cur].param.value) && Extends(t.nodes, r)
  {
    var r := WithParam(t.nodes, cur);
    if t.nodes[cur].param.Some? {
      assert WalkEdgesDetached(t.nodes, t.nodes[cur]);
    } else {
      var size := |t.nodes|;
      assert forall m :: 0 <= m < size ==> t.nodes[m].wildcard == r[m].wildcard by {
        forall m | 0 <= m < size ensures t.nodes[m].wildcard == r[m].wildcard {
          assert r[..size][m] == r[m];
        }
      }
      forall k ensures NotWildcardTarget(t.nodes, k) ==> NotWildcardTarget(r, k) {
        AppendedWildcardTargets(t.nodes, r, k);
      }
      AppendedWildcardTargets(t.nodes, r, size);
      assert WildcardsDetached(t.(nodes := r)) by {
        forall m | 0 <= m < |r| && r[m].wildcard.Some?
          ensures r[m].wildcard.value < |r| && r[r[m].wildcard.value] == Blank()
        {
          assert m < size;
          assert t.nodes[m].wildcard == r[m].wildcard;
          assert EdgesForward(t.nodes[m], m, size);
          assert r[m].wildcard.value != cur;
          assert r[..size][r[m].wildcard.value] == r[r[m].wildcard.value];
        }
        forall m | 0 <= m < |r| ensures WalkEdgesDetached(r, r[m]) {
          if m < size {
            assert WalkEdgesDetached(t.nodes, t.nodes[m]);
            assert r[..size][m] == r[m];
          }
        }
      }
      assert TerminalsCarryValues(r) by {
        forall k | 0 <= k < |r| && (r[k].isWord || r[k].wildcard.Some?) ensures r[k].value.Some? {
          assert r[..size][k] == r[k];
        }
      }
      forall k | 0 <= k < size ensures NodeGrows(t.nodes[k], r[k]) {
        assert r[..size][k] == r[k];
      }
    }
  }

  /** Creating or reusing the wildcard child of a node that carries a value keeps
      the invariant; the new wildcard node is blank and reachable only from `cur`. */
  lemma WithWildcardValid<T>(t: Tree<T>, cur: nat)
    requires Valid(t) && cur < |t.nodes| && NotWildcardTarget(t.nodes, cur) && t.nodes[cur].value.Some?
    ensures var r := WithWildcard(t.nodes, cur);
      Valid(t.(nodes := r)) && Extends(t.nodes, r)
  {
    var r := WithWildcard(t.nodes, cur);
    if t.nodes[cur].wildcard.None? {
      var size := |t.nodes|;
      assert forall m :: 0 <= m < size && m != cur ==> t.nodes[m] == r[m] by {
        forall m | 0 <= m < size && m != cur ensures t.nodes[m] == r[m] {
          assert r[..size][m] == r[m];
        }
      }
      // Every edge a walk can follow points below the new index.
      forall k: nat | NotWildcardTarget(t.nodes, k) && k < size ensures NotWildcardTarget(r, k) {
        forall m | 0 <= m < |r| ensures r[m].wildcard != Some(k) {
          if m < size && m != cur { assert t.nodes[m].wildcard != Some(k); }
        }
      }
      assert WildcardsDetached(t.(nodes := r)) by {
        forall m | 0 <= m < |r| && r[m].wildcard.Some?
          ensures r[m].wildcard.value < |r| && r[r[m].wildcard.value] == Blank()
        {
          if m != cur {
            assert m < size;
            assert t.nodes[m].wildcard == r[m].wildcard;
            assert EdgesForward(t.nodes[m], m, size);
            assert r[m].wildcard.value != cur;
          }
        }
        forall c | c in t.dispatch ensures NotWildcardTarget(r, t.dispatch[c]) {
          assert NotWildcardTarget(t.nodes, t.dispatch[c]);
        }
        forall m | 0 <= m < |r| ensures WalkEdgesDetached(r, r[m]) {
          if m < size {
            assert WalkEdgesDetached(t.nodes, t.nodes[m]);
            assert EdgesForward(t.nodes[m], m, size);
            assert r[m].children == t.nodes[m].children && r[m].param == t.nodes[m].param;
          }
        }
      }
      assert TerminalsCarryValues(r) by {
        forall k | 0 <= k < |r| && (r[k].isWord || r[k].wildcard.Some?) ensures r[k].value.Some? {
          if k < size && k != cur { assert t.nodes[k] == r[k]; }
        }
      }
      forall k | 0 <= k < size ensures NodeGrows(t.nodes[k], r[k]) {
        if k != cur { assert t.nodes[k] == r[k]; }
      }
    }
  }

  lemma {:induction false} InsertWalkValid<T>(nodes: seq<Node<T>>, statics: map<string, T>, dispatch: map<char, nat>,
                                               key: string, value: T, cur: nat, i: nat, seeking: bool, name: string)
    requires Valid(Tree(nodes, statics, dispatch)) && cur < |nodes| && i <= |key| && NotWildcardTarget(nodes, cur)
    ensures var r := InsertWalk(nodes, key, value, cur, i, seeking, name);
      Valid(Tree(r, statics, dispatch)) && Extends(nodes, r)
    decreases |key| - i, 2
  {
    var t := Tree(nodes, statics, dispatch);
    if i == |key| {
      SetNodeValid(t, cur, Terminal(nodes[cur], value, seeking, name));
    } else if seeking && ContinuesName(key[i]) {
      InsertWalkValid(nodes, statics, dispatch, key, value, cur, i + 1, true, name + [key[i]]);
    } else if seeking {
      NamedStepValid(nodes, statics, dispatch, key, value, cur, i, name);
    } else {
      InsertStepValid(nodes, statics, dispatch, key, value, cur, i, name);
    }
  }

  /** The step after a parameter name ends: the name is recorded on the node, then the walk goes on. */
  lemma {:induction false} NamedStepValid<T>(nodes: seq<Node<T>>, statics: map<string, T>, dispatch: map<char, nat>,
                                              key: string, value: T, cur: nat, i: nat, name: string)
    requires Valid(Tree(nodes, statics, dispatch)) && cur < |nodes| && i < |key| && NotWildcardTarget(nodes, cur)
    ensures var r := InsertStep(SetNode(nodes, cur, NamedParam(nodes[cur], name)), key, value, cur, i, name);
      Valid(Tree(r, statics, dispatch)) && Extends(nodes, r)
    decreases |key| - i, 1
  {
    var t := Tree(nodes, statics, dispatch);
    var n := NamedParam(nodes[cur], name);
    SetNodeValid(t, cur, n);
    var nodes' := SetNode(nodes, cur, n);
    InsertStepValid(nodes', statics, dispatch, key, value, cur, i, name);
    ExtendsTransitive(nodes, nodes', InsertStep(nodes', key, value, cur, i, name));
  }

  lemma {:induction false} InsertStepValid<T>(nodes: seq<Node<T>>, statics: map<string, T>, dispatch: map<char, nat>,
                                               key: string, value: T, cur: nat, i: nat, name: string)
    requires Valid(Tree(nodes, statics, dispatch)) && cur < |nodes| && i < |key| && NotWildcardTarget(nodes, cur)
    ensures var r := InsertStep(nodes, key, value, cur, i, name);
      Valid(Tree(r, statics, dispatch)) && Extends(nodes, r)
    decreases |key| - i, 0
  {
    var t := Tree(nodes, statics, dispatch);
    var c := key[i];
    if c == ':' {
      WithParamValid(t, cur);
      var nodes' := WithParam(nodes, cur);
      InsertWalkValid(nodes', statics, dispatch, key, value, nodes'[cur].param.value, i + 1, true, "");
      ExtendsTransitive(nodes, nodes', InsertWalk(nodes', key, value, nodes'[cur].param.value, i + 1, true, ""));
    } else if c == '*' {
      var n := WildcardOwner(nodes[cur], value);
      SetNodeValid(t, cur, n);
      var nodes' := SetNode(nodes, cur, n);
      WithWildcardValid(t.(nodes := nodes'), cur);
      ExtendsTransitive(nodes, nodes', WithWildcard(nodes', cur));
    } else {
      WithChildValid(t, cur, c);
      var nodes' := WithChild(nodes, cur, c);
      InsertWalkValid(nodes', statics, dispatch, key, value, nodes'[cur].children[c], i + 1, false, name);
      ExtendsTransitive(nodes, nodes', InsertWalk(nodes', key, value, nodes'[cur].children[c], i + 1, false, name));
    }
  }

  /** The empty trie satisfies Valid; with InsertValid, so does every trie
      built from it by Insert. */
  lemma EmptyValid<T>()
    ensures Valid(Empty<T>())
  {
  }

  /** Insert keeps the invariant, adds no node to the tree for a pattern without
      special characters, and otherwise only extends the tree. */
  lemma InsertValid<T>(t: Tree<T>, key: string, value: T)
    requires Valid(t)
    ensures Valid(Insert(t, key, value))
    ensures Extends(t.nodes, Insert(t, key, value).nodes)
  {
    if HasSpecialCharacter(key) {
      var c := key[0];
      if c in t.dispatch {
        InsertWalkValid(t.nodes, t.statics, t.dispatch, key, value, t.dispatch[c], 1, false, "");
        assert t.dispatch[c := t.dispatch[c]] == t.dispatch;
      } else {
        var size := |t.nodes|;
        var nodes := t.nodes + [Blank()];
        var t1 := Tree(nodes, t.statics, t.dispatch[c := size]);
        forall k ensures NotWildcardTarget(t.nodes, k) ==> NotWildcardTarget(nodes, k) {
          AppendedWildcardTargets(t.nodes, nodes, k);
        }
        AppendedWildcardTargets(t.nodes, nodes, size);
        assert Forward(nodes) by {
          forall k | 0 <= k < size ensures EdgesForward(nodes[k], k, |nodes|) {
            assert EdgesForward(t.nodes[k], k, size);
          }
        }
        assert WildcardsDetached(t1) by {
          forall m | 0 <= m < |nodes| && nodes[m].wildcard.Some?
            ensures nodes[m].wildcard.value < |nodes| && nodes[nodes[m].wildcard.value] == Blank()
          {
            assert m < size;
          }
          forall m | 0 <= m < |nodes| ensures WalkEdgesDetached(nodes, nodes[m]) {
            if m < size { assert WalkEdgesDetached(t.nodes, t.nodes[m]); }
          }
        }
        assert Valid(t1);
        InsertWalkValid(nodes, t.statics, t1.dispatch, key, value, size, 1, false, "");
        var r := InsertWalk(nodes, key, value, size, 1, false, "");
        assert Extends(t.nodes, nodes);
        ExtendsTransitive(t.nodes, nodes, r);
      }
    }
  }

  /** The trie after registering `routes` in order, starting from an empty
      trie: it always satisfies the invariant. */
  function Registered<T>(routes: seq<(string, T)>): (t: Tree<T>)
    ensures Valid(t)
    decreases |routes|
  {
    if |routes| == 0 then Empty()
    else
      var prev := Registered(routes[..|routes| - 1]);
      var route := routes[|routes| - 1];
      InsertValid(prev, route.0, route.1);
      Insert(prev, route.0, route.1)
  }
}
