/** The trie object: it owns the node arena and the two root tables, builds
    them in place with Insert, and answers queries with Search, which reads the
    tree and never writes it. Each method is proved to compute a TrieSpec
    function: InsertPath computes InsertWalk from position 1, and each of the
    others computes the function of the same name. TrieValid and
    TrieProperties establish the properties of those functions. */
module TrieImpl {
  import opened Wrappers
  import opened TrieSpec
  import TrieValid

  class Trie<T> {
    /** The node arena; edges are indices into it. */
    var nodes: seq<Node<T>>
    /** Patterns without `:` or `*`, by their full text. */
    var statics: map<string, T>
    /** First tree node of every special pattern, by its first character. */
    var dispatch: map<char, nat>

    /** The trie as a value. */
    function Model(): Tree<T>
      reads this
    {
      Tree(nodes, statics, dispatch)
    }

    ghost predicate Valid()
      reads this
    {
      TrieSpec.Valid(Model())
    }

    constructor ()
      ensures Valid() && Model() == Empty()
    {
      nodes := [];
      statics := map[];
      dispatch := map[];
    }

    /** Registers `key`: a plain pattern goes into the static table; any other
        is walked from the node for its first character, whose own kind is
        never examined. */
    method Insert(key: string, value: T)
      requires Valid()
      modifies this
      ensures Valid()
      ensures Model() == TrieSpec.Insert(old(Model()), key, value)
    {
      ghost var before := Model();
      if !HasSpecialCharacter(key) {
        statics := statics[key := value];
      } else {
        var c := key[0];
        var arena := nodes;
        var cur: nat;
        if c in dispatch {
          cur := dispatch[c];
        } else {
          cur := |arena|;
          arena := arena + [Blank()];
          dispatch := dispatch[c := cur];
          assert Forward(arena) by {
            forall k | 0 <= k < cur ensures EdgesForward(arena[k], k, |arena|) {
              assert EdgesForward(nodes[k], k, cur);
            }
          }
        }
        nodes := InsertPath(arena, key, value, cur);
      }
      assert Model() == TrieSpec.Insert(before, key, value);
      TrieValid.InsertValid(before, key, value);
    }

    /** The loop of insert over the characters after the first, starting on
        node `start` of `arena`; answers the updated arena. */
    static method InsertPath(arena: seq<Node<T>>, key: string, value: T, start: nat) returns (r: seq<Node<T>>)
      requires Forward(arena) && start < |arena| && 1 <= |key|
      ensures r == InsertWalk(arena, key, value, start, 1, false, "")
    {
      r := arena;
      var cur: nat := start;
      var i := 1;
      var seeking := false;
      var name := "";
      while i < |key|
        invariant 1 <= i <= |key|
        invariant Forward(r) && cur < |r|
        invariant InsertWalk(r, key, value, cur, i, seeking, name) == InsertWalk(arena, key, value, start, 1, false, "")
        decreases |key| - i
      {
        var c := key[i];
        if seeking {
          if !ContinuesName(c) {
            r := SetNode(r, cur, NamedParam(r[cur], name));
            seeking := false;
          } else {
            name := name + [c];
            i := i + 1;
            continue;
          }
        }
        if c == ':' {
          seeking := true;
          name := "";
          r := WithParam(r, cur);
          cur := r[cur].param.value;
          i := i + 1;
          continue;
        }
        if c == '*' {
          r := SetNode(r, cur, WildcardOwner(r[cur], value));
          r := WithWildcard(r, cur);
          return;
        }
        r := WithChild(r, cur, c);
        cur := r[cur].children[c];
        i := i + 1;
      }
      r := SetNode(r, cur, Terminal(r[cur], value, seeking, name));
    }

    /** Looks `key` up: the static table first, then the tree from the node for
        its first character. */
    method Search(key: string) returns (r: Option<Match<T>>)
      requires Valid()
      ensures r == TrieSpec.Search(Model(), key)
    {
      if key in statics {
        return Some(Match(Some(statics[key]), map[]));
      }
      if |key| == 0 || key[0] !in dispatch {
        return None;
      }
      r := SearchFrom(key, dispatch[key[0]], 1, None);
    }

    /** Walks the tree from node `start` at position `index`. */
    method SearchFrom(key: string, start: nat, index: nat, previous: Option<char>) returns (r: Option<Match<T>>)
      requires Valid() && start < |nodes| && index <= |key|
      ensures r == TrieSpec.SearchFrom(nodes, key, start, index, previous)
      decreases |key| - index, |nodes| - start, 1
    {
      var i: nat := index;
      var cur: nat := start;
      var seeking := previous == Some(':') || previous == Some('*');
      var name := nodes[cur].paramName.GetOr("");
      var captured := "";
      var params: map<string, string> := map[];

      while i < |key|
        invariant index <= i <= |key| && cur < |nodes|
        invariant i == index ==> cur == start
        invariant Scan(nodes, key, cur, i, seeking, name, captured, params) == TrieSpec.SearchFrom(nodes, key, start, index, previous)
        decreases |key| - i
      {
        var c := key[i];
        if seeking {
          if !ContinuesName(c) {
            params := params[name := captured];
            seeking := false;
          } else {
            captured := captured + [c];
            i := i + 1;
            continue;
          }
        }
        var node := nodes[cur];
        assert EdgesForward(node, cur, |nodes|);
        if c in node.children {
          if node.param.Some? || node.wildcard.Some? {
            r := DepthFirstSearch(key, i, params, cur, node.children[c]);
            return;
          }
          cur := node.children[c];
          i := i + 1;
          continue;
        }
        if node.param.Some? {
          cur := node.param.value;
          name := nodes[cur].paramName.GetOr("");
          captured := [c];
          seeking := true;
          i := i + 1;
          continue;
        }
        if node.wildcard.Some? {
          params := params[WildcardKey := key[i..]];
          return Some(Match(node.value, params));
        }
        return None;
      }

      var node := nodes[cur];
      if node.wildcard.Some? {
        params := params[WildcardKey := key[i..]];
        return Some(Match(node.value, params));
      }
      if seeking {
        params := params[name := captured];
      }
      r := if node.isWord then Some(Match(node.value, params)) else None;
    }

    /** At a node where a static child coexists with a parameter or wildcard
        edge: the static subtree first, then the parameter edge, then the
        wildcard edge, each started at the same position. */
    method DepthFirstSearch(key: string, index: nat, params: map<string, string>, current: nat, next: nat)
      returns (r: Option<Match<T>>)
      requires Valid() && current < |nodes| && next < |nodes| && index < |key|
      ensures r == TrieSpec.DepthFirstSearch(nodes, key, index, params, current, next)
      decreases |key| - index, |nodes| - current, 0
    {
      assert EdgesForward(nodes[current], current, |nodes|);
      var result := SearchFrom(key, next, index + 1, None);
      if result.Some? {
        return Some(Merge(result.value, params));
      }
      if nodes[current].param.Some? {
        result := SearchFrom(key, nodes[current].param.value, index, Some(':'));
        if result.Some? {
          return Some(Merge(result.value, params));
        }
      }
      if nodes[current].wildcard.Some? {
        result := SearchFrom(key, nodes[current].wildcard.value, index, Some('*'));
        if result.Some? {
          return Some(Merge(result.value, params));
        }
      }
      return None;
    }
  }
}
