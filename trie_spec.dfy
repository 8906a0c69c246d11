/** The route-matching trie as values: its node records, the two root tables,
    and the insert and search algorithms written as functions over those values.
    The class in TrieImpl runs the same algorithms with loops and is proved to
    compute exactly these functions. */
module TrieSpec {
  import opened Wrappers

  // Character codes the algorithms compare against.
  const Zero := 48
  const Nine := 57
  const UpperA := 65
  const LowerZ := 122
  const ForwardSlash := 47
  const Colon := 58
  const Asterisk := 42

  /** The key under which a wildcard capture is reported. */
  const WildcardKey := "*"

  /** One trie vertex. Edges are indices into the node arena. */
  datatype Node<T> = Node(
    value: Option<T>,
    paramName: Option<string>,
    isWord: bool,
    children: map<char, nat>,
    param: Option<nat>,
    wildcard: Option<nat>)

  /** A freshly created node (`{}` in the source). */
  function Blank<T>(): Node<T> {
    Node(None, None, false, map[], None, None)
  }

  /** The whole trie: the node arena, the table of patterns without special
      characters, and the table from first character to first tree node. */
  datatype Tree<T> = Tree(nodes: seq<Node<T>>, statics: map<string, T>, dispatch: map<char, nat>)

  function Empty<T>(): Tree<T> {
    Tree([], map[], map[])
  }

  /** A successful search: the registered value and the captured parameters. */
  datatype Match<T> = Match(value: Option<T>, params: map<string, string>)

  /** Whether character `c` continues a parameter name (the same test in insert
      and in search). */
  function ContinuesName(c: char): (b: bool)
    ensures b <==> (Zero <= c as int <= Nine) || (UpperA <= c as int <= LowerZ)
    ensures c as int == ForwardSlash || c as int == Colon || c as int == Asterisk ==> !b
  {
    !(c as int < Zero || c as int > LowerZ || (c as int > Nine && c as int < UpperA))
  }

  /** A pattern is special when it contains a `:` or a `*`. */
  function HasSpecialCharacter(key: string): (b: bool)
    ensures b <==> exists k :: 0 <= k < |key| && (key[k] == ':' || key[k] == '*')
    ensures b ==> |key| > 0
  {
    ':' in key || '*' in key
  }

  // ---------------------------------------------------------------------------
  // Structural invariants

  /** Every edge of node `n`, stored at index `k`, points to a later node. */
  ghost predicate EdgesForward<T>(n: Node<T>, k: nat, size: nat) {
    && (forall c :: c in n.children ==> k < n.children[c] < size)
    && (n.param.Some? ==> k < n.param.value < size)
    && (n.wildcard.Some? ==> k < n.wildcard.value < size)
  }

  /** Fresh nodes are appended after their parent, so every edge goes forward. */
  ghost predicate Forward<T>(nodes: seq<Node<T>>) {
    forall k :: 0 <= k < |nodes| ==> EdgesForward(nodes[k], k, |nodes|)
  }

  ghost predicate DispatchInRange<T>(t: Tree<T>) {
    forall c :: c in t.dispatch ==> t.dispatch[c] < |t.nodes|
  }

  /** No wildcard edge points at node `k`. */
  ghost predicate NotWildcardTarget<T>(nodes: seq<Node<T>>, k: nat) {
    forall m :: 0 <= m < |nodes| ==> nodes[m].wildcard != Some(k)
  }

  /** The static and parameter edges of `n` never lead to a wildcard node. */
  ghost predicate WalkEdgesDetached<T>(nodes: seq<Node<T>>, n: Node<T>) {
    && (forall c :: c in n.children ==> NotWildcardTarget(nodes, n.children[c]))
    && (n.param.Some? ==> NotWildcardTarget(nodes, n.param.value))
  }

  /** Wildcard nodes hold nothing and are reachable only through wildcard edges. */
  ghost predicate WildcardsDetached<T>(t: Tree<T>) {
    && (forall m :: 0 <= m < |t.nodes| && t.nodes[m].wildcard.Some? ==>
          t.nodes[m].wildcard.value < |t.nodes| && t.nodes[t.nodes[m].wildcard.value] == Blank())
    && (forall c :: c in t.dispatch ==> NotWildcardTarget(t.nodes, t.dispatch[c]))
    && (forall m :: 0 <= m < |t.nodes| ==> WalkEdgesDetached(t.nodes, t.nodes[m]))
  }

  /** A node that ends a pattern, or sits before a wildcard, carries a value. */
  ghost predicate TerminalsCarryValues<T>(nodes: seq<Node<T>>) {
    forall k :: 0 <= k < |nodes| && (nodes[k].isWord || nodes[k].wildcard.Some?) ==> nodes[k].value.Some?
  }

  /** The invariant every trie built by Insert from Empty satisfies. */
  ghost predicate Valid<T>(t: Tree<T>) {
    Forward(t.nodes) && DispatchInRange(t) && WildcardsDetached(t) && TerminalsCarryValues(t.nodes)
  }

  // ---------------------------------------------------------------------------
  // Node updates used by insert

  /** Static child `c` of node `cur`: the existing one, or a new blank node appended to the arena. */
  function WithChild<T>(nodes: seq<Node<T>>, cur: nat, c: char): (r: seq<Node<T>>)
    requires Forward(nodes) && cur < |nodes|
    ensures |nodes| <= |r| && Forward(r) && c in r[cur].children
    ensures c in nodes[cur].children ==> r == nodes
    ensures c !in nodes[cur].children ==>
      |r| == |nodes| + 1 && r[cur].children[c] == |nodes| && r[|nodes|] == Blank()
      && r[cur] == nodes[cur].(children := nodes[cur].children[c := |nodes|])
      && r[..|nodes|] == nodes[cur := r[cur]]
  {
    if c in nodes[cur].children then nodes
    else
      var r := nodes[cur := nodes[cur].(children := nodes[cur].children[c := |nodes|])] + [Blank()];
      assert forall k :: 0 <= k < |nodes| ==> EdgesForward(r[k], k, |r|) by {
        forall k | 0 <= k < |nodes| ensures EdgesForward(r[k], k, |r|) {
          assert EdgesForward(nodes[k], k, |nodes|);
        }
      }
      r
  }

  /** The parameter child of node `cur`: the existing one, or a new blank node. */
  function WithParam<T>(nodes: seq<Node<T>>, cur: nat): (r: seq<Node<T>>)
    requires Forward(nodes) && cur < |nodes|
    ensures |nodes| <= |r| && Forward(r) && r[cur].param.Some?
    ensures nodes[cur].param.Some? ==> r == nodes
    ensures nodes[cur].param.None? ==>
      |r| == |nodes| + 1 && r[cur].param == Some(|nodes|) && r[|nodes|] == Blank()
      && r[cur] == nodes[cur].(param := Some(|nodes|))
      && r[..|nodes|] == nodes[cur := r[cur]]
  {
    if nodes[cur].param.Some? then nodes
    else
      var r := nodes[cur := nodes[cur].(param := Some(|nodes|))] + [Blank()];
      assert forall k :: 0 <= k < |nodes| ==> EdgesForward(r[k], k, |r|) by {
        forall k | 0 <= k < |nodes| ensures EdgesForward(r[k], k, |r|) {
          assert EdgesForward(nodes[k], k, |nodes|);
        }
      }
      r
  }

  /** The wildcard child of node `cur`: the existing one, or a new blank node. */
  function WithWildcard<T>(nodes: seq<Node<T>>, cur: nat): (r: seq<Node<T>>)
    requires Forward(nodes) && cur < |nodes|
    ensures |nodes| <= |r| && Forward(r) && r[cur].wildcard.Some?
    ensures nodes[cur].wildcard.Some? ==> r == nodes
    ensures nodes[cur].wildcard.None? ==>
      |r| == |nodes| + 1 && r[cur].wildcard == Some(|nodes|) && r[|nodes|] == Blank()
      && r[cur] == nodes[cur].(wildcard := Some(|nodes|))
      && r[..|nodes|] == nodes[cur := r[cur]]
  {
    if nodes[cur].wildcard.Some? then nodes
    else
      var r := nodes[cur := nodes[cur].(wildcard := Some(|nodes|))] + [Blank()];
      assert forall k :: 0 <= k < |nodes| ==> EdgesForward(r[k], k, |r|) by {
        forall k | 0 <= k < |nodes| ensures EdgesForward(r[k], k, |r|) {
          assert EdgesForward(nodes[k], k, |nodes|);
        }
      }
      r
  }

  /** Replaces node `cur` by a node with the same edges. */
  function SetNode<T>(nodes: seq<Node<T>>, cur: nat, n: Node<T>): (r: seq<Node<T>>)
    requires Forward(nodes) && cur < |nodes|
    requires n.children == nodes[cur].children && n.param == nodes[cur].param && n.wildcard == nodes[cur].wildcard
    ensures Forward(r) && |r| == |nodes| && r[cur] == n
    ensures forall k :: 0 <= k < |nodes| && k != cur ==> r[k] == nodes[k]
  {
    var r := nodes[cur := n];
    assert EdgesForward(nodes[cur], cur, |nodes|);
    r
  }

  /** The node that ends a parameter name records that name. */
  function NamedParam<T>(n: Node<T>, name: string): Node<T> {
    n.(paramName := Some(name))
  }

  /** The node before a `*` becomes a terminal whose parameter name is `*`. */
  function WildcardOwner<T>(n: Node<T>, value: T): Node<T> {
    n.(value := Some(value), paramName := Some(WildcardKey), isWord := true)
  }

  /** The node that ends a pattern; a pending parameter name is recorded on it. */
  function Terminal<T>(n: Node<T>, value: T, seeking: bool, name: string): Node<T> {
    var w := n.(value := Some(value), isWord := true);
    if seeking then w.(paramName := Some(name)) else w
  }

  // ---------------------------------------------------------------------------
  // insert

  /** Registers `key` with `value`. */
  function Insert<T>(t: Tree<T>, key: string, value: T): (r: Tree<T>)
    requires Forward(t.nodes) && DispatchInRange(t)
    ensures Forward(r.nodes) && DispatchInRange(r)
  {
    if !HasSpecialCharacter(key) then t.(statics := t.statics[key := value])
    else
      var c := key[0];
      var start := if c in t.dispatch then t.dispatch[c] else |t.nodes|;
      var nodes := if c in t.dispatch then t.nodes else t.nodes + [Blank()];
      assert Forward(nodes) by {
        forall k | 0 <= k < |t.nodes| ensures EdgesForward(nodes[k], k, |nodes|) {
          assert EdgesForward(t.nodes[k], k, |t.nodes|);
        }
      }
      Tree(InsertWalk(nodes, key, value, start, 1, false, ""), t.statics, t.dispatch[c := start])
  }

  /** The loop of insert at position `i`, standing on node `cur`. While
      `seeking`, the characters of a parameter name are being collected in `name`. */
  function InsertWalk<T>(nodes: seq<Node<T>>, key: string, value: T, cur: nat, i: nat, seeking: bool, name: string): (r: seq<Node<T>>)
    requires Forward(nodes) && cur < |nodes| && i <= |key|
    ensures Forward(r) && |nodes| <= |r|
    decreases |key| - i, 1
  {
    if i == |key| then
      SetNode(nodes, cur, Terminal(nodes[cur], value, seeking, name))
    else if seeking && ContinuesName(key[i]) then
      InsertWalk(nodes, key, value, cur, i + 1, true, name + [key[i]])
    else
      var nodes' := if seeking then SetNode(nodes, cur, NamedParam(nodes[cur], name)) else nodes;
      InsertStep(nodes', key, value, cur, i, name)
  }

  /** One character of a pattern outside a parameter name. */
  function InsertStep<T>(nodes: seq<Node<T>>, key: string, value: T, cur: nat, i: nat, name: string): (r: seq<Node<T>>)
    requires Forward(nodes) && cur < |nodes| && i < |key|
    ensures Forward(r) && |nodes| <= |r|
    decreases |key| - i, 0
  {
    var c := key[i];
    if c == ':' then
      var nodes' := WithParam(nodes, cur);
      assert EdgesForward(nodes'[cur], cur, |nodes'|);
      InsertWalk(nodes', key, value, nodes'[cur].param.value, i + 1, true, "")
    else if c == '*' then
      WithWildcard(SetNode(nodes, cur, WildcardOwner(nodes[cur], value)), cur)
    else
      var nodes' := WithChild(nodes, cur, c);
      assert EdgesForward(nodes'[cur], cur, |nodes'|);
      InsertWalk(nodes', key, value, nodes'[cur].children[c], i + 1, false, name)
  }

  // ---------------------------------------------------------------------------
  // search

  /** Looks `key` up: an exact static pattern first, then the tree. */
  function Search<T>(t: Tree<T>, key: string): Option<Match<T>>
    requires Forward(t.nodes) && DispatchInRange(t)
  {
    if key in t.statics then Some(Match(Some(t.statics[key]), map[]))
    else if |key| == 0 || key[0] !in t.dispatch then None
    else SearchFrom(t.nodes, key, t.dispatch[key[0]], 1, None)
  }

  /** `searchFrom(key, start, index, previous)`: a parameter capture is already
      open when the previous character was a `:` or a `*`. */
  function SearchFrom<T>(nodes: seq<Node<T>>, key: string, start: nat, index: nat, previous: Option<char>): Option<Match<T>>
    requires Forward(nodes) && start < |nodes| && index <= |key|
    decreases |key| - index, |nodes| - start, 3
  {
    Scan(nodes, key, start, index, previous == Some(':') || previous == Some('*'),
         nodes[start].paramName.GetOr(""), "", map[])
  }

  /** The loop of searchFrom at position `i`, standing on node `cur`; while
      `seeking`, the value of parameter `name` is being collected in `captured`. */
  function Scan<T>(nodes: seq<Node<T>>, key: string, cur: nat, i: nat, seeking: bool, name: string,
                   captured: string, params: map<string, string>): Option<Match<T>>
    requires Forward(nodes) && cur < |nodes| && i <= |key|
    decreases |key| - i, |nodes| - cur, 2
  {
    if i == |key| then
      Finish(nodes, key, cur, i, seeking, name, captured, params)
    else if seeking && ContinuesName(key[i]) then
      Scan(nodes, key, cur, i + 1, true, name, captured + [key[i]], params)
    else
      Route(nodes, key, cur, i, name, captured, if seeking then params[name := captured] else params)
  }

  /** One character of the path outside a capture: static child, then
      parameter edge, then wildcard edge. */
  function Route<T>(nodes: seq<Node<T>>, key: string, cur: nat, i: nat, name: string,
                    captured: string, params: map<string, string>): Option<Match<T>>
    requires Forward(nodes) && cur < |nodes| && i < |key|
    decreases |key| - i, |nodes| - cur, 1
  {
    var node := nodes[cur];
    var c := key[i];
    assert EdgesForward(node, cur, |nodes|);
    if c in node.children && (node.param.Some? || node.wildcard.Some?) then
      DepthFirstSearch(nodes, key, i, params, cur, node.children[c])
    else if c in node.children then
      Scan(nodes, key, node.children[c], i + 1, false, name, captured, params)
    else if node.param.Some? then
      Scan(nodes, key, node.param.value, i + 1, true, nodes[node.param.value].paramName.GetOr(""), [c], params)
    else if node.wildcard.Some? then
      Some(Match(node.value, params[WildcardKey := key[i..]]))
    else
      None
  }

  /** The end of the path: a wildcard edge wins, otherwise a pending capture
      is recorded and the node must end a pattern. */
  function Finish<T>(nodes: seq<Node<T>>, key: string, cur: nat, i: nat, seeking: bool, name: string,
                     captured: string, params: map<string, string>): Option<Match<T>>
    requires cur < |nodes| && i <= |key|
  {
    var node := nodes[cur];
    if node.wildcard.Some? then
      Some(Match(node.value, params[WildcardKey := key[i..]]))
    else
      var params' := if seeking then params[name := captured] else params;
      if node.isWord then Some(Match(node.value, params')) else None
  }

  /** Copies the captures made before a branch point over those of the branch taken, so the outer ones win. */
  function Merge<T>(m: Match<T>, outer: map<string, string>): (r: Match<T>)
    ensures r.value == m.value
    ensures r.params.Keys == m.params.Keys + outer.Keys
    ensures forall k :: k in outer ==> r.params[k] == outer[k]
    ensures forall k :: k in m.params && k !in outer ==> r.params[k] == m.params[k]
  {
    Match(m.value, m.params + outer)
  }

  /** The branch point: a static child coexists with a parameter or wildcard
      edge. The static subtree is tried first, then the parameter edge, then
      the wildcard edge, all at the same position. */
  function DepthFirstSearch<T>(nodes: seq<Node<T>>, key: string, index: nat, params: map<string, string>,
                               cur: nat, next: nat): Option<Match<T>>
    requires Forward(nodes) && cur < |nodes| && next < |nodes| && index < |key|
    decreases |key| - index, |nodes| - cur, 0
  {
    assert EdgesForward(nodes[cur], cur, |nodes|);
    var viaStatic := SearchFrom(nodes, key, next, index + 1, None);
    if viaStatic.Some? then Some(Merge(viaStatic.value, params))
    else
      var viaParam := if nodes[cur].param.Some? then SearchFrom(nodes, key, nodes[cur].param.value, index, Some(':')) else None;
      if viaParam.Some? then Some(Merge(viaParam.value, params))
      else
        var viaWildcard := if nodes[cur].wildcard.Some? then SearchFrom(nodes, key, nodes[cur].wildcard.value, index, Some('*')) else None;
        if viaWildcard.Some? then Some(Merge(viaWildcard.value, params)) else None
  }
}
