# Route trie, modelled and verified in Dafny

This project models `Trie<T>` from `src/index.ts`, a small URL router.

- `insert(key, value)` registers a route pattern.
  - A pattern without `:` or `*` is *static*. It is stored whole in a table keyed by its exact text.
  - Any other pattern is laid out in a tree, reached from a root node chosen by the pattern's first character.
  - Inside a pattern, `:name` opens a parameter segment and `*` ends the pattern with a wildcard.
- `search(path)` looks a path up.
  - The static table is consulted first.
  - Then the tree is walked from the node for the path's first character.
  - The walk collects parameter values and the wildcard's rest of path.
  - At a branch point, where a static child coexists with a parameter or wildcard edge, it tries the static subtree first and backtracks to the parameter edge, then to the wildcard edge.

The files are:

- `wrappers.dfy`: `Option`.
- `trie_spec.dfy` (module `TrieSpec`): the data model and both algorithms as functions.
  - The node records form an arena (`seq<Node<T>>`) whose edges are indices. `Tree` holds the arena, the static table `statics` and the first-character table `dispatch`.
  - `Insert`, `InsertWalk` and `InsertStep` are the insert loop. `Search`, `SearchFrom`, `Scan`, `Route`, `Finish` and `DepthFirstSearch` are the search loop and its backtracking.
  - The structural invariant `Valid` has four parts:
    - edges point forward;
    - `dispatch` entries are in range;
    - wildcard nodes are blank and reachable only through wildcard edges;
    - every terminal carries a value.
- `trie_valid.dfy` (module `TrieValid`): `Insert` keeps `Valid` and only ever extends the tree. `Registered` is the trie built from a list of routes.
- `trie_impl.dfy` (module `TrieImpl`): the class `Trie` with the arena and the two tables as fields.
  - `Insert` updates them in place with the source's loop.
  - `Search`, `SearchFrom` and `DepthFirstSearch` are the source's loops.
  - Each method is proved to compute a `TrieSpec` function. `InsertPath` computes `InsertWalk` from position 1. Each of the others computes the function of the same name.
- `trie_properties.dfy` (module `TrieProperties`): the properties of insert and search.
- `trie_chain.dfy` (module `TrieChain`): an exact account of a trie that holds one special pattern.
  - `PatternMatch` is an independent reference matcher over the pattern text.
  - `SinglePatternSearch` proves that search in such a trie answers exactly what `PatternMatch` does, for every pattern and every path. This covers several parameters, static parts between them, and a trailing `*`.
  - `FilledRouteMatches` is the round trip: filling each `:name` of a pattern with an argument gives a path that matches and binds every name to its argument.
- `trie_examples.dfy` (module `TrieExamples`): scenarios from `tests/memoirist.test.ts` and `tests/trie.test.ts`, plus edge cases of `src/index.ts` that no test exercises (`BareColonBindsEmptyName`, `ParameterTakesFirstCharacter`, `ReregisterWildcard`).
  - Most are derived from the general lemmas.
  - `ConcreteRouteWins` is the first test of `tests/trie.test.ts`. It builds its two-route trie step by step. `StaticAttemptFallsBack` uses the same trie for a path whose static attempt fails and whose parameter retry succeeds.

These behaviours of the code are modelled as written:

- **First character never checked.** Insert never examines the first character of a pattern. So `:x*` starts at the dispatch node for `:`, and a `*` in second position makes that dispatch node the wildcard owner.
- **`*` overwrites the parameter name.** The node before a `*` gets the parameter name `*`, which replaces a name recorded there earlier.
- **Bare `:`.** A `:` followed by no name characters gives the parameter the empty name (`BareColonBindsEmptyName`).
- **First parameter character unconditional.** A forward-walk parameter takes its first character whatever it is, a `/` included (`ParameterTakesFirstCharacter`). The following characters must be digits, ASCII letters, or the six characters whose codes lie between `Z` and `a`.
- **Wildcard before pending parameter.** At the end of the path, a wildcard edge wins before a pending parameter capture would be recorded.
- **Parameter retry class-checks the first character.** A parameter entered by the backtracking retry starts with an empty capture (`src/index.ts:131-133`, `213`). Its first character must continue a name, like the later ones. When it does not, the parameter is bound to the empty string before the walk goes on (`RetryCapturesNameRun`).
- **Wildcard retry never matches.** The backtracking retry through a wildcard edge starts on the wildcard node itself. That node is always blank, so the retry never matches (`WildcardRetryFails`, `BranchIgnoresWildcard`).
  - Example: with `/*` and `/a/:x` registered, the paths `/a` and `/ab` are not found.
- **One shared parameter node.** Patterns that share a parameter node share its one recorded name. The last registration that reaches the end of that name sets it.

At a branch point the captures made before the branch are copied over those of the branch taken (`src/index.ts:208`), so the outer capture wins when both use one name (`Merge`).

## Model

| member | source | states |
|---|---|---|
| TrieSpec.ContinuesName | src/index.ts:55-59 | a character continues a parameter name exactly when its code is in 48..57 or 65..122; `/`, `:` and `*` never do |
| TrieSpec.HasSpecialCharacter | src/index.ts:32-34 | true exactly when some position of the key holds `:` or `*`; such a key is not empty |
| TrieSpec.WithChild | src/index.ts:90-91 | an existing static child is reused unchanged; otherwise exactly one blank node is appended, linked under `c`, and nothing else changes |
| TrieSpec.WithParam | src/index.ts:74-75 | an existing parameter child is reused unchanged; otherwise exactly one blank node is appended as the parameter child |
| TrieSpec.WithWildcard | src/index.ts:84-85 | an existing wildcard child is reused unchanged; otherwise exactly one blank node is appended as the wildcard child |
| TrieSpec.SetNode | src/index.ts:60 | only node `cur` changes, and the arena keeps its length and forward edges |
| TrieSpec.Insert | src/index.ts:38-99 | the result's edges still point forward and its root entries are in range |
| TrieSpec.InsertWalk | src/index.ts:51-98 | the walk only appends nodes and keeps edges forward |
| TrieSpec.InsertStep | src/index.ts:71-91 | one pattern character only appends nodes and keeps edges forward |
| TrieSpec.NamedParam | src/index.ts:60 | reference definition, no contract of its own: the node that ends a parameter name records it; InsertCollectsName states where that happens |
| TrieSpec.WildcardOwner | src/index.ts:81-83 | reference definition, no contract of its own: the node before a `*` becomes a terminal holding the value, with parameter name `*`; InsertStepKeepsName and FreshWildcardChain use it |
| TrieSpec.Terminal | src/index.ts:94-98 | reference definition, no contract of its own: the node that ends a pattern holds the value, and a pending name is recorded on it |
| TrieSpec.Search | src/index.ts:101-115 | reference definition of search, no contract of its own: TrieImpl.Trie.Search is proved equal to it, and SearchReturnsRegisteredValue and SinglePatternSearch state its properties |
| TrieSpec.SearchFrom | src/index.ts:117-135 | reference definition, no contract of its own: a capture is open exactly when the previous character was `:` or `*`, under the start node's name; TrieImpl.Trie.SearchFrom is proved equal to it |
| TrieSpec.Scan | src/index.ts:137-155 | reference definition, no contract of its own: one step of the search loop, collecting a capture while its characters continue a name; ScanCollectsValue states the whole capture |
| TrieSpec.Route | src/index.ts:157-183 | reference definition, no contract of its own: static child first (branching when a parameter or wildcard edge coexists), then the parameter edge, then the wildcard, else not found |
| TrieSpec.Finish | src/index.ts:186-195 | reference definition, no contract of its own: at the end of the path a wildcard edge wins, otherwise the pending capture is recorded and the node must end a pattern |
| TrieSpec.DepthFirstSearch | src/index.ts:198-227 | reference definition, no contract of its own: static subtree, then parameter retry, then wildcard retry; BranchIgnoresWildcard and RetryCapturesNameRun state what the retries do |
| TrieSpec.Blank | src/index.ts:74-90 | reference definition, no contract of its own: a node created by `??= {}`, with no value, name, edges or word mark |
| TrieSpec.Empty | src/index.ts:36 | reference definition, no contract of its own: `root = {}`, no nodes and empty root tables; EmptyValid states it is valid |
| TrieSpec.Merge | src/index.ts:207-209 | keeps the branch's value; the keys are the union; outer captures win and the others keep the branch's values |
| TrieValid.SetNodeValid | src/index.ts:60 | rewriting the fields of a non-wildcard node that keeps its edges preserves Valid and only extends the tree |
| TrieValid.WithChildValid | src/index.ts:90-91 | creating or reusing a static child preserves Valid, extends the tree, and the child is not a wildcard node |
| TrieValid.WithParamValid | src/index.ts:74-75 | creating or reusing a parameter child preserves Valid, extends the tree, and the child is not a wildcard node |
| TrieValid.WithWildcardValid | src/index.ts:84-85 | creating or reusing a wildcard child preserves Valid and extends the tree |
| TrieValid.InsertWalkValid | src/index.ts:51-98 | the insert loop from a non-wildcard node preserves Valid and only extends the tree |
| TrieValid.NamedStepValid | src/index.ts:54-61 | recording a finished parameter name and going on preserves Valid and only extends the tree |
| TrieValid.InsertStepValid | src/index.ts:71-91 | one pattern character preserves Valid and only extends the tree |
| TrieValid.EmptyValid | src/index.ts:36 | the empty trie is valid |
| TrieValid.InsertValid | src/index.ts:38-99 | insert preserves Valid; no node is removed and no edge is redirected |
| TrieValid.Registered | src/index.ts:38-99 | every trie built by registering a list of routes from the empty trie is valid |
| TrieImpl.Trie.constructor | src/index.ts:36 | a new trie is empty and valid |
| TrieImpl.Trie.Insert | src/index.ts:38-99 | the fields afterwards are exactly `TrieSpec.Insert` of the fields before, and Valid is kept |
| TrieImpl.Trie.InsertPath | src/index.ts:51-98 | the in-place loop over the pattern computes exactly `InsertWalk` from the start node at position 1 |
| TrieImpl.Trie.Search | src/index.ts:101-115 | the answer is exactly `TrieSpec.Search` of the trie |
| TrieImpl.Trie.SearchFrom | src/index.ts:117-196 | the search loop answers exactly `TrieSpec.SearchFrom` |
| TrieImpl.Trie.DepthFirstSearch | src/index.ts:198-227 | the backtracking answers exactly `TrieSpec.DepthFirstSearch` |
| TrieProperties.NameRunEnd | src/index.ts:55-65 | the end of the run of name characters from `i`: every character before it continues a name and the one at it does not |
| TrieProperties.InsertCollectsName | src/index.ts:54-65 | insert reads a parameter name up to the end of the name run and records the whole name on the parameter node |
| TrieProperties.ScanCollectsValue | src/index.ts:140-151 | search ends a parameter value where the same name run ends and records it under the parameter name |
| TrieProperties.InsertWalkFrame | src/index.ts:51-98 | the insert loop never rewrites a node before the one it stands on |
| TrieProperties.InsertStepFrame | src/index.ts:71-91 | one pattern character never rewrites a node before the current one |
| TrieProperties.BlankSearchFails | src/index.ts:117-196 | a search started on a blank node fails, whatever capture is open |
| TrieProperties.WildcardRetryFails | src/index.ts:220-226 | in a valid trie the backtracking retry through a wildcard edge never matches |
| TrieProperties.BranchIgnoresWildcard | src/index.ts:198-227 | at a branch point the answer is the static subtree's, else the parameter edge's, else not found |
| TrieProperties.RetryCapturesNameRun | src/index.ts:213 | the parameter retry captures exactly the run of name characters at the branch position, and binds the empty string when the character there does not continue a name |
| TrieProperties.SearchFromFromNode | src/index.ts:117-196 | a match found by the search loop carries the value of some node |
| TrieProperties.ScanFromNode | src/index.ts:137-195 | a match found from any point of the loop carries the value of some node |
| TrieProperties.RouteFromNode | src/index.ts:157-183 | a match found from one path character carries the value of some node |
| TrieProperties.DepthFirstSearchFromNode | src/index.ts:198-227 | a match found by backtracking carries the value of some node |
| TrieProperties.SearchFindsStoredValue | src/index.ts:101-115 | a match has a value; it is the static entry for the path, or the value of some tree node |
| TrieProperties.InsertWalkValues | src/index.ts:51-98 | the insert loop stores no value but the registered one |
| TrieProperties.InsertStepValues | src/index.ts:71-91 | one pattern character stores no value but the registered one |
| TrieProperties.InsertValues | src/index.ts:38-99 | insert stores no value but the registered one |
| TrieProperties.RegisteredValuesIn | src/index.ts:38-99 | a trie built from a route list stores only those routes' values |
| TrieProperties.SearchReturnsRegisteredValue | src/index.ts:101-115 | every match returns the value of some registered route |
| TrieProperties.StaticRoundTrip | src/index.ts:39-41 | after registering a static pattern, searching that exact path returns its value with no captures |
| TrieProperties.StaticInsertIsLocal | src/index.ts:39-41 | registering a static pattern changes the answer for that exact path only |
| TrieProperties.InsertsCommute | src/index.ts:39-49 | a static and a special pattern can be registered in either order with the same result |
| TrieProperties.SpecialInsertExtendsTree | src/index.ts:44-92 | a special pattern leaves the static table alone, extends the tree, and adds at most the root entry for its first character while keeping the others |
| TrieProperties.ReinsertWalk | src/index.ts:51-98 | walking the same pattern suffix twice equals walking it once with the second value |
| TrieProperties.InsertStepKeepsName | src/index.ts:71-91 | away from a `*`, a step leaves the name recorded on its node unchanged |
| TrieProperties.ReinsertStep | src/index.ts:71-91 | a repeated step reuses the nodes of the first and keeps only the second value |
| TrieProperties.ReinsertReplacesValue | src/index.ts:38-99 | registering a pattern twice equals registering it once with the second value |
| TrieProperties.FreshWildcardChain | src/index.ts:80-88 | a path that spells the static part of a fresh `...*` chain reaches the wildcard owner and captures the rest |
| TrieProperties.WildcardRoundTrip | src/index.ts:179-188 | in a trie holding `prefix*`, every path `prefix + rest` matches with `*` bound to `rest` |
| TrieProperties.FreshParamChain | src/index.ts:170-177 | along a fresh `...:name` chain, a capture takes its first character unconditionally and matches exactly when the name run reaches the end of the path |
| TrieProperties.ParamSearch | src/index.ts:170-195 | in a trie holding `prefix:name`, `prefix + arg` matches with `name` bound to `arg` exactly when the name run after arg's first character reaches the end |
| TrieProperties.ParamRoundTrip | src/index.ts:170-195 | in a trie holding `prefix:name`, `prefix + arg` matches with `name` bound to `arg` when arg's later characters all continue a name |
| TrieProperties.ParamRejectsLongerPath | src/index.ts:140-147 | a parameter binds one segment: the same path with more after a separator is not found |
| TrieProperties.FreshChainMiss | src/index.ts:157-183 | a path that leaves a fresh chain's static part, or ends before it is done, is not found |
| TrieProperties.FreshStaticStep | src/index.ts:90-91 | a plain character from a blank node gives it exactly one static child, a new blank node |
| TrieProperties.FreshPathMiss | src/index.ts:157-195 | in a trie holding one special pattern, a path without its static prefix is not found; for a parameter, neither is the prefix alone |
| TrieChain.SegmentName | src/index.ts:60-83 | the name a `:` segment ends up recording: its name run, or `*` when a `*` follows the run directly |
| TrieChain.Answer | src/index.ts:195 | a reference match becomes a search answer carrying the route's value, and absence stays absence |
| TrieChain.SinglePatternSearch | src/index.ts:101-196 | in a trie holding one special pattern, every path is answered exactly as the reference matcher PatternMatch answers it: found with the same captures, or not found |
| TrieChain.ChainWalkMatches | src/index.ts:51-98 | searching the chain that insert builds from a blank node answers as PatternMatch from the same positions |
| TrieChain.ChainStepMatches | src/index.ts:71-91 | the same for one pattern character outside a name |
| TrieChain.ChainStaticMatches | src/index.ts:90-91 | the same for a plain pattern character, which the path must repeat |
| TrieChain.ChainParamMatches | src/index.ts:71-78 | the same for a `:` segment, whose capture is the path's name run and is recorded under SegmentName |
| TrieChain.ChainParamInsert | src/index.ts:71-78 | at a `:` from a blank node, insert adds a fresh parameter node that either ends the pattern or records the name and goes on after the name run |
| TrieChain.ChainParamSearch | src/index.ts:140-176 | at a node whose only edge is a parameter edge, the capture is the path character plus the name run after it, stored when the run ends and not at the end of the path |
| TrieChain.Bind | src/index.ts:140-147 | binding the segments adds only segment names, every name bound before stays bound, and a name no later segment reuses keeps its earlier value (a reused name takes the later argument) |
| TrieChain.NameRunEndAt | src/index.ts:55-60 | a run of name characters that stops at `j` ends exactly at `j` |
| TrieChain.PlainStep | src/index.ts:90-91 | one plain pattern character is copied into the filled-in path and adds no parameter |
| TrieChain.PlainRun | src/index.ts:90-91 | a run of plain pattern characters is copied into the filled-in path and adds no parameter |
| TrieChain.ParamThenPlain | src/index.ts:71-78 | a `:name` segment takes the next argument, binds the name to it, and the plain run after it is copied |
| TrieChain.FillParamStep | src/index.ts:140-147 | a `:name` segment meets its argument in the filled-in path: the matcher captures exactly that argument and goes on right after it |
| TrieChain.FillPlainStep | src/index.ts:157-166 | a plain pattern character meets the same character in the filled-in path, and the matcher goes on after both with the same captures |
| TrieChain.FillMatches | src/index.ts:140-177 | PatternMatch accepts a filled-in path and binds every segment name to its argument |
| TrieChain.FilledRouteMatches | src/index.ts:101-196 | in a trie holding one pattern without `*`, the filled-in path is found with every name bound to its argument |
| TrieExamples.WildcardOnRootPath | tests/memoirist.test.ts:92-111 | with `/a/b` and the root wildcard, `/a/b/c/d` and `/` both go to the wildcard with the matching rest |
| TrieExamples.CanOverwriteWildcard | tests/memoirist.test.ts:113-130 | with `/` and the root wildcard, `/` is answered statically and `/a/b/c/d` by the wildcard |
| TrieExamples.DynamicRoot | tests/memoirist.test.ts:171-187 | with `/` and `/:param`, `/` is static and `/bruh` binds `param` |
| TrieExamples.OneParameterRoute | tests/memoirist.test.ts:181-186 | `/:param` alone binds `param` to `bruh` for `/bruh` |
| TrieExamples.TrailingSlash | tests/memoirist.test.ts:132-147 | `/abc/def` and `/abc/def/` are distinct static routes |
| TrieExamples.MatchWildcard | tests/memoirist.test.ts:55-62 | the rest wildcard captures `a/b/c`, slashes included |
| TrieExamples.GetPathParameter | tests/memoirist.test.ts:29-36 | `/id/:id` binds `id` to `1` for `/id/1`; in a trie holding only `/id/:id`, `/id/1/book` is not found |
| TrieExamples.GetPathParameterHit | tests/memoirist.test.ts:29-36 | `/id/:id` binds `id` to `1` for `/id/1` |
| TrieExamples.GetPathParameterMiss | src/index.ts:140-183 | in a trie holding only `/id/:id`, `/id/1/book` is not found: the `/` ends the capture and the parameter node has no edge for it |
| TrieExamples.MultipleParameters | tests/memoirist.test.ts:38-46 | in a trie holding only `/id/:id/name/:name`, `/id/1/name/name` binds `id` to `1` and `name` to `name` |
| TrieExamples.ParameterThenStatic | tests/memoirist.test.ts:8 | in a trie holding only `/id/:id/book`, `/id/1/book` binds `id` to `1` and then matches the static rest |
| TrieExamples.ConcreteRouteWins | tests/trie.test.ts:5-20 | with `/a/:b/:c/:d` then `/a/:b/:c/d`, the path ending in `d` takes the static route and binds `b` and `c` only; the path ending in `param3` takes the parameter route and binds `d` too |
| TrieExamples.StaticAttemptFallsBack | src/index.ts:198-219 | on the same trie, `/a/param1/param2/dx` enters the static child `d`, fails on `x`, and is answered by the parameter retry with `d` bound to `dx` |
| TrieExamples.FirstInsert | src/index.ts:38-99 | the arena insert builds for `/a/:b/:c/:d`: one static or parameter node per step, names recorded on the parameter nodes |
| TrieExamples.SecondInsert | src/index.ts:38-99 | registering `/a/:b/:c/d` on top follows the existing edges and adds one static child `d` beside the parameter edge |
| TrieExamples.BranchTakesStatic | src/index.ts:207-210 | at the branch point the static child `d` succeeds, and the outer captures are merged into its answer |
| TrieExamples.ParamTakesLastSegment | src/index.ts:170-177 | with no static child for the last segment's first character, the parameter edge is taken directly and captures the segment as `d` |
| TrieExamples.BranchFallsBackToParam | src/index.ts:210-219 | at the branch point the static child `d` fails on `x`, and the parameter retry captures `dx` as `d` and reaches the first route's terminal, with the outer captures merged in |
| TrieExamples.NotFound | tests/memoirist.test.ts:242-249 | `/api/abc/:type` answers not found for `/api` and `/api/awd/type` |
| TrieExamples.BareColonBindsEmptyName | src/index.ts:71-78 | a `:` with no name binds the segment under the empty name |
| TrieExamples.ParameterTakesFirstCharacter | src/index.ts:170-176 | a parameter's first character is taken unconditionally, so `//` binds `id` to `/` under `/:id` |
| TrieExamples.ReregisterWildcard | src/index.ts:80-88 | registering a wildcard pattern twice keeps only the second value and reuses the wildcard node |

## Left out

- The single root object: the source keeps static patterns and first-character nodes in one object, keyed by the pattern text and by the character code as a decimal string. The model keeps two tables. A static pattern spelled like a character code, such as `47`, can therefore collide with the node for `/` in the source but not in the model, both when registering and when searching.
- The empty path: the source computes `charCodeAt(0)` as NaN and looks up the key `NaN`. The model answers not found directly, which gives the same result.
- `seekingWildcard`: the source keeps this variable but never sets it, and its test has an empty body, so it is not modelled.
- Key order of the returned `params` object: it is not modelled, because captures are a `map`.
- Character encoding: characters are Dafny `char`s, while the source compares UTF-16 code units, so surrogate pairs are not modelled.
- Values: a value is always of type `T`. An `insert(key)` without a value, storing `undefined`, is not modelled. `ConcreteRouteWins` therefore registers its two routes with the values 1 and 2.
- Inherited object keys: the source's root is a plain object, so `this.root?.[key]` also finds the keys every object inherits. For example, `search("constructor")` returns a match with value `undefined` and no captures. The model's static table holds only registered patterns, so it answers not found. Likewise, registering the static pattern `__proto__` replaces the root object's prototype in the source; the model stores it as an ordinary entry.
- A parameter named `__proto__`: the source stores a capture with `params[paramName] = value`. For this name that assignment is ignored, so the capture is dropped. The model records it like any other name.
- Captures after backtracking: `Object.assign` mutates the branch's result in place. The model returns a fresh map with the same contents (`Merge`), so aliasing of the returned `params` object is not modelled.
- The benchmark file is not part of this model.
- TrieExamples.MatchWildcard: this states the wildcard test for a trie that holds only the wildcard pattern. The test's trie also holds eleven other patterns, and an evaluation over that shared tree is not stated.
- TrieExamples.GetPathParameter: likewise stated for a trie holding only `/id/:id`. Its second half, that `/id/1/book` is not found, holds only for that one-route trie. The test's shared trie also holds `/id/:id/book`.
- TrieExamples.MultipleParameters, TrieExamples.ParameterThenStatic: stated for a trie holding only the one route, like the two above. `SinglePatternSearch` covers every pattern of the shared test trie taken on its own. Search over the shared trie, where the routes `/id/:id/name/a` and `/id/:id/name/:name` meet at a branch point (`tests/memoirist.test.ts:73-90`), is not restated.
- Most scenarios with two or more special patterns are not restated. This covers `/public/*` beside `/public-aliased/*`; `/users/:userId` with the `/game` routes; `/api/abc/view/:id` beside `/api/abc/:type`; the second test of `tests/trie.test.ts`; and `tests/radix3.test.ts`. Only `ConcreteRouteWins` is restated.
