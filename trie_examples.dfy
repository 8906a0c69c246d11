/** Scenarios of the repository's router tests, and a few edge cases of the
    same algorithms. Most are derived from the general properties in
    TrieProperties and TrieChain; the two-route priority scenario at the end
    builds its trie step by step. */
module TrieExamples {
  import opened Wrappers
  import opened TrieSpec
  import opened TrieValid
  import opened TrieProperties
  import opened TrieChain

  /** `/a/b` then `/` followed by a wildcard: the static route does not shadow the wildcard for
      longer paths, and the wildcard matches the bare root with an empty rest. */
  lemma WildcardOnRootPath()
    ensures var t := Insert(Insert(Empty(), "/a/b", "ok"), "/*", "all");
      && Search(t, "/a/b/c/d") == Some(Match(Some("all"), map[WildcardKey := "a/b/c/d"]))
      && Search(t, "/") == Some(Match(Some("all"), map[WildcardKey := ""]))
  {
    assert !HasSpecialCharacter("/a/b") && HasSpecialCharacter("/*");
    EmptyValid<string>();
    InsertValid(Empty(), "/*", "all");
    InsertsCommute(Empty(), "/a/b", "ok", "/*", "all");
    var w := Insert(Empty(), "/*", "all");
    StaticInsertIsLocal(w, "/a/b", "ok", "/a/b/c/d");
    StaticInsertIsLocal(w, "/a/b", "ok", "/");
    WildcardRoundTrip("/", "a/b/c/d", "all");
    WildcardRoundTrip("/", "", "all");
    assert "/" + "*" == "/*" && "/" + "a/b/c/d" == "/a/b/c/d" && "/" + "" == "/";
  }

  /** `/` then `/` followed by a wildcard: the static table answers the root, the wildcard the rest. */
  lemma CanOverwriteWildcard()
    ensures var t := Insert(Insert(Empty(), "/", "ok"), "/*", "all");
      && Search(t, "/a/b/c/d") == Some(Match(Some("all"), map[WildcardKey := "a/b/c/d"]))
      && Search(t, "/") == Some(Match(Some("ok"), map[]))
  {
    assert !HasSpecialCharacter("/") && HasSpecialCharacter("/*");
    EmptyValid<string>();
    InsertValid(Empty(), "/*", "all");
    InsertsCommute(Empty(), "/", "ok", "/*", "all");
    var w := Insert(Empty(), "/*", "all");
    StaticInsertIsLocal(w, "/", "ok", "/a/b/c/d");
    StaticRoundTrip(w, "/", "ok");
    WildcardRoundTrip("/", "a/b/c/d", "all");
    assert "/" + "*" == "/*" && "/" + "a/b/c/d" == "/a/b/c/d";
  }

  /** `/` then `/:param`: the root stays static and any other one-segment path
      binds the parameter. */
  lemma DynamicRoot()
    ensures var t := Insert(Insert(Empty(), "/", "root"), "/:param", "it worked");
      && Search(t, "/") == Some(Match(Some("root"), map[]))
      && Search(t, "/bruh") == Some(Match(Some("it worked"), map["param" := "bruh"]))
  {
    assert !HasSpecialCharacter("/") && HasSpecialCharacter("/:param");
    EmptyValid<string>();
    InsertValid(Empty(), "/:param", "it worked");
    InsertsCommute(Empty(), "/", "root", "/:param", "it worked");
    var p := Insert(Empty(), "/:param", "it worked");
    StaticRoundTrip(p, "/", "root");
    StaticInsertIsLocal(p, "/", "root", "/bruh");
    OneParameterRoute();
  }

  lemma OneParameterRoute()
    ensures Search(Insert(Empty(), "/:param", "it worked"), "/bruh") == Some(Match(Some("it worked"), map["param" := "bruh"]))
  {
    assert forall k :: 0 <= k < |"param"| ==> ContinuesName("param"[k]);
    assert forall k :: 1 <= k < |"bruh"| ==> ContinuesName("bruh"[k]);
    ParamRoundTrip("/", "param", "bruh", "it worked");
    assert "/" + ":" + "param" == "/:param" && "/" + "bruh" == "/bruh";
  }

  /** `/abc/def` and `/abc/def/` are two distinct static routes. */
  lemma TrailingSlash()
    ensures var t := Insert(Insert(Empty(), "/abc/def", "A"), "/abc/def/", "B");
      && Search(t, "/abc/def") == Some(Match(Some("A"), map[]))
      && Search(t, "/abc/def/") == Some(Match(Some("B"), map[]))
  {
    EmptyValid<string>();
    assert !HasSpecialCharacter("/abc/def") && !HasSpecialCharacter("/abc/def/");
    var s := Insert(Empty(), "/abc/def", "A");
    InsertValid(Empty(), "/abc/def", "A");
    StaticRoundTrip(Empty(), "/abc/def", "A");
    assert "/abc/def" != "/abc/def/" by { assert |"/abc/def"| != |"/abc/def/"|; }
    StaticInsertIsLocal(s, "/abc/def/", "B", "/abc/def");
    StaticRoundTrip(s, "/abc/def/", "B");
  }

  /** The pattern `/rest/` followed by a wildcard captures everything after its prefix, slashes included. */
  lemma MatchWildcard()
    ensures Search(Insert(Empty(), "/rest/*", "/rest/*"), "/rest/a/b/c")
      == Some(Match(Some("/rest/*"), map[WildcardKey := "a/b/c"]))
  {
    assert forall k :: 1 <= k < |"/rest/"| ==> "/rest/"[k] != ':' && "/rest/"[k] != '*';
    WildcardRoundTrip("/rest/", "a/b/c", "/rest/*");
    assert "/rest/" + "*" == "/rest/*" && "/rest/" + "a/b/c" == "/rest/a/b/c";
  }

  /** `/id/:id` binds one segment. In a trie holding only this route a path
      that continues past the segment does not match; the test's shared trie
      also holds `/id/:id/book`, which ParameterThenStatic covers. */
  lemma GetPathParameter()
    ensures var t := Insert(Empty(), "/id/:id", "/id/:id");
      && Search(t, "/id/1") == Some(Match(Some("/id/:id"), map["id" := "1"]))
      && Search(t, "/id/1/book") == None
  {
    GetPathParameterHit();
    GetPathParameterMiss();
  }

  lemma GetPathParameterHit()
    ensures Search(Insert(Empty(), "/id/:id", "/id/:id"), "/id/1") == Some(Match(Some("/id/:id"), map["id" := "1"]))
  {
    assert forall k :: 1 <= k < |"/id/"| ==> "/id/"[k] != ':' && "/id/"[k] != '*';
    assert forall k :: 0 <= k < |"id"| ==> ContinuesName("id"[k]);
    ParamRoundTrip("/id/", "id", "1", "/id/:id");
    assert "/id/" + ":" + "id" == "/id/:id" && "/id/" + "1" == "/id/1";
  }

  lemma GetPathParameterMiss()
    ensures Search(Insert(Empty(), "/id/:id", "/id/:id"), "/id/1/book") == None
  {
    assert forall k :: 1 <= k < |"/id/"| ==> "/id/"[k] != ':' && "/id/"[k] != '*';
    assert forall k :: 0 <= k < |"id"| ==> ContinuesName("id"[k]);
    ParamRejectsLongerPath("/id/", "id", "1", "/book", "/id/:id");
    GetPathParameterStrings();
  }

  lemma GetPathParameterStrings()
    ensures "/id/" + ":" + "id" == "/id/:id" && "/id/" + "1" + "/book" == "/id/1/book"
  {
  }

  /** `/api/abc/:type` answers None, rather than failing, for a proper prefix
      of its static part and for a path that leaves it. */
  lemma NotFound()
    ensures var t := Insert(Empty(), "/api/abc/:type", "/api/abc/:type");
      && Search(t, "/api") == None
      && Search(t, "/api/awd/type") == None
  {
    var prefix := "/api/abc/";
    assert forall k :: 1 <= k < |prefix| ==> prefix[k] != ':' && prefix[k] != '*';
    assert prefix + [':'] + "type" == "/api/abc/:type";
    assert !(prefix <= "/api") by { assert |"/api"| < |prefix|; }
    assert !(prefix <= "/api/awd/type") by { assert "/api/awd/type"[6] != prefix[6]; }
    FreshPathMiss(prefix, ':', "type", "/api/abc/:type", "/api");
    FreshPathMiss(prefix, ':', "type", "/api/abc/:type", "/api/awd/type");
  }

  /** A `:` with no name after it binds the segment under the empty name. */
  lemma BareColonBindsEmptyName()
    ensures Search(Insert(Empty(), "/a/:", 1), "/a/x") == Some(Match(Some(1), map["" := "x"]))
  {
    assert forall k :: 1 <= k < |"/a/"| ==> "/a/"[k] != ':' && "/a/"[k] != '*';
    ParamRoundTrip("/a/", "", "x", 1);
    assert "/a/" + ":" + "" == "/a/:" && "/a/" + "x" == "/a/x";
  }

  /** The first character of a parameter is taken whatever it is, a `/`
      included. */
  lemma ParameterTakesFirstCharacter()
    ensures Search(Insert(Empty(), "/:id", 1), "//") == Some(Match(Some(1), map["id" := "/"]))
  {
    assert forall k :: 0 <= k < |"id"| ==> ContinuesName("id"[k]);
    ParamRoundTrip("/", "id", "/", 1);
    assert "/" + ":" + "id" == "/:id" && "/" + "/" == "//";
  }

  /** Registering the same pattern twice keeps only the second value. */
  lemma ReregisterWildcard()
    ensures Insert(Insert(Empty(), "/rest/*", 1), "/rest/*", 2) == Insert(Empty(), "/rest/*", 2)
  {
    EmptyValid<int>();
    ReinsertReplacesValue(Empty(), "/rest/*", 1, 2);
  }

  /** `/id/:id/name/:name` binds both of its parameters. */
  lemma MultipleParameters()
    ensures Search(Insert(Empty(), "/id/:id/name/:name", "/id/:id/name/:name"), "/id/1/name/name")
      == Some(Match(Some("/id/:id/name/:name"), map["id" := "1", "name" := "name"]))
  {
    MultipleParametersShape();
    MultipleParametersFill();
    MultipleParametersBind();
    assert WholeArgument("1") && WholeArgument("name");
    FilledRouteMatches("/id/:id/name/:name", "/id/:id/name/:name", ["1", "name"]);
  }

  lemma MultipleParametersShape()
    ensures HasSpecialCharacter("/id/:id/name/:name") && Fillable("/id/:id/name/:name", 1)
    ensures ParamCount("/id/:id/name/:name", 1) == 2
  {
    var key := "/id/:id/name/:name";
    MultipleParametersPattern(key);
    assert key[4] == ':';
    MultipleParametersShapeAt(key);
  }

  lemma MultipleParametersFill()
    ensures "/" + Fill("/id/:id/name/:name", 1, ["1", "name"]) == "/id/1/name/name"
  {
    MultipleParametersPattern("/id/:id/name/:name");
    MultipleParametersFillAt("/id/:id/name/:name", ["1", "name"]);
  }

  lemma MultipleParametersBind()
    ensures Bind("/id/:id/name/:name", 1, ["1", "name"], map[]) == map["id" := "1", "name" := "name"]
  {
    MultipleParametersPattern("/id/:id/name/:name");
    MultipleParametersBindAt("/id/:id/name/:name", ["1", "name"]);
  }

  /** The pieces of `/id/:id/name/:name` the proofs below work from. */
  lemma MultipleParametersPattern(key: string)
    requires key == "/id/:id/name/:name"
    ensures |key| == 18 && key[..4] == "/id/" && key[4] == ':' && key[5..7] == "id" && key[7..13] == "/name/" && key[13] == ':' && key[14..] == "name"
  {
    assert key == "/id/" + ":id" + "/name/" + ":name";
  }

  /** Where the names and the plain runs of the pattern lie. */
  lemma MultipleParametersRuns(key: string)
    requires |key| == 18 && key[..4] == "/id/" && key[4] == ':' && key[5..7] == "id" && key[7..13] == "/name/" && key[13] == ':' && key[14..] == "name"
    ensures forall k :: 5 <= k < 7 ==> ContinuesName(key[k])
    ensures forall k :: 14 <= k < 18 ==> ContinuesName(key[k])
    ensures forall k :: 1 <= k < 4 ==> key[k] != ':' && key[k] != '*'
    ensures forall k :: 7 <= k < 13 ==> key[k] != ':' && key[k] != '*'
    ensures !ContinuesName(key[7])
  {
    assert forall k :: 5 <= k < 7 ==> key[k] == key[5..7][k - 5];
    assert forall k :: 14 <= k < 18 ==> key[k] == key[14..][k - 14];
    assert forall k :: 1 <= k < 4 ==> key[k] == key[..4][k];
    assert forall k :: 7 <= k < 13 ==> key[k] == key[7..13][k - 7];
  }

  lemma MultipleParametersShapeAt(key: string)
    requires |key| == 18 && key[..4] == "/id/" && key[4] == ':' && key[5..7] == "id" && key[7..13] == "/name/" && key[13] == ':' && key[14..] == "name"
    ensures Fillable(key, 1) && ParamCount(key, 1) == 2
  {
    MultipleParametersRuns(key);
    var args := ["1", "name"];
    PlainRun(key, 1, 4, args, map[]);
    ParamThenPlain(key, 4, 7, 13, args, map[]);
    ParamThenPlain(key, 13, 18, 18, args[1..], map[]);
  }

  lemma MultipleParametersFillAt(key: string, args: seq<string>)
    requires |key| == 18 && key[..4] == "/id/" && key[4] == ':' && key[5..7] == "id" && key[7..13] == "/name/" && key[13] == ':' && key[14..] == "name"
    requires args == ["1", "name"]
    ensures "/" + Fill(key, 1, args) == "/id/1/name/name"
  {
    MultipleParametersRuns(key);
    var tail: seq<string> := [];
    PlainRun(key, 1, 4, args, map[]);
    ParamThenPlain(key, 4, 7, 13, args, map[]);
    assert args[1..] == ["name"];
    ParamThenPlain(key, 13, 18, 18, ["name"], map[]);
    assert ["name"][1..] == tail;
    assert key[1..4] == "id/" && key[18..18] == "";
    var last := Fill(key, 13, ["name"]);
    assert last == "name";
    var mid := Fill(key, 4, args);
    assert mid == "1" + "/name/" + last;
    assert Fill(key, 1, args) == "id/" + mid;
    MultipleParametersPath();
  }

  lemma MultipleParametersPath()
    ensures "/" + ("id/" + ("1" + "/name/" + "name")) == "/id/1/name/name"
  {
  }

  lemma MultipleParametersBindAt(key: string, args: seq<string>)
    requires |key| == 18 && key[..4] == "/id/" && key[4] == ':' && key[5..7] == "id" && key[7..13] == "/name/" && key[13] == ':' && key[14..] == "name"
    requires args == ["1", "name"]
    ensures Bind(key, 1, args, map[]) == map["id" := "1", "name" := "name"]
  {
    MultipleParametersRuns(key);
    var tail: seq<string> := [];
    PlainRun(key, 1, 4, args, map[]);
    ParamThenPlain(key, 4, 7, 13, args, map[]);
    assert args[1..] == ["name"];
    ParamThenPlain(key, 13, 18, 18, ["name"], map["id" := "1"]);
    assert ["name"][1..] == tail;
    assert key[14..18] == "name";
    assert Bind(key, 18, tail, map["id" := "1"][key[14..18] := "name"]) == map["id" := "1", "name" := "name"];
  }

  /** `/id/:id/book` binds its parameter and then matches the static rest. */
  lemma ParameterThenStatic()
    ensures Search(Insert(Empty(), "/id/:id/book", "book"), "/id/1/book")
      == Some(Match(Some("book"), map["id" := "1"]))
  {
    ParameterThenStaticShape();
    ParameterThenStaticFill();
    ParameterThenStaticBind();
    assert WholeArgument("1");
    FilledRouteMatches("/id/:id/book", "book", ["1"]);
  }

  lemma ParameterThenStaticShape()
    ensures HasSpecialCharacter("/id/:id/book") && Fillable("/id/:id/book", 1)
    ensures ParamCount("/id/:id/book", 1) == 1
  {
    var key := "/id/:id/book";
    assert key[4] == ':';
    NameRunEndAt(key, 5, 7);
    PlainRun(key, 1, 4, [], map[]);
    PlainRun(key, 7, 12, [], map[]);
  }

  lemma ParameterThenStaticFill()
    ensures "/" + Fill("/id/:id/book", 1, ["1"]) == "/id/1/book"
  {
    ParameterThenStaticPattern("/id/:id/book");
    ParameterThenStaticFillAt("/id/:id/book", ["1"]);
  }

  lemma ParameterThenStaticBind()
    ensures Bind("/id/:id/book", 1, ["1"], map[]) == map["id" := "1"]
  {
    ParameterThenStaticPattern("/id/:id/book");
    ParameterThenStaticBindAt("/id/:id/book", ["1"]);
  }

  /** The pieces of `/id/:id/book` the proofs below work from. */
  lemma ParameterThenStaticPattern(key: string)
    requires key == "/id/:id/book"
    ensures |key| == 12 && key[..4] == "/id/" && key[4] == ':' && key[5..7] == "id" && key[7..] == "/book"
  {
    assert key == "/id/" + ":id" + "/book";
  }

  /** Where the name and the plain runs of the pattern lie. */
  lemma ParameterThenStaticRuns(key: string)
    requires |key| == 12 && key[..4] == "/id/" && key[4] == ':' && key[5..7] == "id" && key[7..] == "/book"
    ensures forall k :: 5 <= k < 7 ==> ContinuesName(key[k])
    ensures forall k :: 1 <= k < 4 ==> key[k] != ':' && key[k] != '*'
    ensures forall k :: 7 <= k < 12 ==> key[k] != ':' && key[k] != '*'
    ensures !ContinuesName(key[7]) && key[7] != ':'
  {
    assert forall k :: 5 <= k < 7 ==> key[k] == key[5..7][k - 5];
    assert forall k :: 1 <= k < 4 ==> key[k] == key[..4][k];
    assert forall k :: 7 <= k < 12 ==> key[k] == key[7..][k - 7];
  }

  lemma ParameterThenStaticFillAt(key: string, args: seq<string>)
    requires |key| == 12 && key[..4] == "/id/" && key[4] == ':' && key[5..7] == "id" && key[7..] == "/book"
    requires args == ["1"]
    ensures "/" + Fill(key, 1, args) == "/id/1/book"
  {
    ParameterThenStaticRuns(key);
    var tail: seq<string> := [];
    PlainRun(key, 1, 4, args, map[]);
    ParamThenPlain(key, 4, 7, 12, args, map[]);
    assert args[1..] == tail;
    assert key[1..4] == "id/" && key[7..12] == "/book";
    assert Fill(key, 4, args) == "1" + "/book";
    assert Fill(key, 1, args) == "id/" + ("1" + "/book");
    ParameterThenStaticPath();
  }

  lemma ParameterThenStaticPath()
    ensures "/" + ("id/" + ("1" + "/book")) == "/id/1/book"
  {
  }

  lemma ParameterThenStaticBindAt(key: string, args: seq<string>)
    requires |key| == 12 && key[..4] == "/id/" && key[4] == ':' && key[5..7] == "id" && key[7..] == "/book"
    requires args == ["1"]
    ensures Bind(key, 1, args, map[]) == map["id" := "1"]
  {
    ParameterThenStaticRuns(key);
    var tail: seq<string> := [];
    PlainRun(key, 1, 4, args, map[]);
    ParamThenPlain(key, 4, 7, 12, args, map[]);
    assert args[1..] == tail;
    assert Bind(key, 12, tail, map[][key[5..7] := args[0]]) == map["id" := "1"];
  }

  /** The arena after registering `/a/:b/:c/:d` with 1. */
  function ParamsArena(): (a: seq<Node<int>>)
    ensures Forward(a) && |a| == 8
  {
    var a := [ Blank().(children := map['a' := 1]),
      Blank().(children := map['/' := 2]),
      Blank().(param := Some(3)),
      Blank().(paramName := Some("b"), children := map['/' := 4]),
      Blank().(param := Some(5)),
      Blank().(paramName := Some("c"), children := map['/' := 6]),
      Blank().(param := Some(7)),
      Blank().(paramName := Some("d"), value := Some(1), isWord := true) ];
    assert forall j | 0 <= j < |a| :: EdgesForward(a[j], j, |a|);
    a
  }

  /** The first `k` nodes of that arena followed by a blank one: the arena
      while the pattern is being registered. */
  function Stage(k: nat): (a: seq<Node<int>>)
    requires k <= 7
    ensures Forward(a) && |a| == k + 1
  {
    var a := ParamsArena()[..k] + [Blank()];
    assert forall j | 0 <= j < k :: a[j] == ParamsArena()[j] && EdgesForward(ParamsArena()[j], j, 8);
    a
  }

  /** The arena once `/a/:b/:c/d` is registered with 2 as well. */
  function BothArena(): (b: seq<Node<int>>)
    ensures Forward(b) && |b| == 9
  {
    var a := ParamsArena();
    var b := a[6 := Blank().(param := Some(7), children := map['d' := 8])] + [Blank().(value := Some(2), isWord := true)];
    assert forall j | 0 <= j < 8 && j != 6 :: b[j] == a[j] && EdgesForward(a[j], j, 8);
    b
  }

  // Registering `/a/:b/:c/:d`, a few characters at a time.

  lemma FirstWalkA()
    ensures InsertWalk(Stage(0), "/a/:b/:c/:d", 1, 0, 1, false, "")
      == InsertWalk(Stage(3), "/a/:b/:c/:d", 1, 3, 4, true, "")
  {
    var key := "/a/:b/:c/:d";
    assert key[1] == 'a' && key[2] == '/' && key[3] == ':';
    var s1 := WithChild(Stage(0), 0, 'a');
    assert s1 == Stage(1);
    var s2 := WithChild(Stage(1), 1, '/');
    assert s2 == Stage(2);
    var s3 := WithParam(Stage(2), 2);
    assert s3 == Stage(3);
    assert InsertWalk(Stage(0), key, 1, 0, 1, false, "") == InsertStep(Stage(0), key, 1, 0, 1, "");
    assert InsertStep(Stage(0), key, 1, 0, 1, "") == InsertWalk(s1, key, 1, s1[0].children['a'], 2, false, "");
    assert InsertWalk(Stage(1), key, 1, 1, 2, false, "") == InsertStep(Stage(1), key, 1, 1, 2, "");
    assert InsertStep(Stage(1), key, 1, 1, 2, "") == InsertWalk(s2, key, 1, s2[1].children['/'], 3, false, "");
    assert InsertWalk(Stage(2), key, 1, 2, 3, false, "") == InsertStep(Stage(2), key, 1, 2, 3, "");
    assert InsertStep(Stage(2), key, 1, 2, 3, "") == InsertWalk(s3, key, 1, s3[2].param.value, 4, true, "");
  }

  lemma FirstWalkB()
    ensures InsertWalk(Stage(3), "/a/:b/:c/:d", 1, 3, 4, true, "")
      == InsertWalk(Stage(5), "/a/:b/:c/:d", 1, 5, 7, true, "")
  {
    var key := "/a/:b/:c/:d";
    assert key[4] == 'b' && key[5] == '/' && key[6] == ':' && ContinuesName('b') && "" + [key[4]] == "b" && !ContinuesName('/');
    assert InsertWalk(Stage(3), key, 1, 3, 4, true, "") == InsertWalk(Stage(3), key, 1, 3, 5, true, "b");
    var n := SetNode(Stage(3), 3, NamedParam(Stage(3)[3], "b"));
    assert InsertWalk(Stage(3), key, 1, 3, 5, true, "b") == InsertStep(n, key, 1, 3, 5, "b");
    var s4 := WithChild(n, 3, '/');
    assert s4 == Stage(4);
    assert InsertStep(n, key, 1, 3, 5, "b") == InsertWalk(s4, key, 1, s4[3].children['/'], 6, false, "b");
    assert InsertWalk(Stage(4), key, 1, 4, 6, false, "b") == InsertStep(Stage(4), key, 1, 4, 6, "b");
    var s5 := WithParam(Stage(4), 4);
    assert s5 == Stage(5);
    assert InsertStep(Stage(4), key, 1, 4, 6, "b") == InsertWalk(s5, key, 1, s5[4].param.value, 7, true, "");
  }

  lemma FirstWalkC()
    ensures InsertWalk(Stage(5), "/a/:b/:c/:d", 1, 5, 7, true, "")
      == InsertWalk(Stage(7), "/a/:b/:c/:d", 1, 7, 10, true, "")
  {
    var key := "/a/:b/:c/:d";
    assert key[7] == 'c' && key[8] == '/' && key[9] == ':' && ContinuesName('c') && "" + [key[7]] == "c" && !ContinuesName('/');
    assert InsertWalk(Stage(5), key, 1, 5, 7, true, "") == InsertWalk(Stage(5), key, 1, 5, 8, true, "c");
    var n := SetNode(Stage(5), 5, NamedParam(Stage(5)[5], "c"));
    assert InsertWalk(Stage(5), key, 1, 5, 8, true, "c") == InsertStep(n, key, 1, 5, 8, "c");
    var s6 := WithChild(n, 5, '/');
    assert s6 == Stage(6);
    assert InsertStep(n, key, 1, 5, 8, "c") == InsertWalk(s6, key, 1, s6[5].children['/'], 9, false, "c");
    assert InsertWalk(Stage(6), key, 1, 6, 9, false, "c") == InsertStep(Stage(6), key, 1, 6, 9, "c");
    var s7 := WithParam(Stage(6), 6);
    assert s7 == Stage(7);
    assert InsertStep(Stage(6), key, 1, 6, 9, "c") == InsertWalk(s7, key, 1, s7[6].param.value, 10, true, "");
  }

  lemma FirstWalkD()
    ensures InsertWalk(Stage(7), "/a/:b/:c/:d", 1, 7, 10, true, "") == ParamsArena()
  {
    var key := "/a/:b/:c/:d";
    assert key[10] == 'd' && |key| == 11 && ContinuesName('d') && "" + [key[10]] == "d";
    assert InsertWalk(Stage(7), key, 1, 7, 10, true, "") == InsertWalk(Stage(7), key, 1, 7, 11, true, "d");
    assert SetNode(Stage(7), 7, Terminal(Stage(7)[7], 1, true, "d")) == ParamsArena();
  }

  lemma FirstInsert()
    ensures Insert(Empty(), "/a/:b/:c/:d", 1) == Tree(ParamsArena(), map[], map['/' := 0])
  {
    assert HasSpecialCharacter("/a/:b/:c/:d") by { assert "/a/:b/:c/:d"[3] == ':'; }
    assert Empty<int>().nodes + [Blank()] == Stage(0);
    FirstWalkA();
    FirstWalkB();
    FirstWalkC();
    FirstWalkD();
  }

  // Registering `/a/:b/:c/d` on top: existing edges are followed up to the
  // last character, which adds a static child next to the parameter edge.

  lemma SecondWalkA()
    ensures InsertWalk(ParamsArena(), "/a/:b/:c/d", 2, 0, 1, false, "")
      == InsertWalk(ParamsArena(), "/a/:b/:c/d", 2, 3, 4, true, "")
  {
    var key := "/a/:b/:c/d";
    var a := ParamsArena();
    assert key[1] == 'a' && key[2] == '/' && key[3] == ':';
    assert WithChild(a, 0, 'a') == a && WithChild(a, 1, '/') == a && WithParam(a, 2) == a;
    assert InsertWalk(a, key, 2, 0, 1, false, "") == InsertStep(a, key, 2, 0, 1, "");
    assert InsertWalk(a, key, 2, 1, 2, false, "") == InsertStep(a, key, 2, 1, 2, "");
    assert InsertWalk(a, key, 2, 2, 3, false, "") == InsertStep(a, key, 2, 2, 3, "");
  }

  lemma SecondWalkB()
    ensures InsertWalk(ParamsArena(), "/a/:b/:c/d", 2, 3, 4, true, "")
      == InsertWalk(ParamsArena(), "/a/:b/:c/d", 2, 6, 9, false, "c")
  {
    var key := "/a/:b/:c/d";
    var a := ParamsArena();
    assert key[4] == 'b' && key[5] == '/' && key[6] == ':' && key[7] == 'c' && key[8] == '/';
    assert ContinuesName('b') && ContinuesName('c') && !ContinuesName('/');
    assert "" + [key[4]] == "b" && "" + [key[7]] == "c";
    assert SetNode(a, 3, NamedParam(a[3], "b")) == a && SetNode(a, 5, NamedParam(a[5], "c")) == a;
    assert WithChild(a, 3, '/') == a && WithParam(a, 4) == a && WithChild(a, 5, '/') == a;
    assert InsertWalk(a, key, 2, 3, 4, true, "") == InsertWalk(a, key, 2, 3, 5, true, "b");
    assert InsertWalk(a, key, 2, 3, 5, true, "b") == InsertStep(a, key, 2, 3, 5, "b");
    assert InsertWalk(a, key, 2, 4, 6, false, "b") == InsertStep(a, key, 2, 4, 6, "b");
    assert InsertWalk(a, key, 2, 5, 7, true, "") == InsertWalk(a, key, 2, 5, 8, true, "c");
    assert InsertWalk(a, key, 2, 5, 8, true, "c") == InsertStep(a, key, 2, 5, 8, "c");
  }

  lemma SecondWalkC()
    ensures InsertWalk(ParamsArena(), "/a/:b/:c/d", 2, 6, 9, false, "c") == BothArena()
  {
    var key := "/a/:b/:c/d";
    var a := ParamsArena();
    assert key[9] == 'd' && |key| == 10;
    var s := WithChild(a, 6, 'd');
    assert s == BothArena()[8 := Blank()];
    assert InsertWalk(a, key, 2, 6, 9, false, "c") == InsertStep(a, key, 2, 6, 9, "c");
    assert InsertStep(a, key, 2, 6, 9, "c") == InsertWalk(s, key, 2, s[6].children['d'], 10, false, "c");
    assert SetNode(s, 8, Terminal(s[8], 2, false, "c")) == BothArena();
  }

  lemma SecondInsert()
    ensures Insert(Tree(ParamsArena(), map[], map['/' := 0]), "/a/:b/:c/d", 2) == Tree(BothArena(), map[], map['/' := 0])
  {
    assert HasSpecialCharacter("/a/:b/:c/d") by { assert "/a/:b/:c/d"[3] == ':'; }
    SecondWalkA();
    SecondWalkB();
    SecondWalkC();
  }

  /** Both searches of the scenario reach node 6, the branch point, alike. */
  lemma SearchToBranch(t: Tree<int>, q: string)
    requires t == Tree(BothArena(), map[], map['/' := 0]) && |q| > 17 && q[..17] == "/a/param1/param2/"
    ensures Search(t, q) == Route(t.nodes, q, 6, 17, "c", "param2", map["b" := "param1", "c" := "param2"])
  {
    SearchFirstParam(t.nodes, q);
    SearchSecondParam(t.nodes, q);
  }

  lemma SearchFirstParam(b: seq<Node<int>>, q: string)
    requires b == BothArena() && |q| > 17 && q[..17] == "/a/param1/param2/"
    ensures Search(Tree(b, map[], map['/' := 0]), q) == Route(b, q, 3, 9, "b", "param1", map["b" := "param1"])
  {
    assert q[0] == '/' && q[1] == 'a' && q[2] == '/' && q[3] == 'p';
    assert forall k | 4 <= k < 9 :: ContinuesName(q[k]) by {
      forall k | 4 <= k < 9 ensures ContinuesName(q[k]) { assert q[k] == q[..17][k]; }
    }
    assert !ContinuesName(q[9]) by { assert q[9] == q[..17][9]; }
    NameRunEndAt(q, 4, 9);
    assert "p" + q[4..9] == "param1" by { assert q[4..9] == q[..17][4..9]; }
    assert Search(Tree(b, map[], map['/' := 0]), q) == Scan(b, q, 0, 1, false, "", "", map[]);
    assert Route(b, q, 0, 1, "", "", map[]) == Scan(b, q, 1, 2, false, "", "", map[]);
    assert Route(b, q, 1, 2, "", "", map[]) == Scan(b, q, 2, 3, false, "", "", map[]);
    assert Route(b, q, 2, 3, "", "", map[]) == Scan(b, q, 3, 4, true, "b", "p", map[]);
    ScanCollectsValue(b, q, 3, 4, "b", "p", map[]);
  }

  lemma SearchSecondParam(b: seq<Node<int>>, q: string)
    requires b == BothArena() && |q| > 17 && q[..17] == "/a/param1/param2/"
    ensures Route(b, q, 3, 9, "b", "param1", map["b" := "param1"])
      == Route(b, q, 6, 17, "c", "param2", map["b" := "param1", "c" := "param2"])
  {
    assert q[9] == '/' && q[10] == 'p' && q[16] == '/';
    assert forall k | 11 <= k < 16 :: ContinuesName(q[k]) by {
      forall k | 11 <= k < 16 ensures ContinuesName(q[k]) { assert q[k] == q[..17][k]; }
    }
    assert !ContinuesName(q[16]);
    NameRunEndAt(q, 11, 16);
    assert "p" + q[11..16] == "param2" by { assert q[11..16] == q[..17][11..16]; }
    assert Route(b, q, 3, 9, "b", "param1", map["b" := "param1"]) == Scan(b, q, 4, 10, false, "b", "param1", map["b" := "param1"]);
    assert Route(b, q, 4, 10, "b", "param1", map["b" := "param1"]) == Scan(b, q, 5, 11, true, "c", "p", map["b" := "param1"]);
    ScanCollectsValue(b, q, 5, 11, "c", "p", map["b" := "param1"]);
    assert Route(b, q, 5, 16, "c", "param2", map["b" := "param1", "c" := "param2"])
      == Scan(b, q, 6, 17, false, "c", "param2", map["b" := "param1", "c" := "param2"]);
  }

  lemma BranchTakesStatic(b: seq<Node<int>>, q: string)
    requires b == BothArena() && q == "/a/param1/param2/d"
    ensures Route(b, q, 6, 17, "c", "param2", map["b" := "param1", "c" := "param2"])
      == Some(Match(Some(2), map["b" := "param1", "c" := "param2"]))
  {
    var p := map["b" := "param1", "c" := "param2"];
    assert q[17] == 'd' && |q| == 18;
    assert Route(b, q, 6, 17, "c", "param2", p) == DepthFirstSearch(b, q, 17, p, 6, 8);
    assert SearchFrom(b, q, 8, 18, None) == Some(Match(Some(2), map[]));
    assert map[] + p == p;
  }

  /** Node 6 has no static child `p`, so the last segment goes straight
      down the parameter edge, without branching, and is bound as `d`. */
  lemma ParamTakesLastSegment(b: seq<Node<int>>, q: string)
    requires b == BothArena() && q == "/a/param1/param2/param3"
    ensures Route(b, q, 6, 17, "c", "param2", map["b" := "param1", "c" := "param2"])
      == Some(Match(Some(1), map["b" := "param1", "c" := "param2", "d" := "param3"]))
  {
    var p := map["b" := "param1", "c" := "param2"];
    assert q[17] == 'p' && |q| == 23;
    assert Route(b, q, 6, 17, "c", "param2", p) == Scan(b, q, 7, 18, true, "d", "p", p);
    assert forall k | 18 <= k < 23 :: ContinuesName(q[k]);
    NameRunEndAt(q, 18, 23);
    ScanCollectsValue(b, q, 7, 18, "d", "p", p);
    assert "p" + q[18..23] == "param3";
  }

  /** A last segment `dx` enters the static child `d`, which has no edge for
      `x`; the branch then retries through the parameter edge, which
      captures `dx` as `d` and reaches the first route's terminal. */
  lemma BranchFallsBackToParam(b: seq<Node<int>>, q: string)
    requires b == BothArena() && q == "/a/param1/param2/dx"
    ensures Route(b, q, 6, 17, "c", "param2", map["b" := "param1", "c" := "param2"])
      == Some(Match(Some(1), map["b" := "param1", "c" := "param2", "d" := "dx"]))
  {
    var p := map["b" := "param1", "c" := "param2"];
    assert q[17] == 'd' && q[18] == 'x' && |q| == 19;
    assert Route(b, q, 6, 17, "c", "param2", p) == DepthFirstSearch(b, q, 17, p, 6, 8);
    assert SearchFrom(b, q, 8, 18, None) == None by {
      assert SearchFrom(b, q, 8, 18, None) == Scan(b, q, 8, 18, false, "", "", map[]);
      assert Scan(b, q, 8, 18, false, "", "", map[]) == Route(b, q, 8, 18, "", "", map[]);
    }
    NameRunEndAt(q, 17, 19);
    RetryCapturesNameRun(b, q, 7, 17);
    assert q[17..19] == "dx";
    assert SearchFrom(b, q, 7, 17, Some(':')) == Some(Match(Some(1), map["d" := "dx"]));
    assert map["d" := "dx"] + p == map["b" := "param1", "c" := "param2", "d" := "dx"];
  }

  /** The lookup test of trie.test.ts: with `/a/:b/:c/:d` and then
      `/a/:b/:c/d` registered, the path ending in `d` takes the static route
      and binds only `b` and `c`, and the path ending in `param3` takes the
      parameter route and binds `d` as well. */
  lemma ConcreteRouteWins()
    ensures var t := Insert(Insert(Empty(), "/a/:b/:c/:d", 1), "/a/:b/:c/d", 2);
      && Search(t, "/a/param1/param2/d") == Some(Match(Some(2), map["b" := "param1", "c" := "param2"]))
      && Search(t, "/a/param1/param2/param3")
         == Some(Match(Some(1), map["b" := "param1", "c" := "param2", "d" := "param3"]))
  {
    BothRoutesTree();
    BothRoutesSearches(Tree(BothArena(), map[], map['/' := 0]));
  }

  lemma BothRoutesTree()
    ensures Insert(Insert(Empty(), "/a/:b/:c/:d", 1), "/a/:b/:c/d", 2) == Tree(BothArena(), map[], map['/' := 0])
  {
    FirstInsert();
    SecondInsert();
  }

  lemma BothRoutesSearches(t: Tree<int>)
    requires t == Tree(BothArena(), map[], map['/' := 0])
    ensures Search(t, "/a/param1/param2/d") == Some(Match(Some(2), map["b" := "param1", "c" := "param2"]))
    ensures Search(t, "/a/param1/param2/param3")
      == Some(Match(Some(1), map["b" := "param1", "c" := "param2", "d" := "param3"]))
  {
    StaticLastSegment(t, "/a/param1/param2/d");
    ParamLastSegment(t, "/a/param1/param2/param3");
  }

  lemma StaticLastSegment(t: Tree<int>, q: string)
    requires t == Tree(BothArena(), map[], map['/' := 0]) && q == "/a/param1/param2/d"
    ensures Search(t, q) == Some(Match(Some(2), map["b" := "param1", "c" := "param2"]))
  {
    SearchToBranch(t, q);
    BranchTakesStatic(t.nodes, q);
  }

  lemma ParamLastSegment(t: Tree<int>, q: string)
    requires t == Tree(BothArena(), map[], map['/' := 0]) && q == "/a/param1/param2/param3"
    ensures Search(t, q) == Some(Match(Some(1), map["b" := "param1", "c" := "param2", "d" := "param3"]))
  {
    SearchToBranch(t, q);
    ParamTakesLastSegment(t.nodes, q);
  }

  /** On the same trie, a last segment that starts like the static child but
      goes on past it is answered by the parameter route after the static
      attempt fails. */
  lemma StaticAttemptFallsBack()
    ensures Search(Insert(Insert(Empty(), "/a/:b/:c/:d", 1), "/a/:b/:c/d", 2), "/a/param1/param2/dx")
      == Some(Match(Some(1), map["b" := "param1", "c" := "param2", "d" := "dx"]))
  {
    BothRoutesTree();
    FallbackLastSegment(Tree(BothArena(), map[], map['/' := 0]), "/a/param1/param2/dx");
  }

  lemma FallbackLastSegment(t: Tree<int>, q: string)
    requires t == Tree(BothArena(), map[], map['/' := 0]) && q == "/a/param1/param2/dx"
    ensures Search(t, q) == Some(Match(Some(1), map["b" := "param1", "c" := "param2", "d" := "dx"]))
  {
    SearchToBranch(t, q);
    BranchFallsBackToParam(t.nodes, q);
  }
}
