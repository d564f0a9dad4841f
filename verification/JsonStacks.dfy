/**
  Main results about the parsing loop: it accepts exactly the language of the
  grammar, refuses a token as soon as no document can continue with it, keeps
  its two stacks coupled, and needs three slots more than the nesting depth.
 */
module JsonStacks {
  import opened Common
  import opened JsonValue
  import opened JsonGrammar
  import opened JsonMachine
  import opened JsonBuild

  const START: Conf := Conf([Document], [])

  predicate TokensOk(toks: seq<Token>) {
    forall i {:trigger toks[i]} :: 0 <= i < |toks| ==> TokenOk(toks[i])
  }

  /** The tokens are a whole document of the grammar. */
  ghost predicate IsDocument(toks: seq<Token>) {
    exists t: Tree :: Parses(t, toks)
  }

  ghost predicate Parses(t: Tree, toks: seq<Token>) {
    Derivation(t) && Root(t).Document? && Yield(t) == toks
  }

  predicate Accepted(toks: seq<Token>) {
    Run(START, toks).Some? && Run(START, toks).value.stack == []
  }

  /** The parser accepts what the grammar derives, and builds the value of the derivation. */
  lemma AcceptsDerived(t: Tree, toks: seq<Token>)
    requires Parses(t, toks)
    ensures Run(START, toks) == Some(Conf([], [Val(ValueOf(t))]))
  {
    FollowsTree(t, [], [], []);
    EffectOfValue(t, []);
    assert toks + [] == toks && [Root(t)] + [] == [Document];
    assert [Val(ValueOf(t))] + [] == [Val(ValueOf(t))];
  }

  /** Exactly the documents of the grammar are accepted. */
  lemma AcceptsExactly(toks: seq<Token>)
    requires TokensOk(toks)
    ensures Accepted(toks) <==> IsDocument(toks)
  {
    if Accepted(toks) {
      var ts := AcceptedDerives(START, toks);
      assert |ts| == 1 && ts[1..] == [];
      assert Yields(ts) == Yield(ts[0]) + [];
      assert Parses(ts[0], toks);
    }
    if IsDocument(toks) {
      var t :| Parses(t, toks);
      AcceptsDerived(t, toks);
    }
  }

  /** Some derivation of each symbol, to show that every stack can still be completed. */
  function Shortest(s: Sym): (t: Tree) {
    match s
    case Document => Node(2, [Shortest2(Array)])
    case Value => Node(7, [Leaf(Token(Ident, JNull))])
    case ObjElems => Node(11, [Shortest2(ObjElem), Shortest2(ObjTail)])
    case ArrElems => Node(18, [Shortest2(Value), Shortest2(ArrTail)])
    case _ => Shortest2(s)
  }

  function Shortest2(s: Sym): (t: Tree) {
    match s
    case Object => Node(8, [Leaf(Token(BeginObject, JNull)), Node(9, [Leaf(Token(EndObject, JNull))])])
    case Array => Node(15, [Leaf(Token(BeginArray, JNull)), Node(16, [Leaf(Token(EndArray, JNull))])])
    case ObjBody => Node(9, [Leaf(Token(EndObject, JNull))])
    case ObjTail => Node(13, [Leaf(Token(EndObject, JNull))])
    case ObjElem =>
      Node(14, [Leaf(Token(Str, JString([]))), Leaf(Token(NameSep, JNull)), Node(7, [Leaf(Token(Ident, JNull))])])
    case ArrBody => Node(16, [Leaf(Token(EndArray, JNull))])
    case ArrTail => Node(20, [Leaf(Token(EndArray, JNull))])
    case Value => Node(7, [Leaf(Token(Ident, JNull))])
    case _ => Leaf(Token(s, JString([])))
  }

  lemma Forest1(a: Tree)
    ensures Roots([a]) == [Root(a)] && (Derivations([a]) <==> Derivation(a))
  {
    assert [a][1..] == [];
  }

  lemma Forest2(a: Tree, b: Tree)
    ensures Roots([a, b]) == [Root(a), Root(b)] && (Derivations([a, b]) <==> Derivation(a) && Derivation(b))
  {
    assert [a, b][1..] == [b];
    Forest1(b);
  }

  lemma Forest3(a: Tree, b: Tree, c: Tree)
    ensures Roots([a, b, c]) == [Root(a), Root(b), Root(c)]
    ensures Derivations([a, b, c]) <==> Derivation(a) && Derivation(b) && Derivation(c)
  {
    assert [a, b, c][1..] == [b, c];
    Forest2(b, c);
  }

  lemma Shortest2Derives(s: Sym)
    requires !s.Document? && !s.ObjElems? && !s.ArrElems?
    ensures Derivation(Shortest2(s)) && Root(Shortest2(s)) == s
  {
    hide Derivations, Roots;
    var t := Shortest2(s);
    if t.Node? {
      if |t.kids| == 1 {
        Forest1(t.kids[0]);
      } else if |t.kids| == 2 {
        Forest2(t.kids[0], t.kids[1]);
        Forest1(t.kids[1].kids[0]);
      } else {
        Forest3(t.kids[0], t.kids[1], t.kids[2]);
        Forest1(t.kids[2].kids[0]);
      }
    }
  }

  lemma ShortestDerives(s: Sym)
    ensures Derivation(Shortest(s)) && Root(Shortest(s)) == s
  {
    hide Derivations, Roots, Shortest2;
    var t := Shortest(s);
    match s
    case Document => Shortest2Derives(Array); Forest1(t.kids[0]);
    case Value => Forest1(t.kids[0]);
    case ObjElems => Shortest2Derives(ObjElem); Shortest2Derives(ObjTail); Forest2(t.kids[0], t.kids[1]);
    case ArrElems => Shortest2Derives(Value); Shortest2Derives(ArrTail); Forest2(t.kids[0], t.kids[1]);
    case _ => Shortest2Derives(s);
  }

  lemma {:induction false} StackDerives(stack: seq<Sym>) returns (ts: seq<Tree>)
    ensures Derivations(ts) && Roots(ts) == stack
  {
    if stack == [] {
      ts := [];
    } else {
      hide Shortest, Derivation;
      var us := StackDerives(stack[1..]);
      ShortestDerives(stack[0]);
      ts := [Shortest(stack[0])] + us;
      assert ts[1..] == us;
    }
  }

  lemma {:induction false} YieldOk(t: Tree)
    requires Derivation(t)
    ensures TokensOk(Yield(t))
    decreases t
  {
    match t
    case Leaf(_) =>
    case Node(_, kids) => YieldsOk(kids);
  }

  lemma {:induction false} YieldsOk(ts: seq<Tree>)
    requires Derivations(ts)
    ensures TokensOk(Yields(ts))
    decreases ts
  {
    if ts != [] {
      YieldOk(ts[0]);
      YieldsOk(ts[1..]);
    }
  }

  /** The first refused token is the first one that no document continues with. */
  lemma RefusesEarly(toks: seq<Token>)
    requires TokensOk(toks)
    ensures Run(START, toks).Some? <==>
            exists more {:trigger IsDocument(toks + more)} :: TokensOk(more) && IsDocument(toks + more)
  {
    hide IsDocument;
    if Run(START, toks).Some? {
      var c := Run(START, toks).value;
      var ts := StackDerives(c.stack);
      var more := Yields(ts);
      YieldsOk(ts);
      FollowsTrees(ts, [], c.build, []);
      assert more + [] == more && Roots(ts) + [] == c.stack;
      RunTwice(START, toks, more);
      AcceptsExactly(toks + more);
      assert IsDocument(toks + more);
    }
    if more :| TokensOk(more) && IsDocument(toks + more) {
      AcceptsExactly(toks + more);
      RunTwice(START, toks, more);
    }
  }

  // The coupling of the two stacks.

  /** Below the pairs of the innermost object; None if they are not pairs down to an object marker. */
  function AfterObject(build: seq<Item>): Option<seq<Item>> {
    if build == [] then None
    else if build[0].ObjMark? then Some(build[1..])
    else if |build| == 1 || !build[0].Val? || !IsKey(build[1]) then None
    else AfterObject(build[2..])
  }

  function AfterArray(build: seq<Item>): Option<seq<Item>> {
    if build == [] then None
    else if build[0].ArrMark? then Some(build[1..])
    else if !build[0].Val? then None
    else AfterArray(build[1..])
  }

  /** The build stack holds, for each open container on the symbol stack, its marker and the values read so far. */
  predicate Mirror(stack: seq<Sym>, build: seq<Item>)
    decreases |stack|, 0
  {
    if stack == [] then |build| == 1 && build[0].Val?
    else
      var top, rest := stack[0], stack[1..];
      if Terminal(top) then Mirror(rest, build)
      else if ValueSym(top) then (top.Document? ==> rest == []) && Awaits(rest, build)
      else if top.ObjElem? then rest != [] && rest[0].ObjTail? && Mirror(rest, build)
      else
        var after := if ObjectRest(top) then AfterObject(build) else AfterArray(build);
        after.Some? && Awaits(rest, after.value)
  }

  /** A value is to come here: at the bottom, after a key of an object, or in an array. */
  predicate Awaits(stack: seq<Sym>, build: seq<Item>)
    decreases |stack|, 1
  {
    if stack == [] then build == []
    else if stack[0].ObjTail? then build != [] && IsKey(build[0]) && Mirror(stack, build[1..])
    else stack[0].ArrTail? && Mirror(stack, build)
  }

  /** When a value arrives where it is awaited, the stacks are coupled again. */
  lemma ValueArrives(stack: seq<Sym>, build: seq<Item>, v: Json)
    requires Awaits(stack, build)
    ensures Mirror(stack, [Val(v)] + build)
  {
    var b := [Val(v)] + build;
    assert b[1..] == build;
    if stack != [] && stack[0].ObjTail? {
      assert b[2..] == build[1..];
    }
  }

  /** In a coupled state an end action stops at its own marker: one value replaces the container. */
  lemma {:induction false} EndObjectStops(build: seq<Item>, ms: seq<Member>) returns (v: Json)
    requires AfterObject(build).Some?
    ensures v.JObject? && CloseObject(build, ms) == [Val(v)] + AfterObject(build).value
  {
    if build[0].ObjMark? {
      v := JObject(ms);
    } else {
      v := EndObjectStops(build[2..], AddMember(ms, CString(build[1].v.s), AsJson(build[0])));
    }
  }

  lemma {:induction false} EndArrayStops(build: seq<Item>, vs: seq<Json>) returns (v: Json)
    requires AfterArray(build).Some?
    ensures v.JArray? && CloseArray(build, vs) == [Val(v)] + AfterArray(build).value
  {
    if build[0].ArrMark? {
      v := JArray(vs);
    } else {
      v := EndArrayStops(build[1..], [AsJson(build[0])] + vs);
    }
  }

  /** An expansion with its action keeps the stacks coupled. */
  lemma ExpansionMirrors(stack: seq<Sym>, build: seq<Item>, tok: Token)
    requires stack != [] && Mirror(stack, build) && TokenOk(tok) && Table(stack[0], tok.sym) != 0
    ensures var r := Table(stack[0], tok.sym); Mirror(Rhs(r) + stack[1..], Act(r, tok, build))
  {
    hide CloseObject, CloseArray;
    var r, rest := Table(stack[0], tok.sym), stack[1..];
    var s := Rhs(r) + rest;
    assert s[1..] == Rhs(r)[1..] + rest;
    if r == 9 || r == 13 {
      var v := EndObjectStops(build, []);
      ValueArrives(rest, AfterObject(build).value, v);
      assert s[1..] == rest;
    } else if r == 16 || r == 20 {
      var v := EndArrayStops(build, []);
      ValueArrives(rest, AfterArray(build).value, v);
      assert s[1..] == rest;
    } else if 5 <= r <= 7 {
      ValueArrives(rest, build, tok.val);
      assert s[1..] == rest;
    } else if r == 14 {
      KeyMirrors(rest, build, tok.val);
    } else {
      OpenMirrors(stack, build, tok);
    }
  }

  lemma KeyMirrors(rest: seq<Sym>, build: seq<Item>, key: Json)
    requires rest != [] && rest[0].ObjTail? && Mirror(rest, build) && key.JString?
    ensures Mirror([Str, NameSep, Value] + rest, [Val(key)] + build)
  {
    var b := [Val(key)] + build;
    assert b[1..] == build;
    assert Awaits(rest, b);
    assert ([Value] + rest)[1..] == rest;
    assert Mirror([Value] + rest, b);
    assert ([NameSep, Value] + rest)[1..] == [Value] + rest;
    assert Mirror([NameSep, Value] + rest, b);
    assert ([Str, NameSep, Value] + rest)[1..] == [NameSep, Value] + rest;
  }

  lemma TerminalMirrors(t: Sym, stack: seq<Sym>, build: seq<Item>)
    requires Terminal(t)
    ensures Mirror([t] + stack, build) == Mirror(stack, build)
  {
    assert ([t] + stack)[1..] == stack;
  }

  /** Symbols standing at the same place of the grammar are coupled alike. */
  lemma AlikeMirrors(x: Sym, y: Sym, rest: seq<Sym>, build: seq<Item>)
    requires (ValueSym(x) && ValueSym(y) && !y.Document?) || (ObjectRest(x) && ObjectRest(y))
             || (ArrayRest(x) && ArrayRest(y))
    requires Mirror([x] + rest, build)
    ensures Mirror([y] + rest, build)
  {
    assert ([x] + rest)[1..] == rest && ([y] + rest)[1..] == rest;
  }

  /** An opened container has its marker on top of the build stack. */
  lemma ContainerMirrors(rest: seq<Sym>, build: seq<Item>)
    requires Awaits(rest, build)
    ensures Mirror([BeginObject, ObjBody] + rest, [ObjMark] + build)
    ensures Mirror([BeginArray, ArrBody] + rest, [ArrMark] + build)
  {
    assert ([ObjMark] + build)[1..] == build && ([ArrMark] + build)[1..] == build;
    assert ([ObjBody] + rest)[1..] == rest && ([ArrBody] + rest)[1..] == rest;
    TerminalMirrors(BeginObject, [ObjBody] + rest, [ObjMark] + build);
    TerminalMirrors(BeginArray, [ArrBody] + rest, [ArrMark] + build);
    assert [BeginObject] + ([ObjBody] + rest) == [BeginObject, ObjBody] + rest;
    assert [BeginArray] + ([ArrBody] + rest) == [BeginArray, ArrBody] + rest;
  }

  /** A first element or member comes before the rest of its container. */
  lemma ElementMirrors(tail: Sym, rest: seq<Sym>, build: seq<Item>)
    requires tail.ObjTail? || tail.ArrTail?
    requires Mirror([tail] + rest, build)
    ensures Mirror([if tail.ObjTail? then ObjElem else Value, tail] + rest, build)
  {
    var s := [if tail.ObjTail? then ObjElem else Value, tail] + rest;
    assert s[1..] == [tail] + rest;
  }

  lemma OpenMirrors(stack: seq<Sym>, build: seq<Item>, tok: Token)
    requires stack != [] && Mirror(stack, build) && TokenOk(tok)
    requires Table(stack[0], tok.sym) in {1, 2, 3, 4, 8, 10, 11, 12, 15, 17, 18, 19}
    ensures var r := Table(stack[0], tok.sym); Mirror(Rhs(r) + stack[1..], Act(r, tok, build))
  {
    var r, top, rest := Table(stack[0], tok.sym), stack[0], stack[1..];
    assert stack == [top] + rest;
    if r == 8 || r == 15 {
      assert Awaits(rest, build);
      ContainerMirrors(rest, build);
    } else {
      LikeMirrors(r, top, rest, build);
      hide Mirror, CloseObject, CloseArray;
      assert Act(r, tok, build) == build;
    }
  }

  /** The rules that go on with the same container, or with a value inside it. */
  lemma LikeMirrors(r: Rule, top: Sym, rest: seq<Sym>, build: seq<Item>)
    requires r in {1, 2, 3, 4, 10, 11, 12, 17, 18, 19} && top == Lhs(r) && Mirror([top] + rest, build)
    ensures Mirror(Rhs(r) + rest, build)
  {
    hide Mirror;
    if |Rhs(r)| == 1 {
      AlikeMirrors(top, Rhs(r)[0], rest, build);
    } else {
      var y := Rhs(r)[1];
      AlikeMirrors(top, y, rest, build);
      if r == 12 || r == 19 {
        TerminalMirrors(ValueSep, [y] + rest, build);
        assert [ValueSep] + ([y] + rest) == Rhs(r) + rest;
      } else {
        ElementMirrors(y, rest, build);
      }
    }
  }

  /** Every accepted token keeps the stacks coupled. */
  lemma {:induction false} ConsumeMirrors(c: Conf, tok: Token)
    requires Mirror(c.stack, c.build) && TokenOk(tok)
    ensures Consume(c, tok).Matched? ==> Mirror(Consume(c, tok).conf.stack, Consume(c, tok).conf.build)
    decreases if c.stack == [] then 0 else Rank(c.stack[0])
  {
    hide Act;
    if c.stack != [] && c.stack[0] != tok.sym {
      var r := Table(c.stack[0], tok.sym);
      if r != 0 {
        ExpansionMirrors(c.stack, c.build, tok);
        ConsumeMirrors(Conf(Rhs(r) + c.stack[1..], Act(r, tok, c.build)), tok);
      }
    }
  }
}
