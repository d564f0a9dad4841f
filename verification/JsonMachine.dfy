/**
  The LL(1) parsing loop: a symbol stack driven by the tables, coupled to a
  build stack on which the rules' actions assemble the value. Both stacks are
  written top first.
 */
module JsonMachine {
  import opened Common
  import opened JsonValue
  import opened JsonGrammar

  /** What the build stack holds: values and the two start markers. */
  datatype Item = Val(v: Json) | ObjMark | ArrMark

  /** A marker read as a value has tag 0, which is null. */
  function AsJson(i: Item): Json {
    if i.Val? then i.v else JNull
  }

  /** Pop key and value pairs into a new object, down to the object marker. */
  function CloseObject(build: seq<Item>, ms: seq<Member>): seq<Item> {
    if build == [] then [Val(JObject(ms))]
    else if build[0].ObjMark? then [Val(JObject(ms))] + build[1..]
    else if |build| == 1 then [Val(JObject(ms))]
    else if !IsKey(build[1]) then [Val(JObject(ms))] + build[2..]
    else CloseObject(build[2..], AddMember(ms, CString(build[1].v.s), AsJson(build[0])))
  }

  predicate IsKey(i: Item) {
    i.Val? && i.v.JString?
  }

  /** Pop values into a new array, down to the array marker. */
  function CloseArray(build: seq<Item>, items: seq<Json>): seq<Item> {
    if build == [] then [Val(JArray(items))]
    else if build[0].ArrMark? then [Val(JArray(items))] + build[1..]
    else CloseArray(build[1..], [AsJson(build[0])] + items)
  }

  /** The action attached to a rule. */
  function Act(r: Rule, tok: Token, build: seq<Item>): seq<Item> {
    if r == 5 || r == 6 || r == 7 || r == 14 then [Val(tok.val)] + build
    else if r == 8 then [ObjMark] + build
    else if r == 9 || r == 13 then CloseObject(build, [])
    else if r == 15 then [ArrMark] + build
    else if r == 16 || r == 20 then CloseArray(build, [])
    else build
  }

  datatype Conf = Conf(stack: seq<Sym>, build: seq<Item>)

  datatype Outcome = Matched(conf: Conf) | Stuck(conf: Conf)

  /** Process one token: expand the top symbol until it is the token, or report that it cannot be. */
  function Consume(c: Conf, tok: Token): (o: Outcome)
    decreases if c.stack == [] then 0 else Rank(c.stack[0])
  {
    if c.stack == [] then Stuck(c)
    else
      var top, rest := c.stack[0], c.stack[1..];
      if top == tok.sym then Matched(Conf(rest, c.build))
      else
        var rule := Table(top, tok.sym);
        if rule == 0 then Stuck(Conf(rest, c.build))
        else Consume(Conf(Rhs(rule) + rest, Act(rule, tok, c.build)), tok)
  }

  /** A run over several tokens; None once one of them is refused. */
  function Run(c: Conf, toks: seq<Token>): Option<Conf>
    decreases |toks|
  {
    if toks == [] then Some(c)
    else
      var o := Consume(c, toks[0]);
      if o.Stuck? then None else Run(o.conf, toks[1..])
  }

  lemma {:induction false} RunTwice(c: Conf, a: seq<Token>, b: seq<Token>)
    ensures Run(c, a + b) == (if Run(c, a).None? then None else Run(Run(c, a).value, b))
    decreases |a|
  {
    if a == [] {
      assert a + b == b;
    } else {
      assert (a + b)[1..] == a[1..] + b;
      var o := Consume(c, a[0]);
      if o.Matched? { RunTwice(o.conf, a[1..], b); }
    }
  }

  /** What a derivation does to the build stack: the actions in preorder. */
  function Effect(t: Tree, build: seq<Item>): seq<Item>
    requires Derivation(t)
    decreases t
  {
    match t
    case Leaf(_) => build
    case Node(r, kids) =>
      YieldStarts(t);
      Effects(kids, Act(r, Yield(t)[0], build))
  }

  function Effects(ts: seq<Tree>, build: seq<Item>): seq<Item>
    requires Derivations(ts)
    decreases ts
  {
    if ts == [] then build else Effects(ts[1..], Effect(ts[0], build))
  }

  /** The expansion of the top symbol by a rule, seen from the machine. */
  lemma RunExpands(c: Conf, toks: seq<Token>)
    requires c.stack != [] && toks != [] && TokenOk(toks[0]) && !Terminal(c.stack[0])
    requires Table(c.stack[0], toks[0].sym) != 0
    ensures var rule := Table(c.stack[0], toks[0].sym);
            Run(c, toks) == Run(Conf(Rhs(rule) + c.stack[1..], Act(rule, toks[0], c.build)), toks)
  {
  }

  /** Completeness, one tree: the machine follows the derivation of its top symbol. */
  lemma {:induction false} FollowsTree(t: Tree, rest: seq<Sym>, build: seq<Item>, w: seq<Token>)
    requires Derivation(t)
    ensures Run(Conf([Root(t)] + rest, build), Yield(t) + w) == Run(Conf(rest, Effect(t, build)), w)
    decreases t
  {
    var toks := Yield(t) + w;
    var c := Conf([Root(t)] + rest, build);
    assert c.stack[1..] == rest;
    match t
    case Leaf(tok) =>
      assert toks[0] == tok && toks[1..] == w;
    case Node(r, kids) =>
      YieldStarts(t);
      FirstSelects(t);
      RunExpands(c, toks);
      FollowsTrees(kids, rest, Act(r, toks[0], build), w);
  }

  lemma {:induction false} FollowsTrees(ts: seq<Tree>, rest: seq<Sym>, build: seq<Item>, w: seq<Token>)
    requires Derivations(ts)
    ensures Run(Conf(Roots(ts) + rest, build), Yields(ts) + w) == Run(Conf(rest, Effects(ts, build)), w)
    decreases ts
  {
    if ts == [] {
      assert Roots(ts) + rest == rest && Yields(ts) + w == w;
    } else {
      assert Roots(ts) + rest == [Root(ts[0])] + (Roots(ts[1..]) + rest);
      assert Yields(ts) + w == Yield(ts[0]) + (Yields(ts[1..]) + w);
      FollowsTree(ts[0], Roots(ts[1..]) + rest, build, Yields(ts[1..]) + w);
      FollowsTrees(ts[1..], rest, Effect(ts[0], build), w);
    }
  }

  lemma FirstSelects(t: Tree)
    requires Derivation(t) && t.Node?
    ensures Yield(t) != [] && TokenOk(Yield(t)[0]) && Table(Root(t), Yield(t)[0].sym) == t.rule
  {
    YieldStarts(t.kids[0]);
    assert Roots(t.kids)[0] == Root(t.kids[0]);
    TableSelects(t.rule, Yield(t.kids[0])[0].sym);
  }

  /** Soundness: an accepted run is the yield of derivations of the symbols on the stack. */
  lemma {:induction false} AcceptedDerives(c: Conf, toks: seq<Token>) returns (ts: seq<Tree>)
    requires forall i :: 0 <= i < |toks| ==> TokenOk(toks[i])
    requires Run(c, toks).Some? && Run(c, toks).value.stack == []
    ensures Derivations(ts) && Roots(ts) == c.stack && Yields(ts) == toks
    ensures Run(c, toks).value.build == Effects(ts, c.build)
    decreases |toks|, if c.stack == [] then 0 else Rank(c.stack[0])
  {
    if c.stack == [] {
      ts := [];
    } else {
      var top, rest := c.stack[0], c.stack[1..];
      assert toks != [];
      if top == toks[0].sym {
        var us := AcceptedDerives(Conf(rest, c.build), toks[1..]);
        ts := [Leaf(toks[0])] + us;
        assert ts[1..] == us;
      } else {
        var rule := Table(top, toks[0].sym);
        var d := Conf(Rhs(rule) + rest, Act(rule, toks[0], c.build));
        var us := AcceptedDerives(d, toks);
        ts := Gather(rule, us, rest, toks[0], c.build);
      }
    }
  }

  /** The first derivations, one for each symbol of a right-hand side, become one derivation. */
  lemma Gather(rule: Rule, us: seq<Tree>, rest: seq<Sym>, first: Token, build: seq<Item>) returns (ts: seq<Tree>)
    requires Derivations(us) && Roots(us) == Rhs(rule) + rest
    requires Yields(us) != [] && Yields(us)[0] == first
    ensures Derivations(ts) && Roots(ts) == [Lhs(rule)] + rest && Yields(ts) == Yields(us)
    ensures Effects(ts, build) == Effects(us, Act(rule, first, build))
  {
    var k := |Rhs(rule)|;
    assert us == us[..k] + us[k..];
    CutForest(us[..k], us[k..], Act(rule, first, build));
    var t := Node(rule, us[..k]);
    assert Roots(us[..k]) == (Rhs(rule) + rest)[..k] == Rhs(rule);
    assert Roots(us[k..]) == (Rhs(rule) + rest)[k..] == rest;
    ts := [t] + us[k..];
    assert ts[1..] == us[k..];
    YieldStarts(t);
    assert Yields(us)[0] == Yield(t)[0];
  }

  lemma {:induction false} CutForest(a: seq<Tree>, b: seq<Tree>, build: seq<Item>)
    requires Derivations(a + b)
    ensures Derivations(a) && Derivations(b)
    ensures Roots(a + b) == Roots(a) + Roots(b)
    ensures Yields(a + b) == Yields(a) + Yields(b)
    ensures Effects(a + b, build) == Effects(b, Effects(a, build))
    decreases |a|
  {
    hide Effect, Derivation, Yield, Root;
    if a == [] {
      assert a + b == b;
    } else {
      var c := a[1..];
      assert (a + b)[0] == a[0] && (a + b)[1..] == c + b;
      CutForest(c, b, Effect(a[0], build));
    }
  }
}
