/**
  Which documents fit the symbol stack: exactly those with no container nested
  deeper than 127 and no object that has members nested deeper than 125.
 */
module JsonDepth {
  import opened Common
  import opened Keys
  import opened JsonValue
  import opened JsonGrammar
  import opened JsonMachine
  import opened JsonBuild
  import opened JsonStacks
  import opened JsonHeight
  import opened JsonText
  import opened JsonLexer
  import opened JsonRoundTrip
  import opened JsonParser

  const MAX_DEPTH: nat := 127
  const MAX_KEY_DEPTH: nat := 125

  function Max(a: nat, b: nat): nat {
    if a < b then b else a
  }

  // Derivations: the slots they need.

  /** The greatest height along a run; 0 if there is no token. */
  function Top(c: Conf, toks: seq<Token>): nat
    decreases |toks|
  {
    if toks == [] then 0
    else
      var o := Consume(c, toks[0]);
      Max(Peak(c, toks[0]), if o.Matched? then Top(o.conf, toks[1..]) else 0)
  }

  /** Slots a derivation needs on top of what is on the stack below its root. */
  function Slots(t: Tree): (n: nat)
    ensures n >= 1
    decreases t
  {
    match t
    case Leaf(_) => 1
    case Node(_, kids) => Max(1, SlotsOfAll(kids))
  }

  /** While one derivation is worked on, the roots of the later ones wait below it. */
  function SlotsOfAll(ts: seq<Tree>): (n: nat)
    ensures n >= |ts|
    decreases ts
  {
    if ts == [] then 0 else Max(Slots(ts[0]) + |ts| - 1, SlotsOfAll(ts[1..]))
  }

  /** The run over the yield of a derivation goes exactly as high as its slots say. */
  lemma {:induction false} TopOfTree(t: Tree, rest: seq<Sym>, build: seq<Item>, w: seq<Token>)
    requires Derivation(t)
    ensures Top(Conf([Root(t)] + rest, build), Yield(t) + w) ==
            Max(|rest| + Slots(t), Top(Conf(rest, Effect(t, build)), w))
    decreases t, 1
  {
    hide Top, Consume, Peak, Effect, Act, Max;
    match t
    case Leaf(tok) =>
      TopOfLeaf(tok, rest, build, w);
      EffectOfLeaf(t, build);
    case Node(r, kids) =>
      FirstSelects(t);
      var tok := Yield(t)[0];
      TopExpands(r, rest, build, Yield(t) + w);
      TopOfTrees(kids, rest, Act(r, tok, build), w);
      EffectUnfolds(t, build);
      TreeSlots(t);
      Larger(|rest| + 1, |rest| + Slots(t), Top(Conf(rest, Effect(t, build)), w));
  }

  lemma Larger(a: nat, b: nat, c: nat)
    requires a <= b
    ensures Max(a, Max(b, c)) == Max(b, c)
  {
  }

  lemma TreeSlots(t: Tree)
    requires Derivation(t) && t.Node?
    ensures t.kids != [] && Slots(t) == SlotsOfAll(t.kids)
  {
    KidRoots(t);
  }

  lemma EffectUnfolds(t: Tree, build: seq<Item>)
    requires Derivation(t) && t.Node?
    ensures Yield(t) != [] && Effect(t, build) == Effects(t.kids, Act(t.rule, Yield(t)[0], build))
  {
    YieldStarts(t);
  }

  lemma TopOfLeaf(tok: Token, rest: seq<Sym>, build: seq<Item>, w: seq<Token>)
    ensures Top(Conf([tok.sym] + rest, build), [tok] + w) == Max(|rest| + 1, Top(Conf(rest, build), w))
  {
    assert ([tok.sym] + rest)[1..] == rest && ([tok] + w)[1..] == w;
  }

  /** Expanding the top symbol by the rule of the next token. */
  lemma {:induction false} TopExpands(r: Rule, rest: seq<Sym>, build: seq<Item>, toks: seq<Token>)
    requires toks != [] && TokenOk(toks[0]) && Table(Lhs(r), toks[0].sym) == r
    ensures Top(Conf([Lhs(r)] + rest, build), toks) ==
            Max(|rest| + 1, Top(Conf(Rhs(r) + rest, Act(r, toks[0], build)), toks))
  {
    hide Act;
    var c, d := Conf([Lhs(r)] + rest, build), Conf(Rhs(r) + rest, Act(r, toks[0], build));
    assert c.stack[1..] == rest;
    assert Consume(c, toks[0]) == Consume(d, toks[0]);
    assert Peak(c, toks[0]) == Max(|rest| + 1, Peak(d, toks[0]));
  }

  lemma {:induction false} TopOfTrees(ts: seq<Tree>, rest: seq<Sym>, build: seq<Item>, w: seq<Token>)
    requires Derivations(ts)
    ensures Top(Conf(Roots(ts) + rest, build), Yields(ts) + w) ==
            if ts == [] then Top(Conf(rest, build), w)
            else Max(|rest| + SlotsOfAll(ts), Top(Conf(rest, Effects(ts, build)), w))
    decreases ts, 1
  {
    hide Top, Effects, SlotsOfAll, Max;
    if ts == [] {
      assert Roots(ts) + rest == rest && Yields(ts) + w == w;
    } else {
      TopOfMore(ts, rest, build, w);
    }
  }

  lemma {:induction false} TopOfMore(ts: seq<Tree>, rest: seq<Sym>, build: seq<Item>, w: seq<Token>)
    requires Derivations(ts) && ts != []
    ensures Top(Conf(Roots(ts) + rest, build), Yields(ts) + w) ==
            Max(|rest| + SlotsOfAll(ts), Top(Conf(rest, Effects(ts, build)), w))
    decreases ts, 0
  {
    hide *;
    ForestUnfolds(ts, build);
    var t, us := ts[0], ts[1..];
    assert Roots(ts) + rest == [Root(t)] + (Roots(us) + rest) && Yields(ts) + w == Yield(t) + (Yields(us) + w);
    TopOfTree(t, Roots(us) + rest, build, Yields(us) + w);
    TopOfTrees(us, rest, Effect(t, build), w);
    MaxSplit(|rest|, |us| + Slots(t), SlotsOfAll(us), Top(Conf(rest, Effects(ts, build)), w));
    assert |Roots(us) + rest| == |us| + |rest|;
  }

  lemma ForestUnfolds(ts: seq<Tree>, build: seq<Item>)
    requires Derivations(ts) && ts != []
    ensures var t, us := ts[0], ts[1..];
            && Derivation(t) && Derivations(us)
            && Roots(ts) == [Root(t)] + Roots(us) && Yields(ts) == Yield(t) + Yields(us)
            && Effects(ts, build) == Effects(us, Effect(t, build))
            && SlotsOfAll(ts) == Max(|us| + Slots(t), SlotsOfAll(us))
              && (us == [] ==> SlotsOfAll(us) == 0 && Effects(us, Effect(t, build)) == Effect(t, build))
  {
    hide Effect, Derivation, Yield, Slots;
  }

  lemma MaxSplit(n: nat, a: nat, b: nat, c: nat)
    ensures Max(n + a, Max(n + b, c)) == Max(n + Max(a, b), c)
    ensures Max(n + a, c) == Max(n + Max(a, 0), c)
  {
  }

  /** A document of the grammar needs exactly the slots of its derivation. */
  lemma DocumentNeeds(t: Tree, toks: seq<Token>)
    requires Parses(t, toks)
    ensures Top(START, toks) == Slots(t)
  {
    hide Top, Slots;
    TopOfTree(t, [], [], []);
    assert [Root(t)] + [] == START.stack && Yield(t) + [] == toks;
    TopOfNothing(Conf([], Effect(t, [])));
  }

  lemma TopOfNothing(c: Conf)
    ensures Top(c, []) == 0
  {
  }

  // Documents: their depth.

  /** The deepest nesting of a container. */
  function Depth(n: Json): nat {
    match n
    case JArray(items) => 1 + DepthOfItems(items)
    case JObject(ms) => 1 + DepthOfMembers(ms)
    case _ => 0
  }

  function DepthOfItems(items: seq<Json>): nat {
    if items == [] then 0 else Max(Depth(items[0]), DepthOfItems(items[1..]))
  }

  function DepthOfMembers(ms: seq<Member>): nat {
    if ms == [] then 0 else Max(Depth(ms[0].value), DepthOfMembers(ms[1..]))
  }

  function Below(d: nat): nat {
    if d == 0 then 0 else d + 1
  }

  /** The deepest nesting of an object that has members; 0 if there is none. */
  function KeyDepth(n: Json): nat {
    match n
    case JArray(items) => Below(KeyDepthOfItems(items))
    case JObject(ms) => if ms == [] then 0 else 1 + KeyDepthOfMembers(ms)
    case _ => 0
  }

  function KeyDepthOfItems(items: seq<Json>): nat {
    if items == [] then 0 else Max(KeyDepth(items[0]), KeyDepthOfItems(items[1..]))
  }

  function KeyDepthOfMembers(ms: seq<Member>): nat {
    if ms == [] then 0 else Max(KeyDepth(ms[0].value), KeyDepthOfMembers(ms[1..]))
  }

  /** One slot more than the containers, or three more than the objects with members. */
  function Need(depth: nat, keyDepth: nat): nat {
    Max(depth + 1, if keyDepth == 0 then 0 else keyDepth + 3)
  }

  lemma NodeSlots(r: Rule, kids: seq<Tree>)
    ensures Slots(Node(r, kids)) == Max(1, SlotsOfAll(kids))
  {
  }

  lemma LeafSlots(t: Tree)
    ensures t.Leaf? ==> Slots(t) == 1
  {
  }

  lemma Slots1(a: Tree)
    ensures SlotsOfAll([a]) == Slots(a)
  {
    assert [a][1..] == [];
  }

  lemma Slots2(a: Tree, b: Tree)
    ensures SlotsOfAll([a, b]) == Max(Slots(a) + 1, Slots(b))
  {
    assert [a, b][1..] == [b];
    Slots1(b);
  }

  lemma Slots3(a: Tree, b: Tree, c: Tree)
    ensures SlotsOfAll([a, b, c]) == Max(Slots(a) + 2, Max(Slots(b) + 1, Slots(c)))
  {
    assert [a, b, c][1..] == [b, c];
    Slots2(b, c);
  }

  lemma {:induction false} SlotsOfValue(n: Json)
    ensures Slots(TreeOf(n)) == Need(Depth(n), KeyDepth(n))
    decreases n, 1
  {
    hide SlotsOfAll;
    Slots1(TreeOf(n).kids[0]);
    if n.JArray? || n.JObject? {
      SlotsOfContainer(n);
    }
  }

  lemma {:induction false} SlotsOfContainer(n: Json)
    requires n.JArray? || n.JObject?
    ensures Slots(ContainerTree(n)) == Need(Depth(n), KeyDepth(n))
    decreases n, 0
  {
    hide SlotsOfAll, Slots, ElementsTree, MembersTree;
    var t := ContainerTree(n);
    NodeSlots(t.rule, t.kids);
    NodeSlots(t.kids[1].rule, t.kids[1].kids);
    LeafSlots(t.kids[0]);
    LeafSlots(t.kids[1].kids[0]);
    Slots2(t.kids[0], t.kids[1]);
    Slots1(t.kids[1].kids[0]);
    if n.JArray? && n.items != [] {
      SlotsOfElements(n.items);
    }
    if n.JObject? && n.members != [] {
      SlotsOfMembers(n.members);
    }
  }

  lemma ElementsSlots(items: seq<Json>)
    requires items != []
    ensures Slots(ElementsTree(items)) ==
            Max(Slots(TreeOf(items[0])) + 1, if |items| == 1 then 1 else Max(2, Slots(ElementsTree(items[1..]))))
    ensures |items| == 1 ==> DepthOfItems(items[1..]) == 0 && KeyDepthOfItems(items[1..]) == 0
  {
    hide TreeOf, Slots, SlotsOfAll;
    var t := ElementsTree(items);
    NodeSlots(t.rule, t.kids);
    TailSlots(20, 19, EndArray, t.kids[1], if |items| == 1 then t else ElementsTree(items[1..]));
    Slots2(t.kids[0], t.kids[1]);
  }

  lemma {:induction false} SlotsOfElements(items: seq<Json>)
    requires items != []
    ensures Slots(ElementsTree(items)) == 1 + Need(DepthOfItems(items), KeyDepthOfItems(items))
    decreases items, 0
  {
    hide Slots, ElementsTree, TreeOf, Depth, KeyDepth;
    ElementsSlots(items);
    SlotsOfValue(items[0]);
    if |items| > 1 {
      SlotsOfElements(items[1..]);
    }
  }

  /** What follows the first element or member: the end, or a separator and the others. */
  lemma TailSlots(last: Rule, more: Rule, end: Sym, tail: Tree, others: Tree)
    ensures tail == Node(last, [Punct(end)]) ==> Slots(tail) == 1
    ensures tail == Node(more, [Punct(ValueSep), others]) ==> Slots(tail) == Max(2, Slots(others))
  {
    hide SlotsOfAll;
    Slots1(Punct(end));
    Slots2(Punct(ValueSep), others);
  }

  lemma {:induction false} SlotsOfMember(m: Member)
    ensures Slots(MemberTree(m)) == Max(3, Need(Depth(m.value), KeyDepth(m.value)))
    decreases m, 0
  {
    hide SlotsOfAll;
    var t := MemberTree(m);
    Slots3(t.kids[0], t.kids[1], t.kids[2]);
    SlotsOfValue(m.value);
  }

  lemma MembersSlots(ms: seq<Member>)
    requires ms != []
    ensures Slots(MembersTree(ms)) ==
            Max(Slots(MemberTree(ms[0])) + 1, if |ms| == 1 then 1 else Max(2, Slots(MembersTree(ms[1..]))))
    ensures |ms| == 1 ==> DepthOfMembers(ms[1..]) == 0 && KeyDepthOfMembers(ms[1..]) == 0
  {
    hide MemberTree, Slots, SlotsOfAll;
    var t := MembersTree(ms);
    NodeSlots(t.rule, t.kids);
    TailSlots(13, 12, EndObject, t.kids[1], if |ms| == 1 then t else MembersTree(ms[1..]));
    Slots2(t.kids[0], t.kids[1]);
  }

  lemma {:induction false} SlotsOfMembers(ms: seq<Member>)
    requires ms != []
    ensures Slots(MembersTree(ms)) == Max(4, 1 + Need(DepthOfMembers(ms), KeyDepthOfMembers(ms)))
    decreases ms, 0
  {
    hide Slots, MembersTree, MemberTree, Depth, KeyDepth;
    MembersSlots(ms);
    SlotsOfMember(ms[0]);
    if |ms| > 1 {
      SlotsOfMembers(ms[1..]);
    }
  }

  // Texts: what fits.

  /** No token of these makes the stack higher than it may be; none matters after an error. */
  predicate TokensFit(p: Parser, toks: seq<Token>)
    decreases |toks|
  {
    || p.error || toks == []
    || (Peak(p.conf, toks[0]) <= LL_STACK_SIZE && TokensFit(ParseToken(p, toks[0]), toks[1..]))
  }

  /** No byte of the input makes the stack higher than it may be. */
  predicate Fits(p: Parser, data: Text)
    decreases |data|
  {
    || p.error || data == []
    || (TokensFit(p, LexByte(p.lexer, data[0]).toks) && Fits(ParseByte(p, data[0]), data[1..]))
  }

  lemma {:induction false} TokensFitTwice(p: Parser, a: seq<Token>, b: seq<Token>)
    ensures TokensFit(p, a + b) <==> TokensFit(p, a) && TokensFit(ParseTokens(p, a), b)
    decreases |a|
  {
    hide Peak, ParseToken;
    if a == [] {
      assert a + b == b;
    } else {
      assert (a + b)[1..] == a[1..] + b;
      TokensFitTwice(ParseToken(p, a[0]), a[1..], b);
    }
  }

  /** Fitting does not look at the lexer. */
  lemma {:induction false} FitApart(p: Parser, l: Lexer, toks: seq<Token>)
    ensures TokensFit(p.(lexer := l), toks) == TokensFit(p, toks)
    decreases |toks|
  {
    hide Peak, Consume;
    if toks != [] {
      assert ParseToken(p.(lexer := l), toks[0]) == ParseToken(p, toks[0]).(lexer := l);
      FitApart(ParseToken(p, toks[0]), l, toks[1..]);
    }
  }

  /** A text fits if and only if its tokens do. */
  lemma {:induction false} FitsByTokens(p: Parser, data: Text)
    requires !p.error && LexAll(p.lexer, data).ok && !ParseTokens(p, LexAll(p.lexer, data).toks).error
    ensures Fits(p, data) <==> TokensFit(p, LexAll(p.lexer, data).toks)
    decreases |data|
  {
    hide LexByte, ParseToken, Peak;
    if data != [] {
      var r := LexByte(p.lexer, data[0]);
      var more := LexAll(r.next, data[1..]);
      ParseTokensTwice(p, r.toks, more.toks);
      LexerApart(p, r.next, r.toks);
      var q := ParseByte(p, data[0]);
      assert q == ParseTokens(p, r.toks).(lexer := r.next);
      LexerApart(ParseTokens(p, r.toks), r.next, more.toks);
      TokensFitTwice(p, r.toks, more.toks);
      FitApart(ParseTokens(p, r.toks), r.next, more.toks);
      FitsByTokens(q, data[1..]);
    }
  }

  /** Accepted tokens fit if and only if their run does not go too high. */
  lemma {:induction false} TokensFitByTop(p: Parser, toks: seq<Token>)
    requires !p.error && Run(p.conf, toks).Some?
    ensures TokensFit(p, toks) <==> Top(p.conf, toks) <= LL_STACK_SIZE
    decreases |toks|
  {
    hide Consume, Peak;
    if toks != [] {
      var o := Consume(p.conf, toks[0]);
      if o.conf.stack == [] {
        NothingAfter(o.conf, toks[1..]);
      } else {
        TokensFitByTop(p.(conf := o.conf), toks[1..]);
      }
    }
  }

  /** A document fits, in any layout, exactly if its nesting does. */
  lemma DocumentFits(n: Json, pretty: int, multidoc: bool)
    requires (n.JArray? || n.JObject?) && Printable(n) && NulFree(n)
    ensures Fits(Fresh(multidoc), TextOf(n, pretty)) <==> Depth(n) <= MAX_DEPTH && KeyDepth(n) <= MAX_KEY_DEPTH
  {
    var p, t := Fresh(multidoc), DocumentTree(n);
    hide TextOf, ContainerTree, Derivation, Yield, ValueOf, Fits, TokensFit, Top, Depth, KeyDepth;
    LexDocument(n, pretty);
    DocumentValue(n);
    DocumentDone(p, t);
    AcceptsDerived(t, Yield(t));
    FitsByTokens(p, TextOf(n, pretty));
    TokensFitByTop(p, Yield(t));
    DocumentNeeds(t, Yield(t));
    Slots1(ContainerTree(n));
    SlotsOfContainer(n);
  }

  /** What a prefix needs, the whole needs. */
  lemma {:induction false} FitsPrefix(p: Parser, a: Text, b: Text)
    requires Fits(p, a + b)
    ensures Fits(p, a)
    decreases |a|
  {
    hide TokensFit, ParseByte, LexByte;
    if a != [] && !p.error {
      assert (a + b)[1..] == a[1..] + b;
      FitsPrefix(ParseByte(p, a[0]), a[1..], b);
    }
  }

  // The two limits, reached and passed.

  /** n arrays around a value. */
  function Nested(n: nat, v: Json): Json {
    if n == 0 then v else JArray([Nested(n - 1, v)])
  }

  const EMPTY_ARRAY: Json := JArray([])
  const ONE_MEMBER: Json := JObject([Member([], JNull)])

  lemma {:induction false} NestedIs(n: nat, v: Json)
    ensures Depth(Nested(n, v)) == n + Depth(v)
    ensures KeyDepth(Nested(n, v)) == if KeyDepth(v) == 0 then 0 else n + KeyDepth(v)
    ensures Printable(v) && NulFree(v) ==> Printable(Nested(n, v)) && NulFree(Nested(n, v))
    ensures v.JArray? || v.JObject? ==> Nested(n, v).JArray? || Nested(n, v).JObject?
  {
    if n > 0 {
      var items := [Nested(n - 1, v)];
      NestedIs(n - 1, v);
      assert items[1..] == [] && DepthOfItems(items[1..]) == 0 && KeyDepthOfItems(items[1..]) == 0;
      assert Nested(n, v) == JArray(items) && items[0] == Nested(n - 1, v);
      assert Depth(JArray(items)) == 1 + Max(Depth(items[0]), 0);
      assert KeyDepth(JArray(items)) == Below(Max(KeyDepth(items[0]), 0));
    }
  }

  /** 127 arrays fit and 128 do not; an object with a member fits at depth 125 and not at 126. */
  lemma TheLimits(n: nat, pretty: int)
    ensures Fits(Fresh(false), TextOf(Nested(n, EMPTY_ARRAY), pretty)) <==> n + 1 <= 127
    ensures Fits(Fresh(false), TextOf(Nested(n, ONE_MEMBER), pretty)) <==> n + 1 <= 125
  {
    assert Depth(EMPTY_ARRAY) == 1 && KeyDepth(EMPTY_ARRAY) == 0 && Printable(EMPTY_ARRAY) && NulFree(EMPTY_ARRAY);
    assert ONE_MEMBER.members[1..] == [] && Depth(ONE_MEMBER) == 1 && KeyDepth(ONE_MEMBER) == 1;
    assert Printable(ONE_MEMBER) && NulFree(ONE_MEMBER);
    hide *;
    NestedIs(n, EMPTY_ARRAY);
    NestedIs(n, ONE_MEMBER);
    DocumentFits(Nested(n, EMPTY_ARRAY), pretty, false);
    DocumentFits(Nested(n, ONE_MEMBER), pretty, false);
  }
}
