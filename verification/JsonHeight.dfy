/** How high the symbol stack grows: at most three above the number of open containers, and exactly how much. */
module JsonHeight {
  import opened Common
  import opened JsonValue
  import opened JsonGrammar
  import opened JsonMachine
  import opened JsonBuild
  import opened JsonStacks

  /** Slots of the symbol stack. */
  const LL_STACK_SIZE: nat := 128

  predicate Frame(s: Sym) {
    ObjectRest(s) || ArrayRest(s)
  }

  /** Containers a token opens, less those it closes. */
  function Delta(t: Sym): int {
    if t.BeginObject? || t.BeginArray? then 1 else if t.EndObject? || t.EndArray? then -1 else 0
  }

  function Level(toks: seq<Token>): int {
    if toks == [] then 0 else Delta(toks[0].sym) + Level(toks[1..])
  }

  /** Open containers, read off the symbol stack; expansions do not change it. */
  function Open(stack: seq<Sym>): int {
    if stack == [] then 0 else (if Frame(stack[0]) then 1 else -Delta(stack[0])) + Open(stack[1..])
  }

  predicate Frames(stack: seq<Sym>) {
    stack == [] || (Frame(stack[0]) && Frames(stack[1..]))
  }

  /** Symbols that are not frames are few and on top. */
  predicate Slim(stack: seq<Sym>) {
    || Frames(stack)
    || Frames(stack[1..])
    || (|stack| >= 2 && stack[..2] == [NameSep, Value] && Frames(stack[2..]))
    || (|stack| >= 3 && stack[..3] == [Str, NameSep, Value] && Frames(stack[3..]))
  }

  lemma {:induction false} FramesOpen(stack: seq<Sym>)
    requires Frames(stack)
    ensures Open(stack) == |stack|
  {
    if stack != [] { FramesOpen(stack[1..]); }
  }

  lemma {:induction false} OpenConcat(a: seq<Sym>, b: seq<Sym>)
    ensures Open(a + b) == Open(a) + Open(b)
  {
    if a == [] {
      assert a + b == b;
    } else {
      assert (a + b)[1..] == a[1..] + b;
      OpenConcat(a[1..], b);
    }
  }

  lemma SlimHeight(stack: seq<Sym>)
    requires Slim(stack)
    ensures |stack| <= Open(stack) + 3
  {
    var k :=
      if Frames(stack) then 0
      else if Frames(stack[1..]) then 1
      else if stack[..2] == [NameSep, Value] then 2
      else 3;
    assert stack == stack[..k] + stack[k..];
    OpenConcat(stack[..k], stack[k..]);
    FramesOpen(stack[k..]);
    OpenUpTo3(stack[..k]);
  }

  lemma OpenUpTo3(s: seq<Sym>)
    requires |s| <= 3 && (|s| >= 2 ==> s[..2] == [NameSep, Value] || s == [Str, NameSep, Value])
    requires |s| == 3 ==> s == [Str, NameSep, Value]
    ensures Open(s) >= |s| - 3
  {
    if |s| == 3 {
      assert s[1..] == [NameSep, Value] && s[1..][1..] == [Value] && s[1..][1..][1..] == [];
    } else if |s| == 2 {
      assert s == [NameSep, Value] && s[1..] == [Value] && s[1..][1..] == [];
    }
  }

  lemma RhsOpen(r: Rule)
    ensures Open(Rhs(r)) == Open([Lhs(r)])
  {
    OpenConcat([Rhs(r)[0]], Rhs(r)[1..]);
    assert Rhs(r) == [Rhs(r)[0]] + Rhs(r)[1..];
    assert [Lhs(r)][1..] == [] && [Rhs(r)[0]][1..] == [];
    if |Rhs(r)| == 3 {
      assert Rhs(r)[1..] == [NameSep, Value] && [NameSep, Value][1..] == [Value] && [Value][1..] == [];
    } else if |Rhs(r)| == 2 {
      assert Rhs(r)[1..][1..] == [];
    }
  }

  lemma ExpansionSlim(r: Rule, rest: seq<Sym>)
    requires Slim([Lhs(r)] + rest)
    ensures Slim(Rhs(r) + rest) && Open(Rhs(r) + rest) == Open([Lhs(r)] + rest)
  {
    OpenConcat(Rhs(r), rest);
    OpenConcat([Lhs(r)], rest);
    RhsOpen(r);
    SlimBelow([Lhs(r)] + rest);
    assert ([Lhs(r)] + rest)[1..] == rest;
    ExpansionShape(r, rest);
  }

  /** A nonterminal on top of a slim stack has only frames below it. */
  lemma SlimBelow(stack: seq<Sym>)
    requires Slim(stack) && stack != [] && !Terminal(stack[0])
    ensures Frames(stack[1..])
  {
    assert |stack| >= 2 ==> stack[..2][0] == stack[0];
    assert |stack| >= 3 ==> stack[..3][0] == stack[0];
  }

  lemma ExpansionShape(r: Rule, rest: seq<Sym>)
    requires Frames(rest)
    ensures Slim(Rhs(r) + rest)
  {
    var s := Rhs(r) + rest;
    if |Rhs(r)| == 3 {
      assert s[..3] == [Str, NameSep, Value] && s[3..] == rest;
    } else {
      ShortShape(Rhs(r), rest);
    }
  }

  lemma ShortShape(rhs: seq<Sym>, rest: seq<Sym>)
    requires Frames(rest) && 1 <= |rhs| <= 2 && (|rhs| == 2 ==> Frame(rhs[1]))
    ensures Slim(rhs + rest)
  {
    var s := rhs + rest;
    assert s[|rhs|..] == rest;
    if |rhs| == 2 {
      assert s[1..] == [rhs[1]] + rest && s[1..][1..] == rest;
    }
  }

  lemma MatchSlim(stack: seq<Sym>)
    requires Slim(stack) && stack != [] && Terminal(stack[0])
    ensures Slim(stack[1..]) && Open(stack[1..]) == Open(stack) + Delta(stack[0])
  {
    var rest := stack[1..];
    if Frames(rest) {
    } else if stack[..2] == [NameSep, Value] {
      assert stack[2..] == rest[1..];
    } else {
      assert rest[..2] == stack[..3][1..] && rest[2..] == stack[3..];
    }
  }

  /** The greatest height of the symbol stack while one token is processed. */
  function Peak(c: Conf, tok: Token): (h: nat)
    ensures h >= |c.stack|
    decreases if c.stack == [] then 0 else Rank(c.stack[0])
  {
    if c.stack == [] || c.stack[0] == tok.sym || Table(c.stack[0], tok.sym) == 0 then |c.stack|
    else
      var r := Table(c.stack[0], tok.sym);
      var h := Peak(Conf(Rhs(r) + c.stack[1..], Act(r, tok, c.build)), tok);
      if h < |c.stack| then |c.stack| else h
  }

  /** Three more than the containers open before the token are enough. */
  lemma {:induction false} PeakBound(c: Conf, tok: Token)
    requires Slim(c.stack) && TokenOk(tok)
    ensures Peak(c, tok) <= Open(c.stack) + 3
    ensures var o := Consume(c, tok);
            o.Matched? ==> Slim(o.conf.stack) && Open(o.conf.stack) == Open(c.stack) + Delta(tok.sym)
    decreases if c.stack == [] then 0 else Rank(c.stack[0])
  {
    hide Act, Slim, Open;
    SlimHeight(c.stack);
    if c.stack != [] {
      var top, rest := c.stack[0], c.stack[1..];
      assert c.stack == [top] + rest;
      if top == tok.sym {
        MatchSlim(c.stack);
      } else if Table(top, tok.sym) != 0 {
        var r := Table(top, tok.sym);
        ExpansionSlim(r, rest);
        PeakBound(Conf(Rhs(r) + rest, Act(r, tok, c.build)), tok);
      }
    }
  }

  /** Along every accepted run the stack is slim and counts the open containers. */
  lemma {:induction false} RunOpen(c: Conf, toks: seq<Token>)
    requires Slim(c.stack) && TokensOk(toks) && Run(c, toks).Some?
    ensures Slim(Run(c, toks).value.stack)
    ensures Open(Run(c, toks).value.stack) == Open(c.stack) + Level(toks)
    decreases |toks|
  {
    if toks != [] {
      PeakBound(c, toks[0]);
      RunOpen(Consume(c, toks[0]).conf, toks[1..]);
    }
  }

  // The exact height: it depends on the token and on the symbol on top.

  /** Slots a symbol and what it expands to need while a token is processed. */
  function Needs(top: Sym, t: Sym): (n: nat)
    ensures n >= 1
    decreases Rank(top)
  {
    if top == t || Table(top, t) == 0 then 1
    else
      var rhs := Rhs(Table(top, t));
      Needs(rhs[0], t) + |rhs| - 1
  }

  /** What lies below the top symbol does not matter. */
  lemma {:induction false} PeakIs(c: Conf, tok: Token)
    requires c.stack != []
    ensures Peak(c, tok) == |c.stack| - 1 + Needs(c.stack[0], tok.sym)
    decreases Rank(c.stack[0])
  {
    hide Act;
    var top, rest := c.stack[0], c.stack[1..];
    if top != tok.sym && Table(top, tok.sym) != 0 {
      var r := Table(top, tok.sym);
      PeakIs(Conf(Rhs(r) + rest, Act(r, tok, c.build)), tok);
    }
  }

  /** Slots above the number of open containers: most for a key, none for an end. */
  function Extra(top: Sym, t: Sym): nat {
    if t.Str? && ObjectRest(top) then 3
    else if t.BeginObject? || t.BeginArray? || t.NameSep? then 2
    else if t.EndObject? || t.EndArray? then 0
    else 1
  }

  /** The stacks that occur between tokens. */
  predicate Between(stack: seq<Sym>) {
    || Frames(stack)
    || stack == [Document]
    || (stack[0].Value? && Frames(stack[1..]))
    || (|stack| >= 2 && stack[..2] == [NameSep, Value] && Frames(stack[2..]))
  }

  lemma NeedsByRule(top: Sym, t: Sym, r: Rule, n: nat)
    requires top != t && Table(top, t) == r && Needs(Rhs(r)[0], t) == n
    ensures Needs(top, t) == n + |Rhs(r)| - 1
  {
  }

  lemma NeedsOfValue(t: Sym)
    requires Terminal(t)
    ensures Table(Value, t) != 0 ==> Needs(Value, t) == if t.BeginObject? || t.BeginArray? then 2 else 1
    ensures Table(Document, t) != 0 ==> Needs(Document, t) == 2
  {
    hide Needs;
    NeedsOfTerminal(t);
    if t.BeginObject? {
      NeedsByRule(Object, t, 8, 1);
      NeedsByRule(Value, t, 3, 2);
      NeedsByRule(Document, t, 1, 2);
    } else if t.BeginArray? {
      NeedsByRule(Array, t, 15, 1);
      NeedsByRule(Value, t, 4, 2);
      NeedsByRule(Document, t, 2, 2);
    } else if Scalar(t) {
      NeedsByRule(Value, t, if t.Str? then 5 else if t.Num? then 6 else 7, 1);
    }
  }

  lemma NeedsOfObject(top: Sym, t: Sym)
    requires Terminal(t) && ObjectRest(top) && Table(top, t) != 0
    ensures Needs(top, t) == 1 + Extra(top, t)
  {
    hide Needs;
    NeedsOfTerminal(t);
    if t.Str? {
      NeedsByRule(ObjElem, t, 14, 1);
      NeedsByRule(ObjElems, t, 11, 3);
      if top.ObjBody? { NeedsByRule(ObjBody, t, 10, 4); }
    } else {
      NeedsByRule(top, t, Table(top, t), 1);
    }
  }

  lemma NeedsOfArray(top: Sym, t: Sym)
    requires Terminal(t) && ArrayRest(top) && Table(top, t) != 0
    ensures Needs(top, t) == 1 + Extra(top, t)
  {
    hide Needs;
    NeedsOfTerminal(t);
    if t.EndArray? || t.ValueSep? {
      NeedsByRule(top, t, Table(top, t), 1);
    } else {
      NeedsOfValue(t);
      NeedsByRule(ArrElems, t, 18, Needs(Value, t));
      if top.ArrBody? { NeedsByRule(ArrBody, t, 17, Needs(ArrElems, t)); }
    }
  }

  /** Between tokens the height follows from the number of open containers. */
  lemma BetweenHeight(stack: seq<Sym>)
    requires Between(stack)
    ensures Frames(stack) ==> |stack| == Open(stack)
    ensures stack == [Document] ==> Open(stack) == 0
    ensures stack != [] && (stack[0].Value? || stack[0].NameSep?) ==>
              |stack| == Open(stack) + if stack[0].Value? then 1 else 2
  {
    if Frames(stack) {
      FramesOpen(stack);
    } else if stack[0].Value? {
      FramesOpen(stack[1..]);
    } else if stack != [Document] {
      assert stack[0] == stack[..2][0] && stack[1] == stack[..2][1] && stack[1..][1..] == stack[2..];
      FramesOpen(stack[2..]);
    }
  }

  /** The greatest height while an accepted token is processed. */
  lemma PeakExact(c: Conf, tok: Token)
    requires Between(c.stack) && c.stack != [] && TokenOk(tok)
    requires c.stack[0] == tok.sym || Table(c.stack[0], tok.sym) != 0
    ensures Peak(c, tok) == Open(c.stack) + Extra(c.stack[0], tok.sym)
  {
    hide Peak, Open, Needs;
    PeakIs(c, tok);
    BetweenHeight(c.stack);
    var top := c.stack[0];
    if ObjectRest(top) {
      NeedsOfObject(top, tok.sym);
    } else if ArrayRest(top) {
      NeedsOfArray(top, tok.sym);
    } else if !Terminal(top) {
      NeedsOfValue(tok.sym);
    } else {
      assert Needs(top, tok.sym) == 1 by { NeedsOfTerminal(top); }
    }
  }

  lemma NeedsOfTerminal(t: Sym)
    ensures Needs(t, t) == 1
  {
  }

  /** What a symbol leaves on the stack when a token has been processed. */
  function Leaves(top: Sym, t: Sym): seq<Sym>
    decreases Rank(top)
  {
    if top == t || Table(top, t) == 0 then []
    else
      var rhs := Rhs(Table(top, t));
      Leaves(rhs[0], t) + rhs[1..]
  }

  /** Processing the token replaces the top symbol by what it leaves. */
  ghost predicate LeavesRight(c: Conf, tok: Token) {
    c.stack != [] && Leaving(Consume(c, tok), Leaves(c.stack[0], tok.sym), c.stack[1..])
  }

  ghost predicate Leaving(o: Outcome, left: seq<Sym>, rest: seq<Sym>) {
    o.Matched? && o.conf.stack == left + rest
  }

  lemma LeavingMore(o: Outcome, left: seq<Sym>, more: seq<Sym>, rest: seq<Sym>)
    ensures Leaving(o, left, more + rest) ==> Leaving(o, left + more, rest)
  {
    assert left + (more + rest) == left + more + rest;
  }

  lemma {:induction false} ConsumeLeaves(c: Conf, tok: Token)
    requires c.stack != [] && Consume(c, tok).Matched?
    ensures LeavesRight(c, tok)
    decreases Rank(c.stack[0])
  {
    if c.stack[0] != tok.sym {
      var d := ConsumeUnfolds(c, tok);
      hide *;
      ConsumeLeaves(d, tok);
    }
  }

  lemma ConsumeUnfolds(c: Conf, tok: Token) returns (d: Conf)
    requires c.stack != [] && c.stack[0] != tok.sym && Consume(c, tok).Matched?
    ensures d.stack != [] && Rank(d.stack[0]) < Rank(c.stack[0]) && Consume(c, tok) == Consume(d, tok)
    ensures LeavesRight(d, tok) ==> LeavesRight(c, tok)
  {
    var r;
    r, d := ConsumeExpands(c, tok);
    hide *;
    assert d.stack[1..] == Rhs(r)[1..] + c.stack[1..] && d.stack[0] == Rhs(r)[0];
    LeavesGoOn(c, d, tok, Rhs(r)[1..]);
  }

  lemma LeavesGoOn(c: Conf, d: Conf, tok: Token, more: seq<Sym>)
    requires c.stack != [] && d.stack != [] && Consume(c, tok) == Consume(d, tok)
    requires d.stack[1..] == more + c.stack[1..]
    requires Leaves(c.stack[0], tok.sym) == Leaves(d.stack[0], tok.sym) + more
    ensures LeavesRight(d, tok) ==> LeavesRight(c, tok)
  {
    hide Consume, Leaves, Leaving;
    LeavingMore(Consume(d, tok), Leaves(d.stack[0], tok.sym), more, c.stack[1..]);
  }

  lemma ConsumeExpands(c: Conf, tok: Token) returns (r: Rule, d: Conf)
    requires c.stack != [] && c.stack[0] != tok.sym && Consume(c, tok).Matched?
    ensures r == Table(c.stack[0], tok.sym) && d.stack == Rhs(r) + c.stack[1..] && Rank(Rhs(r)[0]) < Rank(c.stack[0])
    ensures Consume(c, tok) == Consume(d, tok)
    ensures Leaves(c.stack[0], tok.sym) == Leaves(Rhs(r)[0], tok.sym) + Rhs(r)[1..]
  {
    hide Act;
    r := Table(c.stack[0], tok.sym);
    d := Conf(Rhs(r) + c.stack[1..], Act(r, tok, c.build));
  }

  lemma LeavesByRule(top: Sym, t: Sym, r: Rule, left: seq<Sym>)
    requires top != t && Table(top, t) == r && Leaves(Rhs(r)[0], t) == left
    ensures Leaves(top, t) == left + Rhs(r)[1..]
  {
  }

  lemma LeavesOfValue(t: Sym)
    requires Terminal(t)
    ensures var left := if t.BeginObject? then [ObjBody] else if t.BeginArray? then [ArrBody] else [];
            && (Table(Value, t) != 0 ==> Leaves(Value, t) == left)
            && (Table(Document, t) != 0 ==> Leaves(Document, t) == left)
  {
    hide Leaves;
    LeavesOfTerminal(t);
    if t.BeginObject? {
      LeavesByRule(Object, t, 8, []);
      LeavesByRule(Value, t, 3, [ObjBody]);
      LeavesByRule(Document, t, 1, [ObjBody]);
    } else if t.BeginArray? {
      LeavesByRule(Array, t, 15, []);
      LeavesByRule(Value, t, 4, [ArrBody]);
      LeavesByRule(Document, t, 2, [ArrBody]);
    } else if Scalar(t) {
      LeavesByRule(Value, t, if t.Str? then 5 else if t.Num? then 6 else 7, []);
    }
  }

  lemma LeavesOfObject(top: Sym, t: Sym)
    requires Terminal(t) && ObjectRest(top) && Table(top, t) != 0
    ensures Leaves(top, t) == if t.Str? then [NameSep, Value, ObjTail] else if t.ValueSep? then [ObjElems] else []
  {
    hide Leaves;
    LeavesOfTerminal(t);
    if t.Str? {
      LeavesByRule(ObjElem, t, 14, []);
      LeavesByRule(ObjElems, t, 11, [NameSep, Value]);
      if top.ObjBody? { LeavesByRule(ObjBody, t, 10, [NameSep, Value, ObjTail]); }
    } else {
      LeavesByRule(top, t, Table(top, t), []);
    }
  }

  lemma LeavesOfElement(t: Sym)
    requires Terminal(t) && Table(ArrElems, t) != 0
    ensures Leaves(ArrElems, t) == Leaves(Value, t) + [ArrTail]
    ensures Leaves(ArrBody, t) == Leaves(Value, t) + [ArrTail]
  {
    hide Leaves;
    var left := Leaves(Value, t);
    LeavesByRule(ArrElems, t, 18, left);
    assert Rhs(18)[1..] == [ArrTail] && Rhs(17)[1..] == [];
    LeavesByRule(ArrBody, t, 17, left + [ArrTail]);
    assert left + [ArrTail] + [] == left + [ArrTail];
  }

  lemma LeavesOfArray(top: Sym, t: Sym)
    requires Terminal(t) && ArrayRest(top) && Table(top, t) != 0
    ensures Frames(Leaves(top, t))
  {
    hide Leaves;
    if t.EndArray? || t.ValueSep? {
      LeavesOfTerminal(t);
      LeavesByRule(top, t, Table(top, t), []);
    } else {
      LeavesOfValue(t);
      LeavesOfElement(t);
      FramesConcat(Leaves(Value, t), [ArrTail]);
    }
  }

  lemma {:induction false} FramesConcat(a: seq<Sym>, b: seq<Sym>)
    requires Frames(a) && Frames(b)
    ensures Frames(a + b)
  {
    if a == [] {
      assert a + b == b;
    } else {
      assert (a + b)[1..] == a[1..] + b;
      FramesConcat(a[1..], b);
    }
  }

  lemma ConsumeBetween(c: Conf, tok: Token)
    requires Between(c.stack) && TokenOk(tok) && Consume(c, tok).Matched?
    ensures Between(Consume(c, tok).conf.stack)
  {
    ConsumeLeaves(c, tok);
    assert c.stack[0] == tok.sym || Table(c.stack[0], tok.sym) != 0;
    LeavesBetween(c.stack, tok.sym);
  }

  lemma LeavesBetween(stack: seq<Sym>, t: Sym)
    requires Between(stack) && Terminal(t) && stack != [] && (stack[0] == t || Table(stack[0], t) != 0)
    ensures Between(Leaves(stack[0], t) + stack[1..])
  {
    hide Leaves, Table, Between;
    var top, rest, left := stack[0], stack[1..], Leaves(stack[0], t);
    BetweenTop(stack);
    if ObjectRest(top) {
      LeavesOfObject(top, t);
      if t.Str? {
        KeyBetween(rest);
        assert [NameSep, Value, ObjTail] + rest == [NameSep, Value] + ([ObjTail] + rest);
      } else {
        FramesConcat(left, rest);
        FramesBetween(left + rest);
      }
    } else if ArrayRest(top) {
      LeavesOfArray(top, t);
      FramesConcat(left, rest);
      FramesBetween(left + rest);
    } else if top.NameSep? {
      LeavesOfTerminal(top);
      assert left + rest == rest;
    } else {
      LeavesOfValue(t);
      FramesConcat(left, rest);
      FramesBetween(left + rest);
    }
  }

  lemma FramesBetween(stack: seq<Sym>)
    requires Frames(stack)
    ensures Between(stack)
  {
  }

  lemma KeyBetween(rest: seq<Sym>)
    requires Frames(rest)
    ensures Between([NameSep, Value] + ([ObjTail] + rest))
  {
    var more := [ObjTail] + rest;
    assert more[1..] == rest;
    assert ([NameSep, Value] + more)[..2] == [NameSep, Value] && ([NameSep, Value] + more)[2..] == more;
  }

  /** What lies below the top symbol of such a stack. */
  lemma BetweenTop(stack: seq<Sym>)
    requires Between(stack) && stack != []
    ensures var top, rest := stack[0], stack[1..];
            && (ObjectRest(top) || ArrayRest(top) || top.NameSep? || top.Value? || top.Document?)
            && (!top.NameSep? ==> Frames(rest))
            && (top.NameSep? ==> Between(rest))
  {
    if stack[0].NameSep? {
      assert stack[..2] == [NameSep, Value] && stack[..2][1] == stack[1] && stack[1..][1..] == stack[2..];
    }
  }

  lemma LeavesOfTerminal(t: Sym)
    ensures Leaves(t, t) == []
  {
  }

  /** Along every accepted run the stack has one of these shapes. */
  lemma {:induction false} RunBetween(c: Conf, toks: seq<Token>)
    requires Between(c.stack) && TokensOk(toks) && Run(c, toks).Some?
    ensures Between(Run(c, toks).value.stack)
    decreases |toks|
  {
    hide Consume, Between;
    if toks != [] {
      ConsumeBetween(c, toks[0]);
      RunBetween(Consume(c, toks[0]).conf, toks[1..]);
    }
  }

  /** After any accepted tokens: what the next one needs, by the nesting and the symbol it meets. */
  lemma TokenNeeds(toks: seq<Token>, tok: Token)
    requires TokensOk(toks) && TokenOk(tok) && Run(START, toks).Some?
    requires var c := Run(START, toks).value;
             c.stack != [] && (c.stack[0] == tok.sym || Table(c.stack[0], tok.sym) != 0)
    ensures var c := Run(START, toks).value; Peak(c, tok) == Level(toks) + Extra(c.stack[0], tok.sym)
  {
    hide Peak, Run;
    assert START.stack == [Document] && START.stack[1..] == [];
    RunBetween(START, toks);
    RunOpen(START, toks);
    PeakExact(Run(START, toks).value, tok);
  }

  // The bound is reached: one level more would need a slot that is not there.

  const OPEN_ARRAY: Token := Token(BeginArray, JNull)

  function Brackets(n: nat): (toks: seq<Token>) {
    if n == 0 then [] else [OPEN_ARRAY] + Brackets(n - 1)
  }

  lemma OneExpansion(top: Sym, rest: seq<Sym>, build: seq<Item>, tok: Token, d: Conf)
    requires !Terminal(top) && TokenOk(tok)
    requires Table(top, tok.sym) != 0
    requires d == Conf(Rhs(Table(top, tok.sym)) + rest, Act(Table(top, tok.sym), tok, build))
    ensures Consume(Conf([top] + rest, build), tok) == Consume(d, tok)
    ensures Peak(Conf([top] + rest, build), tok) >= Peak(d, tok)
  {
    hide CloseObject, CloseArray, Act;
    assert ([top] + rest)[1..] == rest;
  }

  lemma OneMatch(rest: seq<Sym>, build: seq<Item>, tok: Token)
    ensures Consume(Conf([tok.sym] + rest, build), tok) == Matched(Conf(rest, build))
  {
    assert ([tok.sym] + rest)[1..] == rest;
  }

  /** A value that is a container, on top of anything. */
  lemma OpenValue(rest: seq<Sym>, build: seq<Item>, tok: Token)
    requires tok.sym.BeginArray? || tok.sym.BeginObject?
    ensures var arr := tok.sym.BeginArray?;
            Consume(Conf([Value] + rest, build), tok) ==
            Matched(Conf([if arr then ArrBody else ObjBody] + rest, [if arr then ArrMark else ObjMark] + build))
  {
    hide Consume, Peak, CloseObject, CloseArray;
    if tok.sym.BeginArray? {
      OneExpansion(Value, rest, build, tok, Conf([Array] + rest, build));
      OneExpansion(Array, rest, build, tok, Conf([BeginArray, ArrBody] + rest, [ArrMark] + build));
      assert [BeginArray, ArrBody] + rest == [BeginArray] + ([ArrBody] + rest);
      OneMatch([ArrBody] + rest, [ArrMark] + build, tok);
    } else {
      OneExpansion(Value, rest, build, tok, Conf([Object] + rest, build));
      OneExpansion(Object, rest, build, tok, Conf([BeginObject, ObjBody] + rest, [ObjMark] + build));
      assert [BeginObject, ObjBody] + rest == [BeginObject] + ([ObjBody] + rest);
      OneMatch([ObjBody] + rest, [ObjMark] + build, tok);
    }
  }

  /** A container inside an array leaves one frame behind. */
  lemma OpenInArray(rest: seq<Sym>, build: seq<Item>, tok: Token)
    requires tok.sym.BeginArray? || tok.sym.BeginObject?
    ensures var arr := tok.sym.BeginArray?;
            Consume(Conf([ArrBody] + rest, build), tok) ==
            Matched(Conf([if arr then ArrBody else ObjBody] + ([ArrTail] + rest),
                         [if arr then ArrMark else ObjMark] + build))
  {
    hide Consume, Peak, CloseObject, CloseArray;
    OneExpansion(ArrBody, rest, build, tok, Conf([ArrElems] + rest, build));
    OneExpansion(ArrElems, rest, build, tok, Conf([Value, ArrTail] + rest, build));
    assert [Value, ArrTail] + rest == [Value] + ([ArrTail] + rest);
    OpenValue([ArrTail] + rest, build, tok);
  }

  /** After n further brackets the innermost array is awaiting its first element. */
  lemma {:induction false} BracketsOpen(n: nat, rest: seq<Sym>, build: seq<Item>)
    returns (below: seq<Sym>, b: seq<Item>)
    ensures |below| == |rest| + n
    ensures Run(Conf([ArrBody] + rest, build), Brackets(n)) == Some(Conf([ArrBody] + below, b))
  {
    if n == 0 {
      below, b := rest, build;
    } else {
      hide Consume;
      OpenInArray(rest, build, OPEN_ARRAY);
      assert Brackets(n)[1..] == Brackets(n - 1);
      below, b := BracketsOpen(n - 1, [ArrTail] + rest, [ArrMark] + build);
    }
  }

  /** A key in an object nested n + 2 deep, the outer containers arrays, makes the stack n + 5 high. */
  lemma BoundReached(n: nat, key: Token)
    requires key.sym.Str? && key.val.JString?
    ensures var toks := Brackets(n + 1) + [Token(BeginObject, JNull)];
            Run(START, toks).Some? && Peak(Run(START, toks).value, key) >= n + 5
  {
    hide Consume, Peak, CloseObject, CloseArray;
    var obj := Token(BeginObject, JNull);
    FirstBracket();
    var below, b := BracketsOpen(n, [], [ArrMark]);
    assert [ArrBody] + [] == [ArrBody] && Brackets(n + 1)[1..] == Brackets(n);
    assert Run(START, Brackets(n + 1)) == Some(Conf([ArrBody] + below, b));
    OpenInArray(below, b, obj);
    RunTwice(START, Brackets(n + 1), [obj]);
    assert [obj][1..] == [];
    KeyPeak([ArrTail] + below, [ObjMark] + b, key);
  }

  lemma FirstBracket()
    ensures Consume(START, OPEN_ARRAY) == Matched(Conf([ArrBody], [ArrMark]))
  {
    hide Consume, Peak, CloseObject, CloseArray;
    assert [Document] + [] == START.stack && [Array] + [] == [Array];
    assert [BeginArray, ArrBody] + [] == [BeginArray] + [ArrBody] && [ArrMark] + [] == [ArrMark];
    OneExpansion(Document, [], [], OPEN_ARRAY, Conf([Array], []));
    OneExpansion(Array, [], [], OPEN_ARRAY, Conf([BeginArray] + [ArrBody], [ArrMark]));
    OneMatch([ArrBody], [ArrMark], OPEN_ARRAY);
  }

  lemma KeyPeak(rest: seq<Sym>, build: seq<Item>, key: Token)
    requires key.sym.Str? && key.val.JString?
    ensures Peak(Conf([ObjBody] + rest, build), key) >= |rest| + 4
  {
    hide Consume, Peak, CloseObject, CloseArray;
    OneExpansion(ObjBody, rest, build, key, Conf([ObjElems] + rest, build));
    OneExpansion(ObjElems, rest, build, key, Conf([ObjElem, ObjTail] + rest, build));
    var more := [ObjTail] + rest;
    assert [ObjElem, ObjTail] + rest == [ObjElem] + more;
    OneExpansion(ObjElem, more, build, key, Conf([Str, NameSep, Value] + more, [Val(key.val)] + build));
  }
}
