/**
  What the machine builds and how large it gets: the value of a derivation,
  the coupling of the two stacks, viable prefixes, and the height of the
  symbol stack.
 */
module JsonBuild {
  import opened JsonValue
  import opened JsonGrammar
  import opened JsonMachine

  // The value of a derivation, defined on its structure alone.

  predicate ValueSym(s: Sym) {
    s.Document? || s.Value? || s.Object? || s.Array?
  }

  predicate ObjectRest(s: Sym) {
    s.ObjBody? || s.ObjElems? || s.ObjTail?
  }

  predicate ArrayRest(s: Sym) {
    s.ArrBody? || s.ArrElems? || s.ArrTail?
  }

  function ValueOf(t: Tree): (v: Json)
    requires Derivation(t) && ValueSym(Root(t))
    decreases t
  {
    var r, kids := t.rule, t.kids;
    KidRoots(t);
    if r <= 4 then ValueOf(kids[0])
    else if r <= 7 then Yield(kids[0])[0].val
    else if r == 8 then JObject(BuildObject(MembersOf(kids[1])))
    else JArray(ElementsOf(kids[1]))
  }

  /** The key and value pairs an object still has to come, in order. */
  function MembersOf(t: Tree): (ms: seq<Member>)
    requires Derivation(t) && ObjectRest(Root(t))
    decreases t
  {
    var r, kids := t.rule, t.kids;
    KidRoots(t);
    if r == 10 then MembersOf(kids[0])
    else if r == 11 then [MemberOf(kids[0])] + MembersOf(kids[1])
    else if r == 12 then MembersOf(kids[1])
    else []
  }

  function MemberOf(t: Tree): (m: Member)
    requires Derivation(t) && Root(t).ObjElem?
    decreases t
  {
    KidRoots(t);
    Member(CString(t.kids[0].tok.val.s), ValueOf(t.kids[2]))
  }

  function ElementsOf(t: Tree): (vs: seq<Json>)
    requires Derivation(t) && ArrayRest(Root(t))
    decreases t
  {
    var r, kids := t.rule, t.kids;
    KidRoots(t);
    if r == 17 then ElementsOf(kids[0])
    else if r == 18 then [ValueOf(kids[0])] + ElementsOf(kids[1])
    else if r == 19 then ElementsOf(kids[1])
    else []
  }

  /** The children of a derivation derive the symbols of its rule; terminals are leaves. */
  lemma KidRoots(t: Tree)
    requires Derivation(t) && t.Node?
    ensures |t.kids| == |Rhs(t.rule)|
    ensures forall i {:trigger t.kids[i]} :: 0 <= i < |t.kids| ==>
            Derivation(t.kids[i]) && Root(t.kids[i]) == Rhs(t.rule)[i]
    ensures forall i {:trigger t.kids[i]} :: 0 <= i < |t.kids| && Terminal(Rhs(t.rule)[i]) ==> t.kids[i].Leaf?
  {
    ForestAt(t.kids);
  }

  lemma {:induction false} ForestAt(ts: seq<Tree>)
    requires Derivations(ts)
    ensures forall i {:trigger ts[i]} :: 0 <= i < |ts| ==> Derivation(ts[i]) && Root(ts[i]) == Roots(ts)[i]
    ensures forall i {:trigger ts[i]} :: 0 <= i < |ts| && Terminal(Root(ts[i])) ==> ts[i].Leaf?
  {
    if ts != [] {
      ForestAt(ts[1..]);
      forall i | 0 <= i < |ts|
        ensures Derivation(ts[i]) && Root(ts[i]) == Roots(ts)[i]
      {
        if i > 0 { assert ts[i] == ts[1..][i - 1]; }
      }
    }
  }

  // What the actions leave on the build stack.

  /** Complete key and value pairs on top of the build stack. */
  predicate Paired(items: seq<Item>) {
    items == [] || (|items| >= 2 && items[0].Val? && IsKey(items[1]) && Paired(items[2..]))
  }

  function MembersIn(items: seq<Item>): (ms: seq<Member>)
    requires Paired(items)
  {
    if items == [] then [] else MembersIn(items[2..]) + [Member(CString(items[1].v.s), items[0].v)]
  }

  predicate AllValues(items: seq<Item>) {
    items == [] || (items[0].Val? && AllValues(items[1..]))
  }

  function ValuesIn(items: seq<Item>): (vs: seq<Json>)
    requires AllValues(items)
  {
    if items == [] then [] else ValuesIn(items[1..]) + [items[0].v]
  }

  /** Closing an object collects the pairs above its own marker and no more. */
  lemma {:induction false} CloseObjectStops(items: seq<Item>, below: seq<Item>, ms: seq<Member>)
    requires Paired(items)
    ensures CloseObject(items + [ObjMark] + below, ms) == [Val(JObject(BuildOnto(MembersIn(items), ms)))] + below
    decreases |items|
  {
    var build := items + [ObjMark] + below;
    if items == [] {
      assert build[1..] == below;
    } else {
      var m := Member(CString(items[1].v.s), items[0].v);
      assert build[0] == items[0] && build[1] == items[1];
      assert build[2..] == items[2..] + [ObjMark] + below;
      CloseObjectStops(items[2..], below, AddMember(ms, m.key, m.value));
      BuildOntoLast(MembersIn(items[2..]), m, ms);
    }
  }

  lemma {:induction false} CloseArrayStops(items: seq<Item>, below: seq<Item>, vs: seq<Json>)
    requires AllValues(items)
    ensures CloseArray(items + [ArrMark] + below, vs) == [Val(JArray(ValuesIn(items) + vs))] + below
    decreases |items|
  {
    var build := items + [ArrMark] + below;
    if items == [] {
      assert build[1..] == below;
      assert ValuesIn(items) + vs == vs;
    } else {
      assert build[0] == items[0];
      assert build[1..] == items[1..] + [ArrMark] + below;
      CloseArrayStops(items[1..], below, [items[0].v] + vs);
      assert ValuesIn(items[1..]) + ([items[0].v] + vs) == ValuesIn(items) + vs;
    }
  }

  /** The effect of a node, one child after another. */
  lemma EffectOfNode(t: Tree, build: seq<Item>)
    requires Derivation(t) && t.Node?
    ensures 1 <= |t.kids| == |Rhs(t.rule)| <= 3
    ensures forall i {:trigger t.kids[i]} :: 0 <= i < |t.kids| ==>
            Derivation(t.kids[i]) && Root(t.kids[i]) == Rhs(t.rule)[i]
    ensures forall i {:trigger t.kids[i]} :: 0 <= i < |t.kids| && Terminal(Rhs(t.rule)[i]) ==> t.kids[i].Leaf?
    ensures Yield(t.kids[0]) != []
    ensures var b0 := Act(t.rule, Yield(t.kids[0])[0], build);
            var b1 := Effect(t.kids[0], b0);
            var b2 := if |t.kids| > 1 then Effect(t.kids[1], b1) else b1;
            Effect(t, build) == if |t.kids| > 2 then Effect(t.kids[2], b2) else b2
  {
    hide Act;
    KidRoots(t);
    YieldStarts(t.kids[0]);
    YieldStarts(t);
    assert Yield(t)[0] == Yield(t.kids[0])[0];
    var b0 := Act(t.rule, Yield(t)[0], build);
    EffectsUpTo3(t.kids, b0);
  }

  lemma EffectsUpTo3(ts: seq<Tree>, b0: seq<Item>)
    requires 1 <= |ts| <= 3 && Derivations(ts)
    requires forall i {:trigger ts[i]} :: 0 <= i < |ts| ==> Derivation(ts[i])
    ensures var b1 := Effect(ts[0], b0);
            var b2 := if |ts| > 1 then Effect(ts[1], b1) else b1;
            Effects(ts, b0) == if |ts| > 2 then Effect(ts[2], b2) else b2
  {
    hide Effect;
    var b1 := Effect(ts[0], b0);
    if |ts| > 1 {
      assert ts[1..][0] == ts[1];
      if |ts| > 2 {
        assert ts[1..][1..][0] == ts[2] && ts[1..][1..][1..] == [];
      } else {
        assert ts[1..][1..] == [];
      }
    } else {
      assert ts[1..] == [];
    }
  }

  /** A value pushes exactly itself. */
  lemma {:induction false} EffectOfValue(t: Tree, build: seq<Item>)
    requires Derivation(t) && ValueSym(Root(t))
    ensures Effect(t, build) == [Val(ValueOf(t))] + build
    decreases t
  {
    hide Effect, Effects, Yield, Yields, CloseObject, CloseArray, MembersOf, ElementsOf, BuildOnto, Roots, Derivations;
    EffectOfNode(t, build);
    var r, kids := t.rule, t.kids;
    if r <= 4 {
      EffectOfValue(kids[0], build);
    } else if r <= 7 {
      EffectOfLeaf(kids[0], [Val(Yield(kids[0])[0].val)] + build);
    } else if r == 8 {
      EffectOfLeaf(kids[0], [ObjMark] + build);
      EffectOfMembers(kids[1], [], build);
      assert MembersClose(kids[1], [], build);
      assert [] + [ObjMark] + build == [ObjMark] + build;
      assert MembersIn([]) + MembersOf(kids[1]) == MembersOf(kids[1]);
    } else {
      EffectOfLeaf(kids[0], [ArrMark] + build);
      EffectOfElements(kids[1], [], build);
      assert [] + [ArrMark] + build == [ArrMark] + build;
      assert ValuesIn([]) + ElementsOf(kids[1]) == ElementsOf(kids[1]);
    }
  }

  lemma EffectOfLeaf(t: Tree, build: seq<Item>)
    requires Derivation(t) && t.Leaf?
    ensures Effect(t, build) == build && Yield(t) == [t.tok]
  {
  }

  /** The rest of an object turns the pairs above its marker and its own into the object. */
  ghost predicate MembersClose(t: Tree, items: seq<Item>, below: seq<Item>)
    requires Derivation(t) && ObjectRest(Root(t)) && Paired(items)
  {
    Closes(Effect(t, items + [ObjMark] + below), items, MembersOf(t), below)
  }

  /** The build stack is the object of the pairs so far and the later ones, on what was below its marker. */
  ghost predicate Closes(build: seq<Item>, items: seq<Item>, later: seq<Member>, below: seq<Item>)
    requires Paired(items)
  {
    build == [Val(JObject(BuildObject(MembersIn(items) + later)))] + below
  }

  /** The rest of an object replaces its marker and the pairs above it by the object. */
  lemma {:induction false} EffectOfMembers(t: Tree, items: seq<Item>, below: seq<Item>)
    requires Derivation(t) && ObjectRest(Root(t)) && Paired(items)
    ensures MembersClose(t, items, below)
    decreases t
  {
    MembersUnfold(t, items + [ObjMark] + below);
    hide *;
    if t.rule == 9 || t.rule == 13 {
      MembersEnd(t, items, below);
    } else if t.rule == 11 {
      var pair := MembersGoOn(t, items, below);
      EffectOfMembers(t.kids[1], pair + items, below);
    } else {
      EffectOfMembers(t.kids[|t.kids| - 1], items, below);
      MembersSkip(t, items, below);
    }
  }

  lemma MembersSkip(t: Tree, items: seq<Item>, below: seq<Item>)
    requires Derivation(t) && ObjectRest(Root(t)) && t.Node? && (t.rule == 10 || t.rule == 12) && Paired(items)
    requires var n := |t.kids|; n > 0 && Derivation(t.kids[n - 1]) && ObjectRest(Root(t.kids[n - 1]))
    requires MembersClose(t.kids[|t.kids| - 1], items, below)
    ensures MembersClose(t, items, below)
  {
    var build := items + [ObjMark] + below;
    hide *;
    MembersUnfold(t, build);
    EffectOfNode(t, build);
    ClosingIs(t, items, below);
    ClosingIs(t.kids[|t.kids| - 1], items, below);
    if t.rule == 12 { EffectOfLeaf(t.kids[0], build); }
  }

  /** One pair more, and then the others. */
  lemma MembersGoOn(t: Tree, items: seq<Item>, below: seq<Item>) returns (pair: seq<Item>)
    requires Derivation(t) && ObjectRest(Root(t)) && t.Node? && t.rule == 11 && Paired(items)
    ensures |t.kids| == 2 && Derivation(t.kids[1]) && ObjectRest(Root(t.kids[1])) && Paired(pair + items)
    ensures MembersClose(t.kids[1], pair + items, below) ==> MembersClose(t, items, below)
    decreases t, 1
  {
    var build := items + [ObjMark] + below;
    hide *;
    MembersUnfold(t, build);
    pair := PairEffect(t, build);
    assert pair + build == (pair + items) + [ObjMark] + below;
    ClosesLater(Effect(t, build), pair, items, MemberOf(t.kids[0]), MembersOf(t.kids[1]), below);
    ClosingIs(t, items, below);
    ClosingIs(t.kids[1], pair + items, below);
  }

  lemma PairEffect(t: Tree, build: seq<Item>) returns (pair: seq<Item>)
    requires Derivation(t) && ObjectRest(Root(t)) && t.Node? && t.rule == 11
    ensures |t.kids| == 2 && Derivation(t.kids[0]) && Derivation(t.kids[1]) && Root(t.kids[0]).ObjElem?
    ensures |pair| == 2 && Paired(pair) && Effect(t, build) == Effect(t.kids[1], pair + build)
    ensures Member(CString(pair[1].v.s), pair[0].v) == MemberOf(t.kids[0])
    decreases t, 0
  {
    hide *;
    MembersUnfold(t, build);
    EffectOfNode(t, build);
    pair := EffectOfMember(t.kids[0], build);
  }

  lemma ClosesLater(build: seq<Item>, pair: seq<Item>, items: seq<Item>, m: Member, later: seq<Member>,
                    below: seq<Item>)
    requires |pair| == 2 && Paired(pair) && Paired(items) && m == Member(CString(pair[1].v.s), pair[0].v)
    ensures Paired(pair + items)
    ensures Closes(build, pair + items, later, below) ==> Closes(build, items, [m] + later, below)
  {
    MorePairs(pair, items, m, later);
  }

  lemma ClosingIs(t: Tree, items: seq<Item>, below: seq<Item>)
    requires Derivation(t) && ObjectRest(Root(t)) && Paired(items)
    ensures MembersClose(t, items, below) <==>
            Closes(Effect(t, items + [ObjMark] + below), items, MembersOf(t), below)
  {
  }

  /** The closing brace collects the pairs. */
  lemma MembersEnd(t: Tree, items: seq<Item>, below: seq<Item>)
    requires Derivation(t) && ObjectRest(Root(t)) && t.Node? && (t.rule == 9 || t.rule == 13) && Paired(items)
    ensures MembersClose(t, items, below)
  {
    var build := items + [ObjMark] + below;
    hide *;
    MembersUnfold(t, build);
    EffectOfNode(t, build);
    ClosesIs(CloseObject(build, []), items, below);
    ClosingIs(t, items, below);
    CloseObjectStops(items, below, []);
    BuiltFromNothing(MembersIn(items));
    EffectOfLeaf(t.kids[0], CloseObject(build, []));
  }

  lemma ClosesIs(build: seq<Item>, items: seq<Item>, below: seq<Item>)
    requires Paired(items)
    ensures Closes(build, items, [], below) <==> build == [Val(JObject(BuildObject(MembersIn(items))))] + below
  {
    assert MembersIn(items) + [] == MembersIn(items);
  }

  lemma BuiltFromNothing(ms: seq<Member>)
    ensures BuildOnto(ms, []) == BuildObject(ms)
  {
  }

  /** The rest of an object ends, or goes on with a pair or without one. */
  lemma MembersUnfold(t: Tree, build: seq<Item>)
    requires Derivation(t) && ObjectRest(Root(t))
    ensures t.Node? && |t.kids| == |Rhs(t.rule)| && Yield(t.kids[0]) != []
    ensures forall i {:trigger t.kids[i]} :: 0 <= i < |t.kids| ==> Derivation(t.kids[i])
    ensures t.rule == 9 || t.rule == 13 ==>
      |t.kids| == 1 && t.kids[0].Leaf? && MembersOf(t) == []
        && Act(t.rule, Yield(t.kids[0])[0], build) == CloseObject(build, [])
    ensures t.rule != 9 && t.rule != 13 ==> Act(t.rule, Yield(t.kids[0])[0], build) == build
    ensures t.rule == 10 ==>
      |t.kids| == 1 && ObjectRest(Root(t.kids[0])) && !t.kids[0].Leaf? && MembersOf(t) == MembersOf(t.kids[0])
    ensures t.rule == 12 ==>
      |t.kids| == 2 && t.kids[0].Leaf? && ObjectRest(Root(t.kids[1])) && MembersOf(t) == MembersOf(t.kids[1])
    ensures t.rule == 11 ==>
      && |t.kids| == 2 && Root(t.kids[0]).ObjElem? && !t.kids[0].Leaf? && ObjectRest(Root(t.kids[1]))
      && MembersOf(t) == [MemberOf(t.kids[0])] + MembersOf(t.kids[1])
    ensures 9 <= t.rule <= 13
  {
    KidRoots(t);
    YieldStarts(t.kids[0]);
  }

  lemma MorePairs(pair: seq<Item>, items: seq<Item>, m: Member, later: seq<Member>)
    requires |pair| == 2 && Paired(pair) && Paired(items) && m == Member(CString(pair[1].v.s), pair[0].v)
    ensures Paired(pair + items) && MembersIn(pair + items) + later == MembersIn(items) + ([m] + later)
  {
    assert (pair + items)[2..] == items;
  }

  lemma MoreValues(v: Json, items: seq<Item>, later: seq<Json>)
    requires AllValues(items)
    ensures AllValues([Val(v)] + items) && ValuesIn([Val(v)] + items) + later == ValuesIn(items) + ([v] + later)
  {
    assert ([Val(v)] + items)[1..] == items;
  }

  lemma {:induction false} EffectOfMember(t: Tree, build: seq<Item>) returns (pair: seq<Item>)
    requires Derivation(t) && Root(t).ObjElem?
    ensures |pair| == 2 && Paired(pair) && Effect(t, build) == pair + build
    ensures Member(CString(pair[1].v.s), pair[0].v) == MemberOf(t)
    decreases t
  {
    hide *;
    var key := MemberUnfold(t, build);
    EffectOfNode(t, build);
    EffectOfLeaf(t.kids[0], [key] + build);
    EffectOfLeaf(t.kids[1], [key] + build);
    EffectOfValue(t.kids[2], [key] + build);
    pair := [Val(ValueOf(t.kids[2])), key];
    OnePair(pair);
  }

  /** A pair is a key, a separator and a value; the key is pushed first. */
  lemma MemberUnfold(t: Tree, build: seq<Item>) returns (key: Item)
    requires Derivation(t) && Root(t).ObjElem?
    ensures t.Node? && |t.kids| == 3 && t.kids[0].Leaf? && t.kids[1].Leaf? && Yield(t.kids[0]) != []
    ensures Derivation(t.kids[0]) && Derivation(t.kids[1]) && Derivation(t.kids[2]) && ValueSym(Root(t.kids[2]))
    ensures key == Val(t.kids[0].tok.val) && IsKey(key) && key.v.JString?
    ensures Act(t.rule, Yield(t.kids[0])[0], build) == [key] + build
    ensures MemberOf(t) == Member(CString(key.v.s), ValueOf(t.kids[2]))
  {
    KidRoots(t);
    key := Val(t.kids[0].tok.val);
  }

  lemma OnePair(pair: seq<Item>)
    requires |pair| == 2 && pair[0].Val? && IsKey(pair[1])
    ensures Paired(pair)
  {
    assert pair[2..] == [];
  }

  lemma {:induction false} EffectOfElements(t: Tree, items: seq<Item>, below: seq<Item>)
    requires Derivation(t) && ArrayRest(Root(t)) && AllValues(items)
    ensures Effect(t, items + [ArrMark] + below) == [Val(JArray(ValuesIn(items) + ElementsOf(t)))] + below
    decreases t
  {
    hide Effect, Yield, CloseObject, CloseArray, ValueOf, AllValues, ValuesIn;
    var build := items + [ArrMark] + below;
    EffectOfNode(t, build);
    var r, kids := t.rule, t.kids;
    if r == 16 || r == 20 {
      CloseArrayStops(items, below, []);
      EffectOfLeaf(kids[0], CloseArray(build, []));
      assert ValuesIn(items) + [] == ValuesIn(items);
    } else if r == 17 {
      EffectOfElements(kids[0], items, below);
    } else if r == 19 {
      EffectOfLeaf(kids[0], build);
      EffectOfElements(kids[1], items, below);
    } else {
      var v := ValueOf(kids[0]);
      EffectOfValue(kids[0], build);
      MoreValues(v, items, ElementsOf(kids[1]));
      assert [Val(v)] + build == ([Val(v)] + items) + [ArrMark] + below;
      EffectOfElements(kids[1], [Val(v)] + items, below);
    }
  }
}
