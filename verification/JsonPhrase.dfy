/**
  The token language of JSON documents, without grammar rules or tables:
  values in brackets, separated by commas. It is exactly what the grammar
  derives, and what such a phrase means is what is built from its derivation.
 */
module JsonPhrase {
  import opened JsonValue
  import opened JsonGrammar
  import opened JsonMachine
  import opened JsonBuild
  import opened JsonStacks
  import opened JsonRoundTrip

  datatype Phrase = Word(tok: Token) | List(items: seq<Phrase>) | Record(entries: seq<Entry>)

  datatype Entry = Entry(key: seq<Byte>, value: Phrase)

  /** Its words are strings, numbers and identifiers. */
  predicate WellFormed(p: Phrase) {
    match p
    case Word(tok) => TokenOk(tok) && (tok.sym == Str || tok.sym == Num || tok.sym == Ident)
    case List(items) => forall i {:trigger items[i]} :: 0 <= i < |items| ==> WellFormed(items[i])
    case Record(entries) => forall i {:trigger entries[i]} :: 0 <= i < |entries| ==> WellFormed(entries[i].value)
  }

  function Mark(s: Sym): Token {
    Token(s, JNull)
  }

  function Words(p: Phrase): seq<Token>
    decreases p
  {
    match p
    case Word(tok) => [tok]
    case List(items) => [Mark(BeginArray)] + ItemWords(items) + [Mark(EndArray)]
    case Record(entries) => [Mark(BeginObject)] + EntryWords(entries) + [Mark(EndObject)]
  }

  function Comma(remaining: nat): seq<Token> {
    if remaining > 1 then [Mark(ValueSep)] else []
  }

  function ItemWords(items: seq<Phrase>): seq<Token>
    decreases items
  {
    if items == [] then [] else Words(items[0]) + Comma(|items|) + ItemWords(items[1..])
  }

  function EntryWords(entries: seq<Entry>): seq<Token>
    decreases entries
  {
    if entries == [] then []
    else
      [Token(Str, JString(entries[0].key)), Mark(NameSep)] + Words(entries[0].value)
      + Comma(|entries|) + EntryWords(entries[1..])
  }

  /** Keys are read as C strings, and the last of equal keys counts. */
  function Meaning(p: Phrase): Json
    decreases p
  {
    match p
    case Word(tok) => tok.val
    case List(items) => JArray(Meanings(items))
    case Record(entries) => JObject(BuildObject(MembersMeant(entries)))
  }

  function Meanings(items: seq<Phrase>): seq<Json>
    decreases items
  {
    if items == [] then [] else [Meaning(items[0])] + Meanings(items[1..])
  }

  function MembersMeant(entries: seq<Entry>): seq<Member>
    decreases entries
  {
    if entries == [] then []
    else [Member(CString(entries[0].key), Meaning(entries[0].value))] + MembersMeant(entries[1..])
  }

  lemma WellFormedRest(items: seq<Phrase>, entries: seq<Entry>)
    requires items != [] && WellFormed(List(items))
    ensures WellFormed(items[0]) && WellFormed(List(items[1..]))
  {
  }

  lemma WellFormedEntries(entries: seq<Entry>)
    requires entries != [] && WellFormed(Record(entries))
    ensures WellFormed(entries[0].value) && WellFormed(Record(entries[1..]))
  {
  }

  // Every phrase has a derivation.

  /** t derives symbol s and yields these tokens. */
  predicate Derives(t: Tree, s: Sym, toks: seq<Token>) {
    Derivation(t) && Root(t) == s && Yield(t) == toks
  }

  lemma Derives1(r: Rule, a: Tree, s: Sym, toks: seq<Token>)
    requires Rhs(r) == [s] && Derives(a, s, toks)
    ensures Derives(Node(r, [a]), Lhs(r), toks)
  {
    Forest1(a);
    Yields1(a);
  }

  lemma Derives2(r: Rule, a: Tree, s: Sym, v: seq<Token>, b: Tree, u: Sym, w: seq<Token>)
    requires Rhs(r) == [s, u] && Derives(a, s, v) && Derives(b, u, w)
    ensures Derives(Node(r, [a, b]), Lhs(r), v + w)
  {
    Forest2(a, b);
    Yields2(a, b);
  }

  lemma Derives3(r: Rule, a: Tree, s: Sym, v: seq<Token>, b: Tree, u: Sym, w: seq<Token>, c: Tree, x: Sym,
                 y: seq<Token>)
    requires Rhs(r) == [s, u, x] && Derives(a, s, v) && Derives(b, u, w) && Derives(c, x, y)
    ensures Derives(Node(r, [a, b, c]), Lhs(r), v + w + y)
  {
    Forest3(a, b, c);
    Yields3(a, b, c);
  }

  lemma DerivesLeaf(tok: Token)
    requires TokenOk(tok)
    ensures Derives(Leaf(tok), tok.sym, [tok])
  {
  }

  /** A value of this phrase, with its meaning. */
  predicate DerivesPhrase(t: Tree, s: Sym, p: Phrase) {
    Derives(t, s, Words(p)) && ValueSym(s) && ValueOf(t) == Meaning(p)
  }

  /** What the value functions say, rule by rule. */
  lemma ValueUnfolds(t: Tree)
    requires Derivation(t) && ValueSym(Root(t))
    ensures t.Node? && t.kids != []
    ensures t.rule <= 4 ==> ValueSym(Root(t.kids[0])) && Derivation(t.kids[0]) && ValueOf(t) == ValueOf(t.kids[0])
    ensures 5 <= t.rule <= 7 ==> t.kids[0].Leaf? && ValueOf(t) == t.kids[0].tok.val && Yield(t) == [t.kids[0].tok]
    ensures t.rule == 8 ==> |t.kids| == 2 && Derivation(t.kids[1]) && ObjectRest(Root(t.kids[1])) &&
                            ValueOf(t) == JObject(BuildObject(MembersOf(t.kids[1])))
    ensures t.rule == 15 ==> |t.kids| == 2 && Derivation(t.kids[1]) && ArrayRest(Root(t.kids[1])) &&
                             ValueOf(t) == JArray(ElementsOf(t.kids[1]))
    ensures t.rule <= 8 || t.rule == 15
  {
    KidRoots(t);
    if 5 <= t.rule <= 7 { Yields1(t.kids[0]); }
  }

  lemma {:induction false} ValueDerives(p: Phrase) returns (t: Tree)
    requires WellFormed(p)
    ensures DerivesPhrase(t, Value, p)
    decreases p, 1
  {
    hide Derivation, Yield, Root, ValueOf, WellFormed;
    if p.Word? {
      t := WordDerives(p);
    } else {
      var c := ContainerPhrase(p);
      t := Wrapped(if p.Record? then 3 else 4, c, p);
    }
  }

  lemma WordDerives(p: Phrase) returns (t: Tree)
    requires p.Word? && WellFormed(p)
    ensures DerivesPhrase(t, Value, p)
  {
    var r: Rule := if p.tok.sym == Str then 5 else if p.tok.sym == Num then 6 else 7;
    t := Node(r, [Leaf(p.tok)]);
    DerivesLeaf(p.tok);
    Derives1(r, Leaf(p.tok), p.tok.sym, [p.tok]);
    hide Derivation, Yield;
    ValueUnfolds(t);
  }

  /** A container as a document or as a value. */
  lemma Wrapped(r: Rule, c: Tree, p: Phrase) returns (t: Tree)
    requires r <= 4 && DerivesPhrase(c, Rhs(r)[0], p)
    ensures DerivesPhrase(t, Lhs(r), p)
  {
    hide Derivation, Yield;
    t := Node(r, [c]);
    Derives1(r, c, Rhs(r)[0], Words(p));
    ValueUnfolds(t);
  }

  lemma {:induction false} ContainerPhrase(p: Phrase) returns (t: Tree)
    requires WellFormed(p) && !p.Word?
    ensures DerivesPhrase(t, if p.Record? then Object else Array, p)
    decreases p, 0
  {
    hide Derivation, Yield, WellFormed, ElementsOf, MembersOf, ItemWords, EntryWords;
    if p.List? {
      var body := BodyOfList(p.items);
      var w := ItemWords(p.items) + [Mark(EndArray)];
      t := Node(15, [Leaf(Mark(BeginArray)), body]);
      DerivesLeaf(Mark(BeginArray));
      Derives2(15, Leaf(Mark(BeginArray)), BeginArray, [Mark(BeginArray)], body, ArrBody, w);
      assert [Mark(BeginArray)] + w == Words(p);
    } else {
      var body := BodyOfRecord(p.entries);
      var w := EntryWords(p.entries) + [Mark(EndObject)];
      t := Node(8, [Leaf(Mark(BeginObject)), body]);
      DerivesLeaf(Mark(BeginObject));
      Derives2(8, Leaf(Mark(BeginObject)), BeginObject, [Mark(BeginObject)], body, ObjBody, w);
      assert [Mark(BeginObject)] + w == Words(p);
    }
    ValueUnfolds(t);
  }

  lemma {:induction false} BodyOfList(items: seq<Phrase>) returns (t: Tree)
    requires WellFormed(List(items))
    ensures Derives(t, ArrBody, ItemWords(items) + [Mark(EndArray)]) && ElementsOf(t) == Meanings(items)
    decreases items, 1
  {
    if items == [] {
      t := Node(16, [Leaf(Mark(EndArray))]);
      DerivesLeaf(Mark(EndArray));
      Derives1(16, Leaf(Mark(EndArray)), EndArray, [Mark(EndArray)]);
      ElementsUnfold(t);
      assert ItemWords(items) + [Mark(EndArray)] == [Mark(EndArray)];
    } else {
      hide Derivation, Yield, Root, ElementsOf;
      var e := ItemsDerive(items);
      t := Node(17, [e]);
      Derives1(17, e, ArrElems, ItemWords(items) + [Mark(EndArray)]);
      RestOf(t, e, ArrBody, ArrElems);
      ElementsUnfold(t);
    }
  }

  lemma RestOf(t: Tree, e: Tree, s: Sym, u: Sym)
    requires Derivation(t) && Root(t) == s && Derivation(e) && Root(e) == u
    ensures ObjectRest(s) ==> ObjectRest(Root(t))
    ensures ArrayRest(s) ==> ArrayRest(Root(t))
    ensures ObjectRest(u) ==> ObjectRest(Root(e))
    ensures ArrayRest(u) ==> ArrayRest(Root(e))
  {
  }

  lemma ElementsUnfold(t: Tree)
    requires Derivation(t) && ArrayRest(Root(t))
    ensures t.Node? && 16 <= t.rule <= 20 && t.kids != []
    ensures t.rule == 16 || t.rule == 20 ==> ElementsOf(t) == []
    ensures t.rule == 17 ==>
      Derivation(t.kids[0]) && ArrayRest(Root(t.kids[0])) && ElementsOf(t) == ElementsOf(t.kids[0])
    ensures t.rule == 18 ==>
      && |t.kids| == 2 && Derivation(t.kids[0]) && ValueSym(Root(t.kids[0]))
      && Derivation(t.kids[1]) && ArrayRest(Root(t.kids[1]))
      && ElementsOf(t) == [ValueOf(t.kids[0])] + ElementsOf(t.kids[1])
    ensures t.rule == 19 ==>
      && |t.kids| == 2 && Derivation(t.kids[1]) && ArrayRest(Root(t.kids[1]))
      && ElementsOf(t) == ElementsOf(t.kids[1])
  {
    KidRoots(t);
    hide Derivation, Yield, ValueOf;
  }

  lemma {:induction false} ItemsDerive(items: seq<Phrase>) returns (t: Tree)
    requires items != [] && WellFormed(List(items))
    ensures Derives(t, ArrElems, ItemWords(items) + [Mark(EndArray)]) && ElementsOf(t) == Meanings(items)
    decreases items, 0
  {
    WellFormedRest(items, []);
    hide *;
    var v := ValueDerives(items[0]);
    var tail, w;
    if |items| == 1 {
      tail, w := EndOfList(items);
    } else {
      var e := ItemsDerive(items[1..]);
      tail, w := MoreOfList(items, e);
    }
    t := OneItem(items, v, tail, w);
  }

  lemma EndOfList(items: seq<Phrase>) returns (tail: Tree, w: seq<Token>)
    requires |items| == 1
    ensures Derives(tail, ArrTail, w) && ElementsOf(tail) == Meanings(items[1..])
    ensures w == Comma(|items|) + ItemWords(items[1..]) + [Mark(EndArray)]
  {
    w := [Mark(EndArray)];
    tail := Node(20, [Leaf(Mark(EndArray))]);
    DerivesLeaf(Mark(EndArray));
    Derives1(20, Leaf(Mark(EndArray)), EndArray, w);
    ElementsUnfold(tail);
  }

  lemma MoreOfList(items: seq<Phrase>, e: Tree) returns (tail: Tree, w: seq<Token>)
    requires |items| > 1 && Derives(e, ArrElems, ItemWords(items[1..]) + [Mark(EndArray)])
    requires ElementsOf(e) == Meanings(items[1..])
    ensures Derives(tail, ArrTail, w) && ElementsOf(tail) == Meanings(items[1..])
    ensures w == Comma(|items|) + ItemWords(items[1..]) + [Mark(EndArray)]
  {
    hide Yield;
    var more := ItemWords(items[1..]) + [Mark(EndArray)];
    w := [Mark(ValueSep)] + more;
    tail := Node(19, [Leaf(Mark(ValueSep)), e]);
    DerivesLeaf(Mark(ValueSep));
    Derives2(19, Leaf(Mark(ValueSep)), ValueSep, [Mark(ValueSep)], e, ArrElems, more);
    ElementsUnfold(tail);
  }

  lemma OneItem(items: seq<Phrase>, v: Tree, tail: Tree, w: seq<Token>) returns (t: Tree)
    requires items != [] && DerivesPhrase(v, Value, items[0])
    requires Derives(tail, ArrTail, w) && ElementsOf(tail) == Meanings(items[1..])
    requires w == Comma(|items|) + ItemWords(items[1..]) + [Mark(EndArray)]
    ensures Derives(t, ArrElems, ItemWords(items) + [Mark(EndArray)]) && ElementsOf(t) == Meanings(items)
  {
    hide Yield, ValueOf, Words;
    t := Node(18, [v, tail]);
    Derives2(18, v, Value, Words(items[0]), tail, ArrTail, w);
    ElementsUnfold(t);
    assert Words(items[0]) + w == ItemWords(items) + [Mark(EndArray)];
  }

  lemma MembersUnfolding(t: Tree)
    requires Derivation(t) && ObjectRest(Root(t))
    ensures t.Node? && 9 <= t.rule <= 13 && t.kids != []
    ensures t.rule == 9 || t.rule == 13 ==> MembersOf(t) == []
    ensures t.rule == 10 ==>
      Derivation(t.kids[0]) && ObjectRest(Root(t.kids[0])) && MembersOf(t) == MembersOf(t.kids[0])
    ensures t.rule == 11 ==>
      && |t.kids| == 2 && Derivation(t.kids[0]) && Root(t.kids[0]).ObjElem?
      && Derivation(t.kids[1]) && ObjectRest(Root(t.kids[1]))
      && MembersOf(t) == [MemberOf(t.kids[0])] + MembersOf(t.kids[1])
    ensures t.rule == 12 ==>
      && |t.kids| == 2 && Derivation(t.kids[1]) && ObjectRest(Root(t.kids[1]))
      && MembersOf(t) == MembersOf(t.kids[1])
  {
    KidRoots(t);
    hide Derivation, Yield, ValueOf, MemberOf;
  }

  lemma {:induction false} BodyOfRecord(entries: seq<Entry>) returns (t: Tree)
    requires WellFormed(Record(entries))
    ensures Derives(t, ObjBody, EntryWords(entries) + [Mark(EndObject)]) && MembersOf(t) == MembersMeant(entries)
    decreases entries, 1
  {
    if entries == [] {
      t := Node(9, [Leaf(Mark(EndObject))]);
      DerivesLeaf(Mark(EndObject));
      Derives1(9, Leaf(Mark(EndObject)), EndObject, [Mark(EndObject)]);
      MembersUnfolding(t);
      assert EntryWords(entries) + [Mark(EndObject)] == [Mark(EndObject)];
    } else {
      hide Derivation, Yield, Root, MembersOf;
      var e := EntriesDerive(entries);
      t := Node(10, [e]);
      Derives1(10, e, ObjElems, EntryWords(entries) + [Mark(EndObject)]);
      RestOf(t, e, ObjBody, ObjElems);
      MembersUnfolding(t);
    }
  }

  lemma {:induction false} EntriesDerive(entries: seq<Entry>) returns (t: Tree)
    requires entries != [] && WellFormed(Record(entries))
    ensures Derives(t, ObjElems, EntryWords(entries) + [Mark(EndObject)]) && MembersOf(t) == MembersMeant(entries)
    decreases entries, 0
  {
    WellFormedEntries(entries);
    hide *;
    var v := ValueDerives(entries[0].value);
    var m := PairDerives(entries[0], v);
    var tail, w;
    if |entries| == 1 {
      tail, w := EndOfRecord(entries);
    } else {
      var e := EntriesDerive(entries[1..]);
      tail, w := MoreOfRecord(entries, e);
    }
    t := OneEntry(entries, m, tail, w);
  }

  lemma PairDerives(entry: Entry, v: Tree) returns (m: Tree)
    requires DerivesPhrase(v, Value, entry.value)
    ensures Derives(m, ObjElem, [Token(Str, JString(entry.key)), Mark(NameSep)] + Words(entry.value))
    ensures MemberOf(m) == Member(CString(entry.key), Meaning(entry.value))
  {
    var key := Token(Str, JString(entry.key));
    m := Node(14, [Leaf(key), Leaf(Mark(NameSep)), v]);
    DerivesLeaf(key);
    DerivesLeaf(Mark(NameSep));
    hide Yield, ValueOf, Words;
    Derives3(14, Leaf(key), Str, [key], Leaf(Mark(NameSep)), NameSep, [Mark(NameSep)], v, Value, Words(entry.value));
    assert [key] + [Mark(NameSep)] + Words(entry.value) == [key, Mark(NameSep)] + Words(entry.value);
    KidRoots(m);
  }

  lemma EndOfRecord(entries: seq<Entry>) returns (tail: Tree, w: seq<Token>)
    requires |entries| == 1
    ensures Derives(tail, ObjTail, w) && MembersOf(tail) == MembersMeant(entries[1..])
    ensures w == Comma(|entries|) + EntryWords(entries[1..]) + [Mark(EndObject)]
  {
    w := [Mark(EndObject)];
    tail := Node(13, [Leaf(Mark(EndObject))]);
    DerivesLeaf(Mark(EndObject));
    Derives1(13, Leaf(Mark(EndObject)), EndObject, w);
    MembersUnfolding(tail);
  }

  lemma MoreOfRecord(entries: seq<Entry>, e: Tree) returns (tail: Tree, w: seq<Token>)
    requires |entries| > 1 && Derives(e, ObjElems, EntryWords(entries[1..]) + [Mark(EndObject)])
    requires MembersOf(e) == MembersMeant(entries[1..])
    ensures Derives(tail, ObjTail, w) && MembersOf(tail) == MembersMeant(entries[1..])
    ensures w == Comma(|entries|) + EntryWords(entries[1..]) + [Mark(EndObject)]
  {
    hide Yield;
    var more := EntryWords(entries[1..]) + [Mark(EndObject)];
    w := [Mark(ValueSep)] + more;
    tail := Node(12, [Leaf(Mark(ValueSep)), e]);
    DerivesLeaf(Mark(ValueSep));
    Derives2(12, Leaf(Mark(ValueSep)), ValueSep, [Mark(ValueSep)], e, ObjElems, more);
    MembersUnfolding(tail);
  }

  lemma OneEntry(entries: seq<Entry>, m: Tree, tail: Tree, w: seq<Token>) returns (t: Tree)
    requires entries != []
    requires Derives(m, ObjElem, [Token(Str, JString(entries[0].key)), Mark(NameSep)] + Words(entries[0].value))
    requires MemberOf(m) == Member(CString(entries[0].key), Meaning(entries[0].value))
    requires Derives(tail, ObjTail, w) && MembersOf(tail) == MembersMeant(entries[1..])
    requires w == Comma(|entries|) + EntryWords(entries[1..]) + [Mark(EndObject)]
    ensures Derives(t, ObjElems, EntryWords(entries) + [Mark(EndObject)]) && MembersOf(t) == MembersMeant(entries)
  {
    hide Yield, MemberOf, Words;
    var first := [Token(Str, JString(entries[0].key)), Mark(NameSep)] + Words(entries[0].value);
    t := Node(11, [m, tail]);
    Derives2(11, m, ObjElem, first, tail, ObjTail, w);
    MembersUnfolding(t);
    assert first + w == EntryWords(entries) + [Mark(EndObject)];
  }

  /** A bracketed phrase is a document of the grammar, and its value is what the phrase means. */
  lemma PhraseDerives(p: Phrase) returns (t: Tree)
    requires WellFormed(p) && !p.Word?
    ensures Parses(t, Words(p)) && ValueOf(t) == Meaning(p)
  {
    hide Derivation, Yield, Root, ValueOf, WellFormed;
    var c := ContainerPhrase(p);
    t := Wrapped(if p.Record? then 1 else 2, c, p);
  }

  // Every derivation yields a phrase.

  /** Brackets, colons and commas carry no value. */
  ghost predicate Plain(toks: seq<Token>) {
    forall i {:trigger toks[i]} :: 0 <= i < |toks| ==>
      toks[i].sym == Str || toks[i].sym == Num || toks[i].sym == Ident || toks[i] == Mark(toks[i].sym)
  }

  lemma PlainParts(a: seq<Token>, b: seq<Token>)
    requires Plain(a + b)
    ensures Plain(a) && Plain(b)
  {
    var s := a + b;
    assert forall i {:trigger a[i]} :: 0 <= i < |a| ==> a[i] == s[i];
    assert forall i {:trigger b[i]} :: 0 <= i < |b| ==> b[i] == s[i + |a|];
  }

  lemma PlainMark(tok: Token)
    requires Plain([tok]) && TokenOk(tok) && tok.sym != Str && tok.sym != Num && tok.sym != Ident
    ensures [tok] == [Mark(tok.sym)]
  {
    assert [tok][0] == tok;
  }

  /** What a node yields is what its children yield. */
  lemma NodeYields(t: Tree)
    requires Derivation(t) && t.Node? && Plain(Yield(t))
    ensures |t.kids| == |Rhs(t.rule)|
    ensures forall i {:trigger t.kids[i]} :: 0 <= i < |t.kids| ==>
            Derivation(t.kids[i]) && Root(t.kids[i]) == Rhs(t.rule)[i]
    ensures |t.kids| == 1 ==> Yield(t) == Yield(t.kids[0])
    ensures |t.kids| == 2 ==> Yield(t) == Yield(t.kids[0]) + Yield(t.kids[1])
    ensures |t.kids| == 3 ==> Yield(t) == Yield(t.kids[0]) + Yield(t.kids[1]) + Yield(t.kids[2])
    ensures forall i {:trigger t.kids[i]} :: 0 <= i < |t.kids| ==> Plain(Yield(t.kids[i]))
  {
    KidRoots(t);
    hide Derivation;
    var k := t.kids;
    if |k| == 1 {
      assert k == [k[0]];
      Yields1(k[0]);
    } else if |k| == 2 {
      assert k == [k[0], k[1]];
      Yields2(k[0], k[1]);
      PlainParts(Yield(k[0]), Yield(k[1]));
    } else {
      assert k == [k[0], k[1], k[2]];
      Yields3(k[0], k[1], k[2]);
      PlainParts(Yield(k[0]) + Yield(k[1]), Yield(k[2]));
      PlainParts(Yield(k[0]), Yield(k[1]));
    }
  }

  /** A child that is a mark. */
  lemma MarkYields(t: Tree, s: Sym)
    requires Derivation(t) && Root(t) == s && Plain(Yield(t))
    requires Terminal(s) && s != Str && s != Num && s != Ident
    ensures Yield(t) == [Mark(s)]
  {
    assert t.Leaf?;
    PlainMark(t.tok);
  }

  lemma {:induction false} ValuePhrase(t: Tree) returns (p: Phrase)
    requires Derivation(t) && ValueSym(Root(t)) && Plain(Yield(t))
    ensures WellFormed(p) && Words(p) == Yield(t) && Meaning(p) == ValueOf(t)
    ensures Root(t) != Value ==> !p.Word?
    decreases t
  {
    hide *;
    ValueUnfolds(t);
    NodeYields(t);
    ValueRules(t);
    if t.rule <= 4 {
      p := ValuePhrase(t.kids[0]);
    } else if t.rule <= 7 {
      p := Word(t.kids[0].tok);
      WordFormed(t);
    } else if t.rule == 8 {
      var entries := EntriesPhrase(t.kids[1]);
      p := Record(entries);
      MarkYields(t.kids[0], BeginObject);
      RecordIs(entries);
    } else {
      var items := ItemsPhrase(t.kids[1]);
      p := List(items);
      MarkYields(t.kids[0], BeginArray);
      ListIs(items);
    }
  }

  /** The shapes of rules for values. */
  lemma ValueRules(t: Tree)
    requires Derivation(t) && t.Node? && (t.rule <= 8 || t.rule == 15)
    requires |t.kids| == |Rhs(t.rule)|
    requires forall i {:trigger t.kids[i]} :: 0 <= i < |t.kids| ==>
             Derivation(t.kids[i]) && Root(t.kids[i]) == Rhs(t.rule)[i]
    ensures if t.rule == 8 || t.rule == 15 then |t.kids| == 2 else |t.kids| == 1
    ensures t.rule <= 4 ==> Root(t.kids[0]) != Value
    ensures 5 <= t.rule <= 7 ==> t.kids[0].Leaf? && Root(t) == Value
    ensures t.rule == 8 ==> Root(t.kids[0]) == BeginObject && Root(t.kids[1]) == ObjBody && ObjBody != ObjTail
    ensures t.rule == 15 ==> Root(t.kids[0]) == BeginArray && Root(t.kids[1]) == ArrBody && ArrBody != ArrTail
    ensures Terminal(BeginObject) && Terminal(BeginArray)
  {
  }

  lemma RecordIs(entries: seq<Entry>)
    ensures [Mark(BeginObject)] + ([] + EntryWords(entries) + [Mark(EndObject)]) == Words(Record(entries))
    ensures Meaning(Record(entries)) == JObject(BuildObject(MembersMeant(entries)))
  {
    hide EntryWords;
  }

  lemma ListIs(items: seq<Phrase>)
    ensures [Mark(BeginArray)] + ([] + ItemWords(items) + [Mark(EndArray)]) == Words(List(items))
    ensures Meaning(List(items)) == JArray(Meanings(items))
  {
    hide ItemWords;
  }

  lemma WordFormed(t: Tree)
    requires Derivation(t) && t.Node? && 5 <= t.rule <= 7 && |t.kids| == 1 && t.kids[0].Leaf?
    requires Derivation(t.kids[0]) && Root(t.kids[0]) == Rhs(t.rule)[0]
    ensures WellFormed(Word(t.kids[0].tok)) && Root(t) == Value
    ensures Words(Word(t.kids[0].tok)) == [t.kids[0].tok] && Meaning(Word(t.kids[0].tok)) == t.kids[0].tok.val
  {
  }

  /** What follows the first element, up to the closing bracket. */
  lemma {:induction false} ItemsPhrase(t: Tree) returns (items: seq<Phrase>)
    requires Derivation(t) && ArrayRest(Root(t)) && Plain(Yield(t))
    ensures WellFormed(List(items)) && Meanings(items) == ElementsOf(t)
    ensures Yield(t) == (if Root(t) == ArrTail && items != [] then [Mark(ValueSep)] else [])
                        + ItemWords(items) + [Mark(EndArray)]
    ensures Root(t) == ArrElems ==> items != []
    decreases t
  {
    hide *;
    ElementsUnfold(t);
    NodeYields(t);
    RestRules(t);
    if t.rule == 16 || t.rule == 20 {
      items := [];
      MarkYields(t.kids[0], EndArray);
      NoItems();
    } else if t.rule == 17 {
      items := ItemsPhrase(t.kids[0]);
    } else if t.rule == 18 {
      var v := ValuePhrase(t.kids[0]);
      var more := ItemsPhrase(t.kids[1]);
      items := [v] + more;
      FirstItem(v, more);
    } else {
      items := ItemsPhrase(t.kids[1]);
      MarkYields(t.kids[0], ValueSep);
      NoMark(ItemWords(items) + [Mark(EndArray)], ItemWords(items), [Mark(EndArray)]);
    }
  }

  /** The shapes of rules for what follows in a container. */
  lemma RestRules(t: Tree)
    requires Derivation(t) && t.Node? && t.rule >= 9 && t.rule != 14 && t.rule != 15
    requires |t.kids| == |Rhs(t.rule)|
    requires forall i {:trigger t.kids[i]} :: 0 <= i < |t.kids| ==>
             Derivation(t.kids[i]) && Root(t.kids[i]) == Rhs(t.rule)[i]
    ensures if t.rule in {11, 12, 18, 19} then |t.kids| == 2 else |t.kids| == 1
    ensures t.rule == 16 || t.rule == 20 ==> Root(t.kids[0]) == EndArray
    ensures t.rule == 9 || t.rule == 13 ==> Root(t.kids[0]) == EndObject
    ensures t.rule == 12 || t.rule == 19 ==> Root(t.kids[0]) == ValueSep
    ensures t.rule == 10 || t.rule == 12 ==> Root(t.kids[|t.kids| - 1]) == ObjElems
    ensures t.rule == 17 || t.rule == 19 ==> Root(t.kids[|t.kids| - 1]) == ArrElems
    ensures t.rule == 11 ==> Root(t.kids[1]) == ObjTail
    ensures t.rule == 18 ==> Root(t.kids[1]) == ArrTail
    ensures Root(t) == Lhs(t.rule) && Terminal(EndArray) && Terminal(EndObject) && Terminal(ValueSep)
    ensures t.rule == 12 || t.rule == 13 <==> Lhs(t.rule) == ObjTail
    ensures t.rule == 19 || t.rule == 20 <==> Lhs(t.rule) == ArrTail
    ensures t.rule == 11 <==> Lhs(t.rule) == ObjElems
    ensures t.rule == 18 <==> Lhs(t.rule) == ArrElems
  {
  }

  lemma NoItems()
    ensures [] + ItemWords([]) + [Mark(EndArray)] == [Mark(EndArray)]
    ensures WellFormed(List([])) && Meanings([]) == []
  {
  }

  lemma NoEntries()
    ensures [] + EntryWords([]) + [Mark(EndObject)] == [Mark(EndObject)]
    ensures WellFormed(Record([])) && MembersMeant([]) == []
  {
  }

  lemma NoMark(w: seq<Token>, a: seq<Token>, b: seq<Token>)
    requires w == a + b
    ensures [] + a + b == w && [Mark(ValueSep)] + ([] + a + b) == [Mark(ValueSep)] + a + b
  {
    assert [] + a == a;
  }

  lemma FirstItem(v: Phrase, more: seq<Phrase>)
    requires WellFormed(v) && WellFormed(List(more))
    ensures var items := [v] + more;
      && WellFormed(List(items)) && Meanings(items) == [Meaning(v)] + Meanings(more)
      && Words(v) + ((if more != [] then [Mark(ValueSep)] else []) + ItemWords(more) + [Mark(EndArray)]) ==
         [] + ItemWords(items) + [Mark(EndArray)]
  {
    hide *;
    ItemsUnfold(v, more);
    Regrouped(Words(v), if more != [] then [Mark(ValueSep)] else [], ItemWords(more), [Mark(EndArray)]);
  }

  lemma ItemsUnfold(v: Phrase, more: seq<Phrase>)
    ensures var items := [v] + more;
      && ItemWords(items) == Words(v) + (if more != [] then [Mark(ValueSep)] else []) + ItemWords(more)
      && Meanings(items) == [Meaning(v)] + Meanings(more)
      && (WellFormed(v) && WellFormed(List(more)) ==> WellFormed(List(items)))
  {
    var items := [v] + more;
    assert items[0] == v && items[1..] == more;
    hide Words, Meaning;
  }

  lemma Regrouped(a: seq<Token>, b: seq<Token>, c: seq<Token>, d: seq<Token>)
    ensures a + (b + c + d) == [] + (a + b + c) + d
  {
  }

  lemma {:induction false} EntriesPhrase(t: Tree) returns (entries: seq<Entry>)
    requires Derivation(t) && ObjectRest(Root(t)) && Plain(Yield(t))
    ensures WellFormed(Record(entries)) && MembersMeant(entries) == MembersOf(t)
    ensures Yield(t) == (if Root(t) == ObjTail && entries != [] then [Mark(ValueSep)] else [])
                        + EntryWords(entries) + [Mark(EndObject)]
    ensures Root(t) == ObjElems ==> entries != []
    decreases t
  {
    hide *;
    MembersUnfolding(t);
    NodeYields(t);
    RestRules(t);
    if t.rule == 9 || t.rule == 13 {
      entries := [];
      MarkYields(t.kids[0], EndObject);
      NoEntries();
    } else if t.rule == 10 {
      entries := EntriesPhrase(t.kids[0]);
    } else if t.rule == 11 {
      var m := EntryPhrase(t.kids[0]);
      var more := EntriesPhrase(t.kids[1]);
      entries := [m] + more;
      FirstEntry(m, more);
    } else {
      entries := EntriesPhrase(t.kids[1]);
      MarkYields(t.kids[0], ValueSep);
      NoMark(EntryWords(entries) + [Mark(EndObject)], EntryWords(entries), [Mark(EndObject)]);
    }
  }

  lemma {:induction false} EntryPhrase(t: Tree) returns (entry: Entry)
    requires Derivation(t) && Root(t).ObjElem? && Plain(Yield(t))
    ensures WellFormed(entry.value)
    ensures Yield(t) == [Token(Str, JString(entry.key)), Mark(NameSep)] + Words(entry.value)
    ensures MemberOf(t) == Member(CString(entry.key), Meaning(entry.value))
    decreases t
  {
    PairUnfolds(t);
    NodeYields(t);
    hide Derivation, Yield, ValueOf, MemberOf, Words;
    var v := ValuePhrase(t.kids[2]);
    entry := Entry(t.kids[0].tok.val.s, v);
    MarkYields(t.kids[1], NameSep);
    var key := Token(Str, JString(entry.key));
    assert [key] + [Mark(NameSep)] + Words(v) == [key, Mark(NameSep)] + Words(v);
  }

  lemma PairUnfolds(t: Tree)
    requires Derivation(t) && Root(t).ObjElem?
    ensures t.Node? && t.rule == 14 && |t.kids| == 3
    ensures forall i {:trigger t.kids[i]} :: 0 <= i < 3 ==> Derivation(t.kids[i]) && Root(t.kids[i]) == Rhs(14)[i]
    ensures t.kids[0].Leaf? && t.kids[0].tok.sym == Str
    ensures t.kids[0].tok.val.JString? && Yield(t.kids[0]) == [t.kids[0].tok]
    ensures MemberOf(t) == Member(CString(t.kids[0].tok.val.s), ValueOf(t.kids[2]))
  {
    KidRoots(t);
  }

  lemma FirstEntry(m: Entry, more: seq<Entry>)
    requires WellFormed(m.value) && WellFormed(Record(more))
    ensures var entries := [m] + more;
      && WellFormed(Record(entries))
      && MembersMeant(entries) == [Member(CString(m.key), Meaning(m.value))] + MembersMeant(more)
      && [Token(Str, JString(m.key)), Mark(NameSep)] + Words(m.value)
         + ((if more != [] then [Mark(ValueSep)] else []) + EntryWords(more) + [Mark(EndObject)]) ==
         [] + EntryWords(entries) + [Mark(EndObject)]
  {
    hide *;
    EntriesUnfold(m, more);
    Regrouped([Token(Str, JString(m.key)), Mark(NameSep)] + Words(m.value),
              if more != [] then [Mark(ValueSep)] else [], EntryWords(more), [Mark(EndObject)]);
  }

  lemma EntriesUnfold(m: Entry, more: seq<Entry>)
    ensures var entries := [m] + more;
      && EntryWords(entries) == [Token(Str, JString(m.key)), Mark(NameSep)] + Words(m.value)
                                + (if more != [] then [Mark(ValueSep)] else []) + EntryWords(more)
      && MembersMeant(entries) == [Member(CString(m.key), Meaning(m.value))] + MembersMeant(more)
      && (WellFormed(m.value) && WellFormed(Record(more)) ==> WellFormed(Record(entries)))
  {
    var entries := [m] + more;
    assert entries[0] == m && entries[1..] == more;
    hide Words, Meaning;
  }

  /** The documents of the grammar are exactly the phrases in brackets, and mean what these mean. */
  lemma DocumentsArePhrases(toks: seq<Token>)
    requires Plain(toks)
    ensures IsDocument(toks) <==> exists p {:trigger Words(p)} :: WellFormed(p) && !p.Word? && Words(p) == toks
  {
    if IsDocument(toks) {
      var t :| Parses(t, toks);
      var p := ValuePhrase(t);
    }
    if p :| WellFormed(p) && !p.Word? && Words(p) == toks {
      var t := PhraseDerives(p);
    }
  }
}
