/** Serialized text is read back as the tokens of a derivation of the document. */
module JsonRoundTrip {
  import opened Keys
  import opened JsonValue
  import opened JsonGrammar
  import opened JsonMachine
  import opened JsonBuild
  import opened JsonStacks
  import opened JsonHeight
  import opened JsonText
  import opened JsonLexer

  /** No floats; members of every object in the order of its trie. */
  predicate Printable(n: Json) {
    match n
    case JFloat(_) => false
    case JInt(_) => true
    case JArray(items) => PrintableItems(items)
    case JObject(ms) => Sorted(ms) && PrintableMembers(ms)
    case _ => true
  }

  predicate PrintableItems(items: seq<Json>) {
    items == [] || (Printable(items[0]) && PrintableItems(items[1..]))
  }

  predicate PrintableMembers(ms: seq<Member>) {
    ms == [] || (Printable(ms[0].value) && PrintableMembers(ms[1..]))
  }

  /** No string holds a NUL byte. */
  predicate NulFree(n: Json) {
    match n
    case JString(s) => 0 !in s
    case JArray(items) => NulFreeItems(items)
    case JObject(ms) => NulFreeMembers(ms)
    case _ => true
  }

  predicate NulFreeItems(items: seq<Json>) {
    items == [] || (NulFree(items[0]) && NulFreeItems(items[1..]))
  }

  predicate NulFreeMembers(ms: seq<Member>) {
    ms == [] || (NulFree(ms[0].value) && NulFreeMembers(ms[1..]))
  }

  function Punct(s: Sym): Tree {
    Leaf(Token(s, JNull))
  }

  /** The derivation of a serialized value. */
  function TreeOf(n: Json): Tree
    decreases n, 1
  {
    match n
    case JNull => Node(7, [Leaf(Token(Ident, n))])
    case JBool(_) => Node(7, [Leaf(Token(Ident, n))])
    case JInt(_) => Node(6, [Leaf(Token(Num, n))])
    case JFloat(_) => Node(6, [Leaf(Token(Num, n))])
    case JString(s) => Node(5, [Leaf(Token(Str, JString(s)))])
    case JArray(_) => Node(4, [ContainerTree(n)])
    case JObject(_) => Node(3, [ContainerTree(n)])
  }

  function ContainerTree(n: Json): Tree
    requires n.JArray? || n.JObject?
    decreases n, 0
  {
    if n.JArray? then
      var body := if n.items == [] then Node(16, [Punct(EndArray)]) else Node(17, [ElementsTree(n.items)]);
      Node(15, [Punct(BeginArray), body])
    else
      var body := if n.members == [] then Node(9, [Punct(EndObject)]) else Node(10, [MembersTree(n.members)]);
      Node(8, [Punct(BeginObject), body])
  }

  function ElementsTree(items: seq<Json>): Tree
    requires items != []
    decreases items, 0
  {
    var tail := if |items| == 1 then Node(20, [Punct(EndArray)])
      else Node(19, [Punct(ValueSep), ElementsTree(items[1..])]);
    Node(18, [TreeOf(items[0]), tail])
  }

  function MemberTree(m: Member): Tree
    decreases m, 0
  {
    Node(14, [Leaf(Token(Str, JString(m.key))), Punct(NameSep), TreeOf(m.value)])
  }

  function MembersTree(ms: seq<Member>): Tree
    requires ms != []
    decreases ms, 0
  {
    var tail := if |ms| == 1 then Node(13, [Punct(EndObject)]) else Node(12, [Punct(ValueSep), MembersTree(ms[1..])]);
    Node(11, [MemberTree(ms[0]), tail])
  }

  function DocumentTree(n: Json): Tree
    requires n.JArray? || n.JObject?
  {
    Node(if n.JArray? then 2 else 1, [ContainerTree(n)])
  }

  // The derivation is one, and its value is the document.

  lemma {:induction false} CStringOfKey(k: Key)
    ensures CString(k) == k
  {
    if k != [] {
      CStringOfKey(k[1..]);
      assert k == [k[0]] + k[1..];
    }
  }

  lemma {:induction false} TreeDerives(n: Json)
    ensures Derivation(TreeOf(n)) && Root(TreeOf(n)).Value?
    decreases n, 1
  {
    hide Roots, Derivations;
    Forest1(TreeOf(n).kids[0]);
    if n.JArray? || n.JObject? {
      ContainerDerives(n);
    }
  }

  lemma {:induction false} ContainerDerives(n: Json)
    requires n.JArray? || n.JObject?
    ensures Derivation(ContainerTree(n)) && Root(ContainerTree(n)) == if n.JArray? then Array else Object
    decreases n, 0
  {
    hide Roots, Derivations;
    var t := ContainerTree(n);
    Forest2(t.kids[0], t.kids[1]);
    Forest1(t.kids[1].kids[0]);
    if n.JArray? && n.items != [] {
      ElementsDerive(n.items);
    }
    if n.JObject? && n.members != [] {
      MembersDerive(n.members);
    }
  }

  lemma {:induction false} ElementsDerive(items: seq<Json>)
    requires items != []
    ensures Derivation(ElementsTree(items)) && Root(ElementsTree(items)).ArrElems?
    decreases items, 0
  {
    hide Roots, Derivations;
    var t := ElementsTree(items);
    Forest2(t.kids[0], t.kids[1]);
    TreeDerives(items[0]);
    if |items| == 1 {
      Forest1(t.kids[1].kids[0]);
    } else {
      Forest2(t.kids[1].kids[0], t.kids[1].kids[1]);
      ElementsDerive(items[1..]);
    }
  }

  lemma {:induction false} MemberDerives(m: Member)
    ensures Derivation(MemberTree(m)) && Root(MemberTree(m)).ObjElem?
    decreases m, 0
  {
    hide Roots, Derivations;
    var t := MemberTree(m);
    Forest3(t.kids[0], t.kids[1], t.kids[2]);
    TreeDerives(m.value);
  }

  lemma {:induction false} MembersDerive(ms: seq<Member>)
    requires ms != []
    ensures Derivation(MembersTree(ms)) && Root(MembersTree(ms)).ObjElems?
    decreases ms, 0
  {
    hide Roots, Derivations;
    var t := MembersTree(ms);
    Forest2(t.kids[0], t.kids[1]);
    MemberDerives(ms[0]);
    if |ms| == 1 {
      Forest1(t.kids[1].kids[0]);
    } else {
      Forest2(t.kids[1].kids[0], t.kids[1].kids[1]);
      MembersDerive(ms[1..]);
    }
  }

  lemma {:induction false} TreeValue(n: Json)
    requires Printable(n)
    ensures Derivation(TreeOf(n)) && Root(TreeOf(n)).Value? && ValueOf(TreeOf(n)) == n
    decreases n, 1
  {
    hide Roots, Derivations, Derivation;
    TreeDerives(n);
    KidRoots(TreeOf(n));
    if n.JArray? || n.JObject? {
      ContainerValue(n);
    }
  }

  lemma {:induction false} ContainerValue(n: Json)
    requires n.JArray? || n.JObject?
    requires Printable(n)
    ensures Derivation(ContainerTree(n)) && ValueSym(Root(ContainerTree(n))) && ValueOf(ContainerTree(n)) == n
    decreases n, 0
  {
    hide Roots, Derivations, Derivation;
    var t := ContainerTree(n);
    ContainerDerives(n);
    KidRoots(t);
    KidRoots(t.kids[1]);
    if n.JArray? {
      if n.items != [] {
        ElementsValue(n.items);
      }
    } else {
      BuildSorted(n.members);
      if n.members != [] {
        MembersValue(n.members);
      }
    }
  }

  lemma {:induction false} ElementsValue(items: seq<Json>)
    requires items != [] && PrintableItems(items)
    ensures Derivation(ElementsTree(items)) && ArrayRest(Root(ElementsTree(items)))
    ensures ElementsOf(ElementsTree(items)) == items
    decreases items, 0
  {
    hide Roots, Derivations, Derivation;
    var t := ElementsTree(items);
    ElementsDerive(items);
    KidRoots(t);
    KidRoots(t.kids[1]);
    TreeValue(items[0]);
    if |items| > 1 {
      ElementsValue(items[1..]);
    }
  }

  lemma {:induction false} MembersValue(ms: seq<Member>)
    requires ms != [] && PrintableMembers(ms)
    ensures Derivation(MembersTree(ms)) && ObjectRest(Root(MembersTree(ms)))
    ensures MembersOf(MembersTree(ms)) == ms
    decreases ms, 0
  {
    hide Roots, Derivations, Derivation;
    var t := MembersTree(ms);
    MembersDerive(ms);
    KidRoots(t);
    KidRoots(t.kids[1]);
    KidRoots(t.kids[0]);
    CStringOfKey(ms[0].key);
    TreeValue(ms[0].value);
    if |ms| > 1 {
      MembersValue(ms[1..]);
    }
  }

  // The lexer reads the text of a document as the yield of its derivation.

  lemma Yields1(a: Tree)
    ensures Yields([a]) == Yield(a)
  {
    assert [a][1..] == [];
    assert Yield(a) + [] == Yield(a);
  }

  lemma Yields2(a: Tree, b: Tree)
    ensures Yields([a, b]) == Yield(a) + Yield(b)
  {
    assert [a, b][1..] == [b];
    Yields1(b);
  }

  lemma Yields3(a: Tree, b: Tree, c: Tree)
    ensures Yields([a, b, c]) == Yield(a) + Yield(b) + Yield(c)
  {
    assert [a, b, c][1..] == [b, c];
    Yields2(b, c);
    assert Yield(a) + (Yield(b) + Yield(c)) == Yield(a) + Yield(b) + Yield(c);
  }

  lemma {:induction false} LexValue(n: Json, pretty: int, rest: Text)
    requires Printable(n) && NulFree(n)
    requires rest != [] && Delimiter(rest[0])
    ensures LexAll(LIMBO, TextOf(n, pretty) + rest) == After(Yield(TreeOf(n)), LexAll(LIMBO, rest))
    decreases n, 1
  {
    hide LexAll;
    Yields1(TreeOf(n).kids[0]);
    match n
    case JNull => LexKeyword(n, NULL_TEXT, rest);
    case JBool(b) => LexKeyword(n, if b then TRUE_TEXT else FALSE_TEXT, rest);
    case JInt(i) => LexDecimal(i, rest);
    case JString(s) => LexQuoted(s, rest);
    case JArray(_) => LexContainer(n, pretty, rest);
    case JObject(_) => LexContainer(n, pretty, rest);
  }

  lemma LexKeyword(n: Json, word: Text, rest: Text)
    requires n.JNull? || n.JBool?
    requires word == if n.JNull? then NULL_TEXT else if n.b then TRUE_TEXT else FALSE_TEXT
    requires rest != [] && Delimiter(rest[0])
    ensures LexAll(LIMBO, word + rest) == After([Token(Ident, n)], LexAll(LIMBO, rest))
  {
    hide LexAll;
    assert NULL_TEXT[0] != TRUE_TEXT[0] && |TRUE_TEXT| != |FALSE_TEXT| && |NULL_TEXT| != |FALSE_TEXT|;
    assert Tokenize(Lexer(InIdentifier, word)) == Token(Ident, n);
    LexWord(InIdentifier, word, rest);
  }

  lemma Regroup<T>(a: seq<T>, b: seq<T>, c: seq<T>, d: seq<T>, e: seq<T>)
    ensures a + b + c + d + e == a + (b + (c + (d + e)))
  {
  }

  lemma ContainerText(n: Json, pretty: int, rest: Text)
    requires n.JArray? || n.JObject?
    ensures var open, shut := if n.JArray? then LBRACKET else LBRACE, if n.JArray? then RBRACKET else RBRACE;
            var body := if n.JArray? then ItemsText(n.items, pretty) else MembersText(n.members, pretty);
            TextOf(n, pretty) + rest == [open] + (Break(pretty) + (body + (Indent(pretty - 1) + ([shut] + rest))))
  {
    hide Break, Indent, ItemsText, MembersText;
    var open, shut := if n.JArray? then LBRACKET else LBRACE, if n.JArray? then RBRACKET else RBRACE;
    var body := if n.JArray? then ItemsText(n.items, pretty) else MembersText(n.members, pretty);
    Regroup([open], Break(pretty), body, Indent(pretty - 1), [shut]);
    Regroup([open], Break(pretty), body, Indent(pretty - 1), [shut] + rest);
    assert [open] + Break(pretty) + body + Indent(pretty - 1) + [shut] + rest ==
           [open] + Break(pretty) + body + Indent(pretty - 1) + ([shut] + rest);
  }

  lemma ItemsTextSplit(items: seq<Json>, pretty: int, last: Text)
    requires items != []
    ensures ItemsText(items, pretty) + last ==
            Indent(pretty) + (TextOf(items[0], Increment(pretty)) +
            (Separator(|items|) + (Break(pretty) + (ItemsText(items[1..], pretty) + last))))
  {
    hide Break, Indent, TextOf, Separator, Increment;
    var item, more := TextOf(items[0], Increment(pretty)), ItemsText(items[1..], pretty);
    assert ItemsText(items, pretty) == Indent(pretty) + item + Separator(|items|) + Break(pretty) + more;
    hide ItemsText;
    RegroupAll(Indent(pretty), item, Separator(|items|), Break(pretty), more, last);
  }

  lemma MembersTextSplit(ms: seq<Member>, pretty: int, last: Text)
    requires ms != []
    ensures var gap: Text := if pretty != 0 then [SPACE] else [];
            MembersText(ms, pretty) + last ==
            Indent(pretty) + (Quoted(ms[0].key) + ([COLON] + (gap + (TextOf(ms[0].value, Increment(pretty)) +
            (Separator(|ms|) + (Break(pretty) + (MembersText(ms[1..], pretty) + last)))))))
  {
    hide Break, Indent, TextOf, Separator, Increment, Quoted;
    var gap: Text := if pretty != 0 then [SPACE] else [];
    var value, more, sep := TextOf(ms[0].value, Increment(pretty)), MembersText(ms[1..], pretty), Separator(|ms|);
    var head := Indent(pretty) + Quoted(ms[0].key) + [COLON] + gap;
    assert MembersText(ms, pretty) == head + value + sep + Break(pretty) + more;
    hide MembersText;
    RegroupAll(head, value, sep, Break(pretty), more, last);
    RegroupHead(Indent(pretty), Quoted(ms[0].key), [COLON], gap, value + (sep + (Break(pretty) + (more + last))));
  }

  lemma RegroupAll<T>(a: seq<T>, b: seq<T>, c: seq<T>, d: seq<T>, e: seq<T>, f: seq<T>)
    ensures a + b + c + d + e + f == a + (b + (c + (d + (e + f))))
  {
    Regroup(a, b, c, d, e + f);
    assert a + b + c + d + e + f == a + b + c + d + (e + f);
  }

  lemma RegroupHead<T>(a: seq<T>, b: seq<T>, c: seq<T>, d: seq<T>, e: seq<T>)
    ensures (a + b + c + d) + e == a + (b + (c + (d + e)))
  {
    Regroup(a, b, c, d, e);
  }

  lemma YieldOfContainer(n: Json)
    requires n.JArray? || n.JObject?
    ensures Yield(ContainerTree(n)) ==
            if n.JArray? then
              [Token(BeginArray, JNull)]
                + (if n.items == [] then [Token(EndArray, JNull)] else Yield(ElementsTree(n.items)))
            else
              [Token(BeginObject, JNull)]
                + (if n.members == [] then [Token(EndObject, JNull)] else Yield(MembersTree(n.members)))
  {
    hide Yields, ElementsTree, MembersTree;
    var t := ContainerTree(n);
    Yields2(t.kids[0], t.kids[1]);
    Yields1(t.kids[1].kids[0]);
  }

  lemma YieldOfElements(items: seq<Json>)
    requires items != []
    ensures Yield(ElementsTree(items)) ==
            Yield(TreeOf(items[0])) + (if |items| == 1 then [Token(EndArray, JNull)]
              else [Token(ValueSep, JNull)] + Yield(ElementsTree(items[1..])))
  {
    hide Yields, TreeOf;
    var t := ElementsTree(items);
    Yields2(t.kids[0], t.kids[1]);
    if |items| == 1 {
      Yields1(t.kids[1].kids[0]);
    } else {
      Yields2(t.kids[1].kids[0], t.kids[1].kids[1]);
    }
  }

  lemma YieldOfMembers(ms: seq<Member>)
    requires ms != []
    ensures Yield(MembersTree(ms)) ==
            Yield(MemberTree(ms[0])) + (if |ms| == 1 then [Token(EndObject, JNull)]
              else [Token(ValueSep, JNull)] + Yield(MembersTree(ms[1..])))
  {
    hide Yields, MemberTree;
    var t := MembersTree(ms);
    Yields2(t.kids[0], t.kids[1]);
    if |ms| == 1 {
      Yields1(t.kids[1].kids[0]);
    } else {
      Yields2(t.kids[1].kids[0], t.kids[1].kids[1]);
    }
  }

  lemma EmptyBody(pretty: int, last: Text)
    ensures ItemsText([], pretty) + last == last && MembersText([], pretty) + last == last
  {
  }

  lemma {:induction false} LexContainer(n: Json, pretty: int, rest: Text)
    requires n.JArray? || n.JObject?
    requires Printable(n) && NulFree(n)
    ensures LexAll(LIMBO, TextOf(n, pretty) + rest) == After(Yield(ContainerTree(n)), LexAll(LIMBO, rest))
    decreases n, 0
  {
    hide LexAll, Yield, ContainerTree, TextOf, Break, Indent, After, ItemsText, MembersText, ElementsTree, MembersTree,
         Delimiter;
    var empty := if n.JArray? then n.items == [] else n.members == [];
    var open, shut := if n.JArray? then LBRACKET else LBRACE, if n.JArray? then RBRACKET else RBRACE;
    var body := if n.JArray? then ItemsText(n.items, pretty) else MembersText(n.members, pretty);
    var last := Indent(pretty - 1) + ([shut] + rest);
    ContainerText(n, pretty, rest);
    YieldOfContainer(n);
    LexPunctuation(open, Break(pretty) + (body + last));
    LexLayout(pretty, pretty - 1, body + last);
    if empty {
      EmptyBody(pretty, last);
      LexClosing(pretty, shut, rest);
      AfterTwice([Token(if n.JArray? then BeginArray else BeginObject, JNull)],
        [Token(if n.JArray? then EndArray else EndObject, JNull)], LexAll(LIMBO, rest));
    } else if n.JArray? {
      LexElements(n.items, pretty, rest);
      AfterTwice([Token(BeginArray, JNull)], Yield(ElementsTree(n.items)), LexAll(LIMBO, rest));
    } else {
      LexMembers(n.members, pretty, rest);
      AfterTwice([Token(BeginObject, JNull)], Yield(MembersTree(n.members)), LexAll(LIMBO, rest));
    }
  }

  /** After an element come a separator and more elements, or nothing and the closing indentation. */
  lemma LexFollowing(remaining: nat, pretty: int, tail: Text)
    requires remaining <= 1 ==> tail != [] && Delimiter(tail[0])
    ensures var text := Separator(remaining) + (Break(pretty) + tail);
            && text != [] && Delimiter(text[0])
            && LexAll(LIMBO, text) == if remaining > 1 then After([Token(ValueSep, JNull)], LexAll(LIMBO, tail))
              else LexAll(LIMBO, tail)
  {
    hide LexAll;
    LexLayout(pretty, 0, tail);
    if remaining > 1 {
      LexPunctuation(COMMA, Break(pretty) + tail);
    } else {
      assert Separator(remaining) + (Break(pretty) + tail) == Break(pretty) + tail;
    }
  }

  /** The closing indentation and bracket. */
  lemma LexClosing(pretty: int, shut: Byte, rest: Text)
    requires shut == RBRACKET || shut == RBRACE
    ensures var last := Indent(pretty - 1) + ([shut] + rest);
            && last != [] && Delimiter(last[0])
            && LexAll(LIMBO, last) ==
              After([Token(if shut == RBRACKET then EndArray else EndObject, JNull)], LexAll(LIMBO, rest))
  {
    hide LexAll;
    LexLayout(pretty, pretty - 1, [shut] + rest);
    LexPunctuation(shut, rest);
    var i := Indent(pretty - 1);
    IndentSpaces(pretty - 1);
    assert i != [] ==> (i + ([shut] + rest))[0] == i[0];
  }

  lemma {:induction false} LexElements(items: seq<Json>, pretty: int, rest: Text)
    requires items != [] && PrintableItems(items) && NulFreeItems(items)
    ensures LexAll(LIMBO, ItemsText(items, pretty) + (Indent(pretty - 1) + ([RBRACKET] + rest))) ==
            After(Yield(ElementsTree(items)), LexAll(LIMBO, rest))
    decreases items, 0
  {
    hide LexAll, Yield, ElementsTree, TextOf, Break, Indent, After, Separator, Delimiter, TreeOf;
    var last := Indent(pretty - 1) + ([RBRACKET] + rest);
    var tail := ItemsText(items[1..], pretty) + last;
    var text := Separator(|items|) + (Break(pretty) + tail);
    var done := LexAll(LIMBO, rest);
    ItemsTextSplit(items, pretty, last);
    YieldOfElements(items);
    LexLayout(pretty, pretty, TextOf(items[0], Increment(pretty)) + text);
    LexClosing(pretty, RBRACKET, rest);
    if |items| == 1 {
      assert tail == last;
      LexFollowing(1, pretty, tail);
      LexValue(items[0], Increment(pretty), text);
      AfterTwice(Yield(TreeOf(items[0])), [Token(EndArray, JNull)], done);
    } else {
      LexFollowing(|items|, pretty, tail);
      LexValue(items[0], Increment(pretty), text);
      LexElements(items[1..], pretty, rest);
      var more := Yield(ElementsTree(items[1..]));
      AfterTwice([Token(ValueSep, JNull)], more, done);
      AfterTwice(Yield(TreeOf(items[0])), [Token(ValueSep, JNull)] + more, done);
    }
  }

  /** Key, colon and value of a member. */
  lemma {:induction false} LexMember(m: Member, pretty: int, rest: Text)
    requires Printable(m.value) && NulFree(m.value)
    requires rest != [] && Delimiter(rest[0])
    ensures var gap: Text := if pretty != 0 then [SPACE] else [];
            LexAll(LIMBO, Quoted(m.key) + ([COLON] + (gap + (TextOf(m.value, Increment(pretty)) + rest)))) ==
            After(Yield(MemberTree(m)), LexAll(LIMBO, rest))
    decreases m, 0
  {
    hide LexAll, Yields;
    var t := MemberTree(m);
    var value := TextOf(m.value, Increment(pretty)) + rest;
    var gap: Text := if pretty != 0 then [SPACE] else [];
    LexQuoted(m.key, [COLON] + (gap + value));
    LexPunctuation(COLON, gap + value);
    LexSpaces(gap, value);
    LexValue(m.value, Increment(pretty), rest);
    Yields3(t.kids[0], t.kids[1], t.kids[2]);
    AfterTwice(Yield(t.kids[1]), Yield(t.kids[2]), LexAll(LIMBO, rest));
    AfterTwice(Yield(t.kids[0]), Yield(t.kids[1]) + Yield(t.kids[2]), LexAll(LIMBO, rest));
    assert Yield(t.kids[0]) + (Yield(t.kids[1]) + Yield(t.kids[2])) == Yield(t);
  }

  lemma {:induction false} LexMembers(ms: seq<Member>, pretty: int, rest: Text)
    requires ms != [] && PrintableMembers(ms) && NulFreeMembers(ms)
    ensures LexAll(LIMBO, MembersText(ms, pretty) + (Indent(pretty - 1) + ([RBRACE] + rest))) ==
            After(Yield(MembersTree(ms)), LexAll(LIMBO, rest))
    decreases ms, 0
  {
    hide LexAll, Yield, MembersTree, MemberTree, TextOf, Break, Indent, After, Separator, Delimiter, Quoted;
    var last := Indent(pretty - 1) + ([RBRACE] + rest);
    var tail := MembersText(ms[1..], pretty) + last;
    var text := Separator(|ms|) + (Break(pretty) + tail);
    var gap: Text := if pretty != 0 then [SPACE] else [];
    var done := LexAll(LIMBO, rest);
    MembersTextSplit(ms, pretty, last);
    YieldOfMembers(ms);
    LexLayout(pretty, pretty, Quoted(ms[0].key) + ([COLON] + (gap + (TextOf(ms[0].value, Increment(pretty)) + text))));
    LexClosing(pretty, RBRACE, rest);
    if |ms| == 1 {
      assert tail == last;
      LexFollowing(1, pretty, tail);
      LexMember(ms[0], pretty, text);
      AfterTwice(Yield(MemberTree(ms[0])), [Token(EndObject, JNull)], done);
    } else {
      LexFollowing(|ms|, pretty, tail);
      LexMember(ms[0], pretty, text);
      LexMembers(ms[1..], pretty, rest);
      var more := Yield(MembersTree(ms[1..]));
      AfterTwice([Token(ValueSep, JNull)], more, done);
      AfterTwice(Yield(MemberTree(ms[0])), [Token(ValueSep, JNull)] + more, done);
    }
  }
}
