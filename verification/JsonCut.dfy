/**
  The text of a document with NUL bytes, read as a C string: it ends inside a
  string of the document, so nothing is put out and there is no error.
 */
module JsonCut {
  import opened Common
  import opened Keys
  import opened JsonValue
  import opened JsonGrammar
  import opened JsonMachine
  import opened JsonStacks
  import opened JsonBuild
  import opened JsonText
  import opened JsonLexer
  import opened JsonRoundTrip
  import opened JsonParser
  import opened JsonDepth
  import opened JsonStream

  // The same document with quotation marks in place of its NUL bytes.

  function Mended(s: seq<Byte>): (t: seq<Byte>)
    ensures |t| == |s| && forall i :: 0 <= i < |s| ==> t[i] == if s[i] == 0 then QUOTE else s[i]
  {
    seq(|s|, i requires 0 <= i < |s| => if s[i] == 0 then QUOTE else s[i])
  }

  function MendedDoc(n: Json): Json {
    match n
    case JString(s) => JString(Mended(s))
    case JArray(items) => JArray(MendedItems(items))
    case JObject(ms) => JObject(MendedMembers(ms))
    case _ => n
  }

  function MendedItems(items: seq<Json>): (r: seq<Json>)
    ensures |r| == |items|
  {
    if items == [] then [] else [MendedDoc(items[0])] + MendedItems(items[1..])
  }

  function MendedMembers(ms: seq<Member>): (r: seq<Member>)
    ensures |r| == |ms|
  {
    if ms == [] then [] else [Member(ms[0].key, MendedDoc(ms[0].value))] + MendedMembers(ms[1..])
  }

  lemma {:induction false} MendedSorted(ms: seq<Member>)
    requires Sorted(ms)
    ensures Sorted(MendedMembers(ms))
  {
    if |ms| > 1 {
      MendedSorted(ms[1..]);
      assert MendedMembers(ms)[1..] == MendedMembers(ms[1..]);
    }
  }

  lemma {:induction false} MendedKeeps(n: Json)
    requires Printable(n)
    ensures var m := MendedDoc(n);
            Printable(m) && NulFree(m) && Depth(m) == Depth(n) && KeyDepth(m) == KeyDepth(n)
    decreases n
  {
    match n
    case JArray(items) => MendedItemsKeep(items);
    case JObject(ms) =>
      MendedSorted(ms);
      MendedMembersKeep(ms);
    case _ =>
  }

  lemma {:induction false} MendedItemsKeep(items: seq<Json>)
    requires PrintableItems(items)
    ensures var m := MendedItems(items);
            && PrintableItems(m) && NulFreeItems(m)
            && DepthOfItems(m) == DepthOfItems(items) && KeyDepthOfItems(m) == KeyDepthOfItems(items)
    decreases items
  {
    if items != [] {
      MendedKeeps(items[0]);
      MendedItemsKeep(items[1..]);
      assert MendedItems(items)[1..] == MendedItems(items[1..]);
    }
  }

  lemma {:induction false} MendedMembersKeep(ms: seq<Member>)
    requires PrintableMembers(ms)
    ensures var m := MendedMembers(ms);
            && PrintableMembers(m) && NulFreeMembers(m)
            && DepthOfMembers(m) == DepthOfMembers(ms) && KeyDepthOfMembers(m) == KeyDepthOfMembers(ms)
    decreases ms
  {
    if ms != [] {
      MendedKeeps(ms[0].value);
      MendedMembersKeep(ms[1..]);
      assert MendedMembers(ms)[1..] == MendedMembers(ms[1..]);
    }
  }

  lemma MendedConcat(a: seq<Byte>, b: seq<Byte>)
    ensures Mended(a + b) == Mended(a) + Mended(b)
  {
  }

  lemma MendedSame(s: seq<Byte>)
    requires 0 !in s
    ensures Mended(s) == s
  {
  }

  lemma {:induction false} MendedEscape(s: seq<Byte>)
    ensures Escape(Mended(s)) == Mended(Escape(s))
  {
    if s != [] {
      MendedEscape(s[1..]);
      assert Mended(s)[1..] == Mended(s[1..]);
      MendedConcat(EscapeByte(s[0]), Escape(s[1..]));
      MendedByte(s[0]);
    }
  }

  lemma MendedByte(c: Byte)
    ensures EscapeByte(if c == 0 then QUOTE else c) == Mended(EscapeByte(c))
  {
  }

  lemma MendedQuoted(s: seq<Byte>)
    ensures Quoted(Mended(s)) == Mended(Quoted(s))
  {
    MendedEscape(s);
    MendedConcat([QUOTE] + Escape(s), [QUOTE]);
    MendedConcat([QUOTE], Escape(s));
  }

  lemma {:induction false} MendedText(n: Json, pretty: int)
    requires Printable(n)
    ensures TextOf(MendedDoc(n), pretty) == Mended(TextOf(n, pretty))
    decreases n
  {
    hide Indent, Quoted, Decimal, Mended;
    match n
    case JNull => MendedSame(NULL_TEXT);
    case JBool(b) => MendedSame(if b then TRUE_TEXT else FALSE_TEXT);
    case JInt(i) =>
      DecimalNul(i);
      MendedSame(Decimal(i));
    case JString(s) => MendedQuoted(s);
    case JArray(items) =>
      MendedItemsText(items, pretty);
      MendedBrackets(LBRACKET, ItemsText(items, pretty), RBRACKET, pretty);
    case JObject(ms) =>
      MendedMembersText(ms, pretty);
      MendedBrackets(LBRACE, MembersText(ms, pretty), RBRACE, pretty);
  }

  lemma MendedBrackets(open: Byte, body: Text, shut: Byte, pretty: int)
    requires open != 0 && shut != 0
    ensures Mended([open] + Break(pretty) + body + Indent(pretty - 1) + [shut]) ==
            [open] + Break(pretty) + Mended(body) + Indent(pretty - 1) + [shut]
  {
    IndentNul(pretty - 1);
    var head := [open] + Break(pretty);
    MendedSame(head);
    MendedSame(Indent(pretty - 1));
    MendedConcat(head, body);
    MendedConcat(head + body, Indent(pretty - 1));
    MendedConcat(head + body + Indent(pretty - 1), [shut]);
  }

  lemma {:induction false} MendedItemsText(items: seq<Json>, pretty: int)
    requires PrintableItems(items)
    ensures ItemsText(MendedItems(items), pretty) == Mended(ItemsText(items, pretty))
    decreases items
  {
    if items != [] {
      ItemsPieces(items, pretty);
      ItemsPieces(MendedItems(items), pretty);
      assert MendedItems(items)[0] == MendedDoc(items[0]) && MendedItems(items)[1..] == MendedItems(items[1..]);
      assert Printable(items[0]) && PrintableItems(items[1..]) && |MendedItems(items)| == |items|;
      hide *;
      MendedText(items[0], Increment(pretty));
      MendedItemsText(items[1..], pretty);
      MendedPieces(Indent(pretty), TextOf(items[0], Increment(pretty)), Separator(|items|) + Break(pretty),
                   ItemsText(items[1..], pretty));
    }
  }

  lemma ItemsPieces(items: seq<Json>, pretty: int)
    requires items != []
    ensures ItemsText(items, pretty) ==
            Indent(pretty) + TextOf(items[0], Increment(pretty)) + (Separator(|items|) + Break(pretty)) +
            ItemsText(items[1..], pretty)
    ensures 0 !in Indent(pretty) && 0 !in Separator(|items|) + Break(pretty)
  {
    IndentNul(pretty);
    hide Indent, TextOf;
    var head, more := Indent(pretty) + TextOf(items[0], Increment(pretty)), ItemsText(items[1..], pretty);
    assert ItemsText(items, pretty) == head + Separator(|items|) + Break(pretty) + more;
    assert head + Separator(|items|) + Break(pretty) == head + (Separator(|items|) + Break(pretty));
  }

  lemma MendedPieces(a: Text, b: Text, c: Text, d: Text)
    requires 0 !in a && 0 !in c
    ensures Mended(a + b + c + d) == a + Mended(b) + c + Mended(d)
  {
    MendedSame(a);
    MendedSame(c);
    MendedConcat(a, b);
    MendedConcat(a + b, c);
    MendedConcat(a + b + c, d);
  }

  lemma {:induction false} MendedMembersText(ms: seq<Member>, pretty: int)
    requires PrintableMembers(ms)
    ensures MembersText(MendedMembers(ms), pretty) == Mended(MembersText(ms, pretty))
    decreases ms
  {
    if ms != [] {
      MembersPieces(ms, pretty);
      MembersPieces(MendedMembers(ms), pretty);
      assert MendedMembers(ms)[0] == Member(ms[0].key, MendedDoc(ms[0].value));
      assert MendedMembers(ms)[1..] == MendedMembers(ms[1..]) && |MendedMembers(ms)| == |ms|;
      assert Printable(ms[0].value) && PrintableMembers(ms[1..]);
      hide *;
      MendedText(ms[0].value, Increment(pretty));
      MendedMembersText(ms[1..], pretty);
      MendedPieces(MemberHead(ms[0].key, pretty), TextOf(ms[0].value, Increment(pretty)),
                   Separator(|ms|) + Break(pretty),
                   MembersText(ms[1..], pretty));
    }
  }

  function MemberHead(k: Key, pretty: int): Text {
    Indent(pretty) + Quoted(k) + [COLON] + (if pretty != 0 then [SPACE] else [])
  }

  lemma MembersPieces(ms: seq<Member>, pretty: int)
    requires ms != []
    ensures MembersText(ms, pretty) ==
            MemberHead(ms[0].key, pretty) + TextOf(ms[0].value, Increment(pretty)) + (Separator(|ms|) + Break(pretty)) +
            MembersText(ms[1..], pretty)
    ensures 0 !in MemberHead(ms[0].key, pretty) && 0 !in Separator(|ms|) + Break(pretty)
  {
    KeyNul(ms[0].key, pretty);
    hide Indent, TextOf, Quoted;
    var head := MemberHead(ms[0].key, pretty) + TextOf(ms[0].value, Increment(pretty));
    var more := MembersText(ms[1..], pretty);
    assert MembersText(ms, pretty) == head + Separator(|ms|) + Break(pretty) + more;
    assert head + Separator(|ms|) + Break(pretty) == head + (Separator(|ms|) + Break(pretty));
  }

  lemma KeyNul(k: Key, pretty: int)
    ensures var gap: Text := if pretty != 0 then [SPACE] else [];
            0 !in Indent(pretty) + Quoted(k) + [COLON] + gap
  {
    IndentNul(pretty);
    EscapeNul(k);
  }

  // Cutting a text inside a string.

  lemma {:induction false} LexSplit(l: Lexer, a: Text, b: Text)
    requires LexAll(l, a + b).ok
    ensures LexAll(l, a).ok
    ensures LexAll(l, a + b) == After(LexAll(l, a).toks, LexAll(LexAll(l, a).next, b))
    decreases |a|
  {
    hide LexByte;
    if a == [] {
      assert a + b == b;
      AfterNone(LexAll(l, b));
    } else {
      assert (a + b)[1..] == a[1..] + b;
      var r := LexByte(l, a[0]);
      LexSplit(r.next, a[1..], b);
      var s := LexAll(r.next, a[1..]);
      AfterTwice(r.toks, s.toks, LexAll(s.next, b));
    }
  }

  predicate InText(l: Lexer) {
    l.mode.InString? || l.mode.InEscape? || l.mode.InUnicode?
  }

  /** A string is left with a token only. */
  lemma {:induction false} StringStays(l: Lexer, t: Text)
    requires InText(l) && LexAll(l, t).ok
    ensures LexAll(l, t).toks == [] ==> InText(LexAll(l, t).next)
    decreases |t|
  {
    if t != [] {
      var r := LexByte(l, t[0]);
      assert r.toks != [] || InText(r.next);
      hide LexByte, LexChar;
      if InText(r.next) { StringStays(r.next, t[1..]); }
    }
  }

  /** Whatever a quotation mark ends or begins, there is a token before the lexer comes to rest. */
  lemma QuoteTokens(l: Lexer, rest: Text)
    requires LexAll(l, [QUOTE] + rest).ok && LexAll(l, [QUOTE] + rest).next.mode.Limbo?
    ensures LexAll(l, [QUOTE] + rest).toks != []
  {
    assert ([QUOTE] + rest)[1..] == rest;
    var r := LexByte(l, QUOTE);
    assert r.toks != [] || InText(r.next);
    if InText(r.next) { StringStays(r.next, rest); }
  }

  /** What C code sees of a text: all before the first NUL. */
  lemma {:induction false} CStringIs(s: seq<Byte>)
    ensures |CString(s)| <= |s| && CString(s) == s[..|CString(s)|] && 0 !in CString(s)
    ensures if 0 in s then |CString(s)| < |s| && s[|CString(s)|] == 0 else CString(s) == s
  {
    if s != [] && s[0] != 0 {
      CStringIs(s[1..]);
      assert s[..|CString(s)|] == [s[0]] + s[1..][..|CString(s[1..])|];
      assert s == [s[0]] + s[1..];
    }
  }

  /** The text of a document cut at a quotation mark that stands for a NUL byte is no document yet. */
  lemma CutText(n: Json, pretty: int, a: Text, b: Text)
    requires (n.JArray? || n.JObject?) && Printable(n) && NulFree(n)
    requires TextOf(n, pretty) == a + ([QUOTE] + b)
    ensures var p := ParseData(Fresh(false), a); !p.error && p.out == []
  {
    var p := Fresh(false);
    LexDocument(n, pretty);
    DocumentValue(n);
    AcceptsDerived(DocumentTree(n), Yield(DocumentTree(n)));
    LexSplit(LIMBO, a, [QUOTE] + b);
    var la := LexAll(LIMBO, a);
    var lb := LexAll(la.next, [QUOTE] + b);
    QuoteTokens(la.next, b);
    RunTwice(START, la.toks, lb.toks);
    CutParse(p, a, lb.toks);
  }

  lemma CutParse(p: Parser, a: Text, more: seq<Token>)
    requires p == Fresh(false) && LexAll(LIMBO, a).ok && more != []
    requires Run(START, LexAll(LIMBO, a).toks).Some?
    requires Run(Run(START, LexAll(LIMBO, a).toks).value, more).Some?
    ensures !ParseData(p, a).error && ParseData(p, a).out == []
  {
    hide Consume, LexAll, ParseTokens, ParseData;
    var toks := LexAll(LIMBO, a).toks;
    var c := Run(START, toks).value;
    if c.stack == [] { NothingAfter(c, more); }
    ParsesLikeRun(p, toks);
    ParsesWhatIsLexed(p, a);
  }

  /**
    So nothing comes out of the text of a document with NUL bytes, read as a C
    string; and it fits if the document does.
   */
  lemma CutDocument(n: Json, pretty: int)
    requires (n.JArray? || n.JObject?) && Printable(n) && !NulFree(n)
    ensures var p := ParseData(Fresh(false), CString(TextOf(n, pretty))); !p.error && p.out == []
    ensures Depth(n) <= MAX_DEPTH && KeyDepth(n) <= MAX_KEY_DEPTH ==> Fits(Fresh(false), CString(TextOf(n, pretty)))
  {
    var m, t := MendedDoc(n), TextOf(n, pretty);
    var a: Text := CString(t);
    assert m.JArray? || m.JObject?;
    hide *;
    TextNul(n, pretty);
    MendedKeeps(n);
    MendedText(n, pretty);
    var b := CutAt(t);
    CutText(m, pretty, a, b);
    DocumentFits(m, pretty, false);
    if Fits(Fresh(false), TextOf(m, pretty)) { FitsPrefix(Fresh(false), a, [QUOTE] + b); }
  }

  lemma CutAt(t: Text) returns (b: Text)
    requires 0 in t
    ensures Mended(t) == CString(t) + ([QUOTE] + b)
  {
    CStringIs(t);
    b := Mended(t)[|CString(t)| + 1..];
  }
}
