/** What the serializer writes is a spelling of the document, and how it looks. */
module JsonPrinting {
  import opened Common
  import opened Keys
  import opened JsonValue
  import opened JsonGrammar
  import opened JsonText
  import opened JsonLexer
  import opened JsonRoundTrip
  import opened JsonParser
  import opened JsonPhrase
  import opened JsonSpelling
  import opened JsonReading

  /** The phrase of a document without floats. */
  function PhraseOf(n: Json): Phrase
    decreases n
  {
    match n
    case JNull => Word(Token(Ident, n))
    case JBool(_) => Word(Token(Ident, n))
    case JInt(_) => Word(Token(Num, n))
    case JFloat(_) => Word(Token(Num, n))
    case JString(_) => Word(Token(Str, n))
    case JArray(items) => List(PhrasesOf(items))
    case JObject(ms) => Record(EntriesOf(ms))
  }

  function PhrasesOf(items: seq<Json>): (ps: seq<Phrase>)
    ensures |ps| == |items|
    decreases items
  {
    if items == [] then [] else [PhraseOf(items[0])] + PhrasesOf(items[1..])
  }

  function EntriesOf(ms: seq<Member>): (es: seq<Entry>)
    ensures |es| == |ms|
    decreases ms
  {
    if ms == [] then [] else [Entry(ms[0].key, PhraseOf(ms[0].value))] + EntriesOf(ms[1..])
  }

  // It means the document.

  lemma {:induction false} PhraseMeans(n: Json)
    requires Printable(n)
    ensures Meaning(PhraseOf(n)) == n && Readable(PhraseOf(n))
    decreases n
  {
    match n
    case JArray(items) => PhrasesMean(items);
    case JObject(ms) =>
      EntriesMean(ms);
      BuildSorted(ms);
    case _ =>
  }

  lemma {:induction false} PhrasesMean(items: seq<Json>)
    requires PrintableItems(items)
    ensures Meanings(PhrasesOf(items)) == items && Readable(List(PhrasesOf(items)))
    decreases items
  {
    if items != [] {
      hide PhraseOf, Meaning, Printable;
      PhraseMeans(items[0]);
      PhrasesMean(items[1..]);
      var ps := PhrasesOf(items);
      assert ps[0] == PhraseOf(items[0]) && ps[1..] == PhrasesOf(items[1..]);
      ReadableCons(ps);
    }
  }

  lemma ReadableCons(ps: seq<Phrase>)
    requires ps != [] && Readable(ps[0]) && Readable(List(ps[1..]))
    ensures Readable(List(ps))
  {
    assert forall i {:trigger ps[i]} :: 1 <= i < |ps| ==> ps[i] == ps[1..][i - 1];
  }

  lemma {:induction false} EntriesMean(ms: seq<Member>)
    requires PrintableMembers(ms)
    ensures MembersMeant(EntriesOf(ms)) == ms && Readable(Record(EntriesOf(ms)))
    decreases ms
  {
    if ms != [] {
      hide PhraseOf, Meaning, Printable;
      PhraseMeans(ms[0].value);
      EntriesMean(ms[1..]);
      CStringOfKey(ms[0].key);
      var es := EntriesOf(ms);
      assert es[0] == Entry(ms[0].key, PhraseOf(ms[0].value)) && es[1..] == EntriesOf(ms[1..]);
      ReadableConsEntry(es);
    }
  }

  lemma ReadableConsEntry(es: seq<Entry>)
    requires es != [] && Readable(es[0].value) && Readable(Record(es[1..]))
    ensures Readable(Record(es))
  {
    assert forall i {:trigger es[i]} :: 1 <= i < |es| ==> es[i] == es[1..][i - 1];
  }

  // It is spelled by the text.

  lemma EscapeByteSpells(c: Byte)
    requires c != 0
    ensures SpellsOne(EscapeByte(c), c)
  {
    var u := EscapeByte(c);
    if |u| == 6 {
      assert HexValue(u[2], 0) && HexValue(u[3], 0) && HexValue(u[4], c / 16) && HexValue(u[5], c % 16);
    }
  }

  lemma {:induction false} EscapeSpells(s: seq<Byte>)
    requires 0 !in s
    ensures Spells(Escape(s), s)
  {
    if s != [] {
      var u, more := EscapeByte(s[0]), Escape(s[1..]);
      EscapeByteSpells(s[0]);
      EscapeSpells(s[1..]);
      hide SpellsOne, EscapeByte;
      var t := Escape(s);
      assert |u| > 0 by { SpelledSome(u, s[0]); }
      assert t[..|u|] == u && t[|u|..] == more;
    }
  }

  lemma SpelledSome(u: Text, code: nat)
    requires SpellsOne(u, code)
    ensures u != []
  {
  }

  lemma QuotedSpells(s: seq<Byte>)
    requires 0 !in s
    ensures StringSpelled(Quoted(s), s)
  {
    EscapeSpells(s);
    var t := Quoted(s);
    assert t[1..|t| - 1] == Escape(s);
  }

  lemma {:induction false} DigitsWhole(n: nat)
    ensures WholeNumber(Digits(n)) && Numeral(Digits(n)) == n
    ensures n > 0 ==> Digits(n)[0] != '0' as int
  {
    if n >= 10 {
      DigitsWhole(n / 10);
      var t, s := Digits(n), Digits(n / 10);
      assert t[..|t| - 1] == s && t[0] == s[0];
      assert n == 10 * (n / 10) + n % 10;
    } else {
      assert Digits(n)[..0] == [];
    }
  }

  lemma DecimalSpells(i: Int32)
    ensures NumberSpelled(Decimal(i), JInt(i))
  {
    hide *;
    var size: nat := if i < 0 then 0 - (i as int) else i;
    var m: Text := if i < 0 then [MINUS] else [];
    DigitsWhole(size);
    DecimalIs(i, size, m);
    NumberIs(Decimal(i), m, Digits(size), i);
  }

  lemma DecimalIs(i: Int32, size: nat, m: Text)
    requires size == (if i < 0 then 0 - (i as int) else i) && m == if i < 0 then [MINUS] else []
    ensures Decimal(i) == m + Digits(size)
  {
    hide Digits;
  }

  lemma NumberIs(t: Text, m: Text, w: Text, i: Int32)
    requires t == m + w && WholeNumber(w) && (m == [] || m == [MINUS])
    requires i as int == if m == [] then Numeral(w) else 0 - Numeral(w) as int
    ensures NumberSpelled(t, JInt(i))
  {
    hide Numeral, WholeNumber;
    assert Ascii("-") == [MINUS];
    assert t == m + w + [] + [];
    assert NumberParts(t, m, w, [], []);
  }

  lemma {:induction false} ValueSpells(n: Json, pretty: int)
    requires Printable(n) && NulFree(n)
    ensures ValueSpelled(TextOf(n, pretty), PhraseOf(n))
    decreases n, 0
  {
    hide *;
    PartsPrintable(n);
    if n.JArray? {
      BlankLayout(pretty, pretty - 1);
      if n.items != [] { ItemsSpell(n.items, pretty, Break(pretty), Indent(pretty - 1)); }
      ListSpells(n, pretty);
    } else if n.JObject? {
      BlankLayout(pretty, pretty - 1);
      if n.members != [] { MembersSpell(n.members, pretty, Break(pretty), Indent(pretty - 1)); }
      RecordSpells(n, pretty);
    } else {
      WordSpells(n, pretty);
    }
  }

  lemma PartsPrintable(n: Json)
    requires Printable(n) && NulFree(n)
    ensures n.JArray? ==> PrintableItems(n.items) && NulFreeItems(n.items)
    ensures n.JObject? ==> PrintableMembers(n.members) && NulFreeMembers(n.members)
  {
  }

  lemma WordSpells(n: Json, pretty: int)
    requires Printable(n) && NulFree(n) && !n.JArray? && !n.JObject?
    ensures ValueSpelled(TextOf(n, pretty), PhraseOf(n))
  {
    match n
    case JNull => assert NULL_TEXT == Ascii("null");
    case JBool(b) => assert TRUE_TEXT == Ascii("true") && FALSE_TEXT == Ascii("false");
    case JInt(i) => DecimalSpells(i);
    case JString(s) => QuotedSpells(s);
    case _ =>
  }

  lemma ListSpells(n: Json, pretty: int)
    requires n.JArray? && Printable(n) && NulFree(n) && Blank(Break(pretty)) && Blank(Indent(pretty - 1))
    requires n.items != [] ==>
      ItemsSpelled(Break(pretty) + ItemsText(n.items, pretty) + Indent(pretty - 1), PhrasesOf(n.items))
    ensures ValueSpelled(TextOf(n, pretty), PhraseOf(n))
  {
    hide *;
    var body := Break(pretty) + ItemsText(n.items, pretty) + Indent(pretty - 1);
    Between(LBRACKET, body, RBRACKET);
    ContainerWritten(n, pretty);
    NoMore(pretty);
    EmptyBlank(Break(pretty), Indent(pretty - 1));
    ListSpelled([LBRACKET] + body + [RBRACKET], body, n);
  }

  lemma EmptyBlank(a: Text, b: Text)
    requires Blank(a) && Blank(b)
    ensures Blank(a + [] + b)
  {
  }

  lemma ContainerWritten(n: Json, pretty: int)
    ensures n.JArray? ==>
      TextOf(n, pretty) == [LBRACKET] + (Break(pretty) + ItemsText(n.items, pretty) + Indent(pretty - 1)) + [RBRACKET]
    ensures n.JObject? ==>
      TextOf(n, pretty) == [LBRACE] + (Break(pretty) + MembersText(n.members, pretty) + Indent(pretty - 1)) + [RBRACE]
  {
    hide Break, Indent, ItemsText, MembersText;
  }

  lemma ListSpelled(t: Text, body: Text, n: Json)
    requires n.JArray? && |t| >= 2 && t[0] == LBRACKET && t[|t| - 1] == RBRACKET && t[1..|t| - 1] == body
    requires if n.items == [] then Blank(body) else ItemsSpelled(body, PhrasesOf(n.items))
    ensures ValueSpelled(t, PhraseOf(n))
  {
    hide ItemsSpelled, Blank;
  }

  lemma RecordSpelled(t: Text, body: Text, n: Json)
    requires n.JObject? && |t| >= 2 && t[0] == LBRACE && t[|t| - 1] == RBRACE && t[1..|t| - 1] == body
    requires if n.members == [] then Blank(body) else EntriesSpelled(body, EntriesOf(n.members))
    ensures ValueSpelled(t, PhraseOf(n))
  {
    hide EntriesSpelled, Blank;
  }

  lemma RecordSpells(n: Json, pretty: int)
    requires n.JObject? && Printable(n) && NulFree(n) && Blank(Break(pretty)) && Blank(Indent(pretty - 1))
    requires n.members != [] ==>
      EntriesSpelled(Break(pretty) + MembersText(n.members, pretty) + Indent(pretty - 1), EntriesOf(n.members))
    ensures ValueSpelled(TextOf(n, pretty), PhraseOf(n))
  {
    hide *;
    var body := Break(pretty) + MembersText(n.members, pretty) + Indent(pretty - 1);
    Between(LBRACE, body, RBRACE);
    ContainerWritten(n, pretty);
    NoMore(pretty);
    EmptyBlank(Break(pretty), Indent(pretty - 1));
    RecordSpelled([LBRACE] + body + [RBRACE], body, n);
  }

  lemma Between(open: Byte, body: Text, shut: Byte)
    ensures var t := [open] + body + [shut]; t[1..|t| - 1] == body && t[0] == open && t[|t| - 1] == shut
  {
  }

  lemma BlankLayout(pretty: int, n: int)
    ensures Blank(Break(pretty)) && Blank(Indent(n))
    ensures forall t: Text, u: Text :: Blank(t) && Blank(u) ==> Blank(t + u)
  {
    IndentBlank(n);
  }

  lemma {:induction false} IndentBlank(n: int)
    ensures Blank(Indent(n))
    decreases if n <= 0 then 0 else n
  {
    if n > 0 { IndentBlank(n - 1); }
  }

  lemma PadIt(a: Text, v: Text, b: Text, p: Phrase)
    requires Blank(a) && Blank(b) && ValueSpelled(v, p)
    ensures Padded(a + v + b, p)
  {
    hide Blank, ValueSpelled;
    var t := a + v + b;
    assert t[..|a|] == a && t[|a|..|a| + |v|] == v && t[|a| + |v|..] == b;
  }

  lemma {:induction false} ItemsSpell(items: seq<Json>, pretty: int, pad: Text, end: Text)
    requires items != [] && PrintableItems(items) && NulFreeItems(items) && Blank(pad) && Blank(end)
    ensures ItemsSpelled(pad + ItemsText(items, pretty) + end, PhrasesOf(items))
    decreases items, 0
  {
    hide *;
    var v, ps := TextOf(items[0], Increment(pretty)), PhrasesOf(items);
    var a := pad + Indent(pretty);
    var t := pad + ItemsText(items, pretty) + end;
    BlankLayout(pretty, pretty);
    FirstPrintable(items);
    ValueSpells(items[0], Increment(pretty));
    ItemsWritten(items, pretty, pad, end);
    if |items| == 1 {
      PadIt(a, v, Break(pretty) + end, ps[0]);
      LonePhrase(t, ps);
    } else {
      var more := Break(pretty) + ItemsText(items[1..], pretty) + end;
      ItemsSpell(items[1..], pretty, Break(pretty), end);
      NoBlank();
      PadIt(a, v, [], ps[0]);
      assert a + v + [] == a + v;
      CommaAt(t, a + v, more);
      ItemsJoined(t, |a + v|, ps);
    }
  }

  lemma NoBlank()
    ensures Blank([])
  {
  }

  lemma FirstPrintable(items: seq<Json>)
    requires items != [] && PrintableItems(items) && NulFreeItems(items)
    ensures Printable(items[0]) && NulFree(items[0]) && PrintableItems(items[1..]) && NulFreeItems(items[1..])
  {
  }

  lemma LonePhrase(t: Text, ps: seq<Phrase>)
    requires |ps| == 1 && Padded(t, ps[0])
    ensures ItemsSpelled(t, ps)
  {
    hide Padded;
  }

  lemma ItemsWritten(items: seq<Json>, pretty: int, pad: Text, end: Text)
    requires items != []
    ensures var v, a := TextOf(items[0], Increment(pretty)), pad + Indent(pretty);
            var t := pad + ItemsText(items, pretty) + end;
            if |items| == 1 then t == a + v + (Break(pretty) + end)
            else t == a + v + ([COMMA] + (Break(pretty) + ItemsText(items[1..], pretty) + end))
    ensures PhrasesOf(items)[0] == PhraseOf(items[0]) && PhrasesOf(items)[1..] == PhrasesOf(items[1..])
  {
    hide *;
    var more := ItemsText(items[1..], pretty);
    ItemsTextSplit(items, pretty, end);
    PhrasesUnfold(items);
    SeparatorIs(|items|);
    NoMore(pretty);
    if |items| == 1 { assert items[1..] == []; }
    assert pad + ItemsText(items, pretty) + end == pad + (ItemsText(items, pretty) + end);
    Pieces(pad, Indent(pretty), TextOf(items[0], Increment(pretty)), Separator(|items|), Break(pretty), more, end);
  }

  lemma PhrasesUnfold(items: seq<Json>)
    requires items != []
    ensures PhrasesOf(items)[0] == PhraseOf(items[0]) && PhrasesOf(items)[1..] == PhrasesOf(items[1..])
  {
  }

  lemma EntriesUnfolded(ms: seq<Member>)
    requires ms != []
    ensures EntriesOf(ms)[0] == Entry(ms[0].key, PhraseOf(ms[0].value)) && EntriesOf(ms)[1..] == EntriesOf(ms[1..])
  {
  }

  lemma SeparatorIs(n: nat)
    ensures Separator(n) == if n > 1 then [COMMA] else []
  {
  }

  lemma NoMore(pretty: int)
    ensures ItemsText([], pretty) == [] && MembersText([], pretty) == []
  {
  }

  lemma Pieces(pad: Text, ind: Text, v: Text, sep: Text, br: Text, more: Text, end: Text)
    ensures pad + (ind + (v + (sep + (br + (more + end))))) == pad + ind + v + (sep + (br + more + end))
    ensures sep == [] && more == [] ==> sep + (br + more + end) == br + end
  {
    assert v + (sep + (br + (more + end))) == v + sep + br + more + end;
  }

  lemma CommaAt(t: Text, a: Text, more: Text)
    requires t == a + ([COMMA] + more)
    ensures |a| < |t| && t[|a|] == ',' as int && t[..|a|] == a && t[|a| + 1..] == more
  {
  }

  lemma ItemsJoined(t: Text, n: nat, ps: seq<Phrase>)
    requires n < |t| && |ps| > 1 && t[n] == ',' as int && Padded(t[..n], ps[0]) && ItemsSpelled(t[n + 1..], ps[1..])
    ensures ItemsSpelled(t, ps)
  {
    hide Padded;
  }

  lemma EntryIt(a: Text, k: Text, gap: Text, v: Text, b: Text, entry: Entry)
    requires Blank(a) && Blank(gap) && Blank(b) && StringSpelled(k, entry.key) && ValueSpelled(v, entry.value)
    ensures EntrySpelled(a + k + [COLON] + (gap + v + b), entry)
  {
    PadIt(gap, v, b, entry.value);
    hide StringSpelled, Padded, ValueSpelled;
    var t, n, m := a + k + [COLON] + (gap + v + b), |a|, |a| + |k|;
    assert t[..n] == a && t[n..m] == k && t[m..m] == [] && t[m] == COLON && t[m + 1..] == gap + v + b;
    assert Blank(t[m..m]);
  }

  lemma {:induction false} MembersSpell(ms: seq<Member>, pretty: int, pad: Text, end: Text)
    requires ms != [] && PrintableMembers(ms) && NulFreeMembers(ms) && Blank(pad) && Blank(end)
    ensures EntriesSpelled(pad + MembersText(ms, pretty) + end, EntriesOf(ms))
    decreases ms, 0
  {
    hide *;
    var v, es := TextOf(ms[0].value, Increment(pretty)), EntriesOf(ms);
    var a, k := pad + Indent(pretty), Quoted(ms[0].key);
    var gap: Text := if pretty != 0 then [SPACE] else [];
    var t := pad + MembersText(ms, pretty) + end;
    BlankLayout(pretty, pretty);
    GapBlank(gap);
    FirstMemberPrintable(ms);
    ValueSpells(ms[0].value, Increment(pretty));
    QuotedSpells(ms[0].key);
    MembersWritten(ms, pretty, pad, end);
    if |ms| == 1 {
      EntryIt(a, k, gap, v, Break(pretty) + end, es[0]);
      LoneEntry(t, es);
    } else {
      var more := Break(pretty) + MembersText(ms[1..], pretty) + end;
      var first := a + k + [COLON] + (gap + v + []);
      MembersSpell(ms[1..], pretty, Break(pretty), end);
      NoBlank();
      EntryIt(a, k, gap, v, [], es[0]);
      CommaAt(t, first, more);
      EntriesJoined(t, |first|, es);
    }
  }

  lemma GapBlank(gap: Text)
    requires gap == [] || gap == [SPACE]
    ensures Blank(gap)
  {
  }

  lemma FirstMemberPrintable(ms: seq<Member>)
    requires ms != [] && PrintableMembers(ms) && NulFreeMembers(ms)
    ensures Printable(ms[0].value) && NulFree(ms[0].value) && PrintableMembers(ms[1..]) && NulFreeMembers(ms[1..])
  {
  }

  lemma LoneEntry(t: Text, es: seq<Entry>)
    requires |es| == 1 && EntrySpelled(t, es[0])
    ensures EntriesSpelled(t, es)
  {
    hide EntrySpelled;
  }

  lemma MembersWritten(ms: seq<Member>, pretty: int, pad: Text, end: Text)
    requires ms != []
    ensures var v, a, k := TextOf(ms[0].value, Increment(pretty)), pad + Indent(pretty), Quoted(ms[0].key);
            var gap: Text := if pretty != 0 then [SPACE] else [];
            var t := pad + MembersText(ms, pretty) + end;
            if |ms| == 1 then t == a + k + [COLON] + (gap + v + (Break(pretty) + end))
            else t == a + k + [COLON] + (gap + v + [])
                      + ([COMMA] + (Break(pretty) + MembersText(ms[1..], pretty) + end))
    ensures EntriesOf(ms)[0] == Entry(ms[0].key, PhraseOf(ms[0].value)) && EntriesOf(ms)[1..] == EntriesOf(ms[1..])
  {
    hide *;
    var gap: Text := if pretty != 0 then [SPACE] else [];
    var v, more := TextOf(ms[0].value, Increment(pretty)), MembersText(ms[1..], pretty);
    MembersTextSplit(ms, pretty, end);
    EntriesUnfolded(ms);
    SeparatorIs(|ms|);
    NoMore(pretty);
    if |ms| == 1 { assert ms[1..] == []; }
    assert pad + MembersText(ms, pretty) + end == pad + (MembersText(ms, pretty) + end);
    MorePieces(pad, Indent(pretty), Quoted(ms[0].key), gap, v, Separator(|ms|), Break(pretty), more, end);
  }

  lemma MorePieces(pad: Text, ind: Text, k: Text, gap: Text, v: Text, sep: Text, br: Text, more: Text, end: Text)
    ensures pad + (ind + (k + ([COLON] + (gap + (v + (sep + (br + (more + end)))))))) ==
            pad + ind + k + [COLON] + (gap + v + []) + (sep + (br + more + end))
    ensures sep == [] && more == [] ==>
            pad + ind + k + [COLON] + (gap + v + []) + (sep + (br + more + end)) ==
            pad + ind + k + [COLON] + (gap + v + (br + end))
  {
    var tail := sep + (br + more + end);
    assert sep + (br + (more + end)) == tail;
    assert gap + (v + tail) == gap + v + [] + tail;
    assert k + ([COLON] + (gap + v + [] + tail)) == k + [COLON] + (gap + v + []) + tail;
    assert pad + (ind + (k + [COLON] + (gap + v + []) + tail)) == pad + ind + k + [COLON] + (gap + v + []) + tail;
    if sep == [] && more == [] {
      assert tail == br + end && gap + v + [] + tail == gap + v + (br + end);
      assert pad + ind + k + [COLON] + (gap + v + []) + tail == pad + ind + k + [COLON] + (gap + v + [] + tail);
    }
  }

  lemma EntriesJoined(t: Text, n: nat, es: seq<Entry>)
    requires n < |t| && |es| > 1 && t[n] == ',' as int && EntrySpelled(t[..n], es[0])
    requires EntriesSpelled(t[n + 1..], es[1..])
    ensures EntriesSpelled(t, es)
  {
    hide EntrySpelled;
  }

  /** Every layout of an array or object without NUL bytes is a spelling of it. */
  lemma TextSpells(n: Json, pretty: int)
    requires (n.JArray? || n.JObject?) && Printable(n) && NulFree(n)
    ensures DocumentSpelled(TextOf(n, pretty), PhraseOf(n)) && Meaning(PhraseOf(n)) == n && Readable(PhraseOf(n))
  {
    ValueSpells(n, pretty);
    PhraseMeans(n);
    PadIt([], TextOf(n, pretty), [], PhraseOf(n));
    assert [] + TextOf(n, pretty) + [] == TextOf(n, pretty);
  }

  // How it looks.

  /** Escapes: a letter for seven characters, four hexadecimal digits for others that are not visible ASCII. */
  lemma Escapes()
    ensures EscapeByte(0x22) == Ascii("\\\"") && EscapeByte(0x5C) == Ascii("\\\\")
    ensures EscapeByte(0x08) == Ascii("\\b") && EscapeByte(0x0C) == Ascii("\\f")
    ensures EscapeByte(0x0A) == Ascii("\\n") && EscapeByte(0x0D) == Ascii("\\r") && EscapeByte(0x09) == Ascii("\\t")
    ensures EscapeByte(0x1F) == Ascii("\\u001f") && EscapeByte(0xAB) == Ascii("\\u00ab")
  {
  }

  lemma EscapedItself(c: Byte)
    ensures EscapeByte(c) == [c] <==> 0x20 <= c <= 0x7F && c != '"' as int && c != '\\' as int
  {
  }

  lemma Literals(pretty: int)
    ensures TextOf(JNull, pretty) == Ascii("null")
    ensures TextOf(JBool(true), pretty) == Ascii("true") && TextOf(JBool(false), pretty) == Ascii("false")
  {
  }

  /** An array in an object, written on one line and indented. */
  lemma Layouts()
    ensures var n := JObject([Member([0x61], JArray([JInt(1), JBool(true)]))]);
            && TextOf(n, 0) == Ascii("{\"a\":[1,true]}")
            && TextOf(n, 1) == Ascii("{\n    \"a\": [\n        1,\n        true\n    ]\n}")
  {
    var a := JArray([JInt(1), JBool(true)]);
    hide TextOf;
    CompactArray();
    IndentedArray();
    CompactObject(a);
    IndentedObject(a);
    CompactJoined();
    IndentedJoined();
  }

  lemma CompactJoined()
    ensures Ascii("{\"a\":") + Ascii("[1,true]") + Ascii("}") == Ascii("{\"a\":[1,true]}")
  {
  }

  lemma IndentedJoined()
    ensures Ascii("{\n    \"a\": ") + Ascii("[\n        1,\n        true\n    ]") + Ascii("\n}") ==
            Ascii("{\n    \"a\": [\n        1,\n        true\n    ]\n}")
  {
    hide Ascii;
    var a, b, c := "{\n    \"a\": ", "[\n        1,\n        true\n    ]", "\n}";
    AsciiJoined(a, b);
    AsciiJoined(a + b, c);
    assert a + b + c == "{\n    \"a\": [\n        1,\n        true\n    ]\n}";
  }

  lemma AsciiJoined(a: string, b: string)
    ensures Ascii(a) + Ascii(b) == Ascii(a + b)
  {
  }

  lemma CompactObject(a: Json)
    ensures TextOf(JObject([Member([0x61], a)]), 0) == Ascii("{\"a\":") + TextOf(a, 0) + Ascii("}")
  {
    hide TextOf, MembersText;
    var ms := [Member([0x61], a)];
    OneMember(ms, 0);
    ObjectText(ms, 0);
    assert Indent(0) == [] && Indent(-1) == [] && Increment(0) == 0;
    assert [LBRACE] + Ascii("\"a\":") == Ascii("{\"a\":") && [RBRACE] == Ascii("}");
  }

  lemma IndentedObject(a: Json)
    ensures TextOf(JObject([Member([0x61], a)]), 1) == Ascii("{\n    \"a\": ") + TextOf(a, 2) + Ascii("\n}")
  {
    hide TextOf, MembersText;
    var ms := [Member([0x61], a)];
    OneMember(ms, 1);
    ObjectText(ms, 1);
    assert Indent(1) == TAB_STRING + Indent(0) && Indent(0) == [] && Increment(1) == 2;
    assert [LBRACE] + [NEWLINE] + TAB_STRING + Ascii("\"a\":") + [SPACE] == Ascii("{\n    \"a\": ");
    assert [NEWLINE] + [RBRACE] == Ascii("\n}");
  }

  lemma ObjectText(ms: seq<Member>, pretty: int)
    ensures TextOf(JObject(ms), pretty) ==
            [LBRACE] + Break(pretty) + MembersText(ms, pretty) + Indent(pretty - 1) + [RBRACE]
  {
  }

  lemma OneMember(ms: seq<Member>, pretty: int)
    requires |ms| == 1 && ms[0].key == [0x61]
    ensures MembersText(ms, pretty) ==
            Indent(pretty) + Ascii("\"a\":") + (if pretty != 0 then [SPACE] else [])
            + TextOf(ms[0].value, Increment(pretty)) + Break(pretty)
  {
    hide TextOf, Indent;
    assert ms[1..] == [];
    var k: Key := [0x61];
    assert k[1..] == [] && Escape(k) == [0x61];
    assert Quoted(k) + [COLON] == Ascii("\"a\":");
  }

  lemma ItemsOf1True(pretty: int)
    ensures ItemsText([JInt(1), JBool(true)], pretty) ==
            Indent(pretty) + Ascii("1,") + Break(pretty) + (Indent(pretty) + Ascii("true") + Break(pretty))
  {
    hide Indent;
    var items: seq<Json> := [JInt(1), JBool(true)];
    assert items[1..] == [JBool(true)] && items[1..][1..] == [];
    assert TextOf(JInt(1), Increment(pretty)) == Ascii("1");
    assert Ascii("1") + [COMMA] == Ascii("1,");
    assert ItemsText(items[1..], pretty) == Indent(pretty) + Ascii("true") + Break(pretty);
  }

  lemma CompactArray()
    ensures TextOf(JArray([JInt(1), JBool(true)]), 0) == Ascii("[1,true]")
  {
    ItemsOf1True(0);
    hide ItemsText;
    assert Indent(0) == [] && Indent(-1) == [];
  }

  lemma IndentedArray()
    ensures TextOf(JArray([JInt(1), JBool(true)]), 2) == Ascii("[\n        1,\n        true\n    ]")
  {
    ItemsOf1True(2);
    hide ItemsText;
    assert Indent(2) == TAB_STRING + TAB_STRING && Indent(1) == TAB_STRING by {
      assert Indent(0) == [];
    }
    assert Indent(2) + Ascii("1,") + Break(2) == Ascii("        1,\n");
    assert Indent(2) + Ascii("true") + Break(2) == Ascii("        true\n");
    IndentedItems();
  }

  lemma IndentedItems()
    ensures [LBRACKET] + [NEWLINE] + (Ascii("        1,\n") + Ascii("        true\n")) + TAB_STRING + [RBRACKET] ==
            Ascii("[\n        1,\n        true\n    ]")
  {
    var a, b, c, d := "[\n", "        1,\n", "        true\n", "    ]";
    assert Ascii(a) == [LBRACKET] + [NEWLINE] && Ascii(d) == TAB_STRING + [RBRACKET];
    hide Ascii;
    AsciiJoined(b, c);
    AsciiJoined(a, b + c);
    AsciiJoined(a + (b + c), d);
  }
}
