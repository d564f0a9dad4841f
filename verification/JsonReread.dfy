/**
  What reading the text of any document gives, strings with NUL bytes
  included: each string comes out as the growing string of the lexer and the
  new string made from it have kept it.
 */
module JsonReread {
  import opened Keys
  import opened JsonValue
  import opened JsonGrammar
  import opened JsonMachine
  import opened JsonBuild
  import opened JsonStacks
  import opened JsonText
  import opened StringBuffer
  import opened JsonLexer
  import opened JsonRoundTrip
  import opened JsonParser
  import opened JsonStream

  // What each string becomes, and how far the string of the lexer has grown after it.

  function RereadString(s: seq<Byte>, size: nat): (r: (seq<Byte>, nat))
    requires size >= INITIAL_SIZE
    ensures r.1 >= INITIAL_SIZE
  {
    var b := AppendAll(Buffer([], size), Escape(s));
    (Stored(Scan(b.str)), b.size)
  }

  function Reread(n: Json, size: nat): (r: (Json, nat))
    requires size >= INITIAL_SIZE
    ensures r.1 >= INITIAL_SIZE
  {
    match n
    case JString(s) => var (t, size') := RereadString(s, size); (JString(t), size')
    case JArray(items) => var (vs, size') := RereadItems(items, size); (JArray(vs), size')
    case JObject(ms) => var (ns, size') := RereadMembers(ms, size); (JObject(ns), size')
    case _ => (n, size)
  }

  function RereadItems(items: seq<Json>, size: nat): (r: (seq<Json>, nat))
    requires size >= INITIAL_SIZE
    ensures r.1 >= INITIAL_SIZE && |r.0| == |items|
  {
    if items == [] then ([], size)
    else
      var (v, size1) := Reread(items[0], size);
      var (vs, size2) := RereadItems(items[1..], size1);
      ([v] + vs, size2)
  }

  /** Keys are C strings and come out as they are. */
  function RereadMembers(ms: seq<Member>, size: nat): (r: (seq<Member>, nat))
    requires size >= INITIAL_SIZE
    ensures r.1 >= INITIAL_SIZE && |r.0| == |ms|
    ensures forall i {:trigger r.0[i]} :: 0 <= i < |ms| ==> r.0[i].key == ms[i].key
  {
    if ms == [] then ([], size)
    else
      var (v, size2) := Reread(ms[0].value, RereadString(ms[0].key, size).1);
      var (ns, size3) := RereadMembers(ms[1..], size2);
      ([Member(ms[0].key, v)] + ns, size3)
  }

  // The lexer with its growing string.

  datatype Lexing = Lexing(lexer: Lexer, size: nat, toks: seq<Token>, ok: bool)

  function Behind(toks: seq<Token>, r: Lexing): Lexing {
    r.(toks := toks + r.toks)
  }

  function LexOn(l: Lexer, size: nat, text: Text): (r: Lexing)
    requires Sized(l, size)
    ensures Sized(r.lexer, r.size)
    ensures forall i :: 0 <= i < |r.toks| ==> TokenOk(r.toks[i])
    decreases |text|
  {
    if text == [] then Lexing(l, size, [], true)
    else
      var (l', size') := MakeRoom(l, size, text[0]);
      var r := LexByte(l', text[0]);
      ByteSized(l', size', text[0]);
      if !r.ok then Lexing(r.next, size', r.toks, false)
      else Behind(r.toks, LexOn(r.next, size', text[1..]))
  }

  /** Reading a text is parsing the tokens this lexer reads. */
  lemma {:induction false} ReadsWhatIsLexed(r: Reader, data: Text)
    requires Sized(r.p.lexer, r.size) && !r.p.error && LexOn(r.p.lexer, r.size, data).ok
    requires !ParseTokens(r.p, LexOn(r.p.lexer, r.size, data).toks).error
    ensures var on := LexOn(r.p.lexer, r.size, data);
            ReadData(r, data) == Reader(ParseTokens(r.p, on.toks).(lexer := on.lexer), on.size)
    decreases |data|
  {
    hide LexByte, ParseToken, MakeRoom;
    if data != [] {
      var (l, size) := MakeRoom(r.p.lexer, r.size, data[0]);
      var s := LexByte(l, data[0]);
      ByteSized(l, size, data[0]);
      var more := LexOn(s.next, size, data[1..]);
      ParseTokensTwice(r.p, s.toks, more.toks);
      LexerApart(r.p, s.next, s.toks);
      var q := ReadByte(r, data[0]);
      assert q == Reader(ParseTokens(r.p, s.toks).(lexer := s.next), size);
      LexerApart(ParseTokens(r.p, s.toks), s.next, more.toks);
      ReadsWhatIsLexed(q, data[1..]);
    }
  }

  lemma BehindTwice(a: seq<Token>, b: seq<Token>, r: Lexing)
    ensures Behind(a, Behind(b, r)) == Behind(a + b, r)
  {
    assert a + (b + r.toks) == a + b + r.toks;
  }

  lemma LimboSized(size: nat)
    requires size >= INITIAL_SIZE
    ensures Sized(LIMBO, size)
  {
  }

  /** A character that does not go into the string. */
  lemma OnAside(l: Lexer, size: nat, c: Byte, rest: Text)
    requires Sized(l, size) && !Appends(l, c) && LexByte(l, c).ok
    ensures Sized(LexByte(l, c).next, size)
    ensures LexOn(l, size, [c] + rest) == Behind(LexByte(l, c).toks, LexOn(LexByte(l, c).next, size, rest))
  {
    ByteSized(l, size, c);
    assert ([c] + rest)[1..] == rest;
  }

  lemma OnPunctuation(c: Byte, size: nat, rest: Text)
    requires Punctuation(c).Some? && size >= INITIAL_SIZE
    ensures LexOn(LIMBO, size, [c] + rest) == Behind([Token(Punctuation(c).value, JNull)], LexOn(LIMBO, size, rest))
  {
    OnAside(LIMBO, size, c, rest);
  }

  lemma {:induction false} OnSpaces(spaces: Text, size: nat, rest: Text)
    requires forall i :: 0 <= i < |spaces| ==> IsSpace(spaces[i])
    requires size >= INITIAL_SIZE
    ensures LexOn(LIMBO, size, spaces + rest) == LexOn(LIMBO, size, rest)
  {
    if spaces == [] {
      assert spaces + rest == rest;
    } else {
      assert spaces + rest == [spaces[0]] + (spaces[1..] + rest);
      OnAside(LIMBO, size, spaces[0], spaces[1..] + rest);
      OnSpaces(spaces[1..], size, rest);
    }
  }

  lemma OnLayout(pretty: int, n: int, size: nat, rest: Text)
    requires size >= INITIAL_SIZE
    ensures LexOn(LIMBO, size, Break(pretty) + rest) == LexOn(LIMBO, size, rest)
    ensures LexOn(LIMBO, size, Indent(n) + rest) == LexOn(LIMBO, size, rest)
  {
    OnSpaces(Break(pretty), size, rest);
    IndentSpaces(n);
    OnSpaces(Indent(n), size, rest);
  }

  // Strings.

  function NextMode(mode: Mode, c: Byte): Mode {
    match mode
    case InString => if c == BACKSLASH then InEscape else InString
    case InEscape => if c == LOWER_U then InUnicode(0) else InString
    case InUnicode(n) => if n + 1 >= 4 then InString else InUnicode(n + 1)
    case _ => mode
  }

  /** A character that goes into the string. */
  lemma OnAppend(mode: Mode, b: Buffer, c: Byte, rest: Text)
    requires Roomy(b) && ((mode.InString? && c != QUOTE) || mode.InEscape? || mode.InUnicode?)
    ensures var b' := AppendChar(b, c);
            LexOn(Lexer(mode, b.str), b.size, [c] + rest) == LexOn(Lexer(NextMode(mode, c), b'.str), b'.size, rest)
  {
    var l := Lexer(mode, b.str);
    var (l', size') := MakeRoom(l, b.size, c);
    assert ([c] + rest)[1..] == rest;
    assert LexByte(l', c) == Lexed(Lexer(NextMode(mode, c), AppendChar(b, c).str), [], true);
  }

  lemma {:induction false} AppendConcat(b: Buffer, s: seq<Byte>, t: seq<Byte>)
    requires Roomy(b)
    ensures AppendAll(b, s + t) == AppendAll(AppendAll(b, s), t)
    decreases |s|
  {
    if s == [] {
      assert s + t == t;
    } else {
      assert (s + t)[1..] == s[1..] + t;
      AppendConcat(AppendChar(b, s[0]), s[1..], t);
    }
  }

  /** Hexadecimal digits after the u. */
  lemma {:induction false} OnUnicode(n: nat, b: Buffer, e: Text, rest: Text)
    requires Roomy(b) && n < 4 && |e| == 4 - n
    ensures var b' := AppendAll(b, e);
            LexOn(Lexer(InUnicode(n), b.str), b.size, e + rest) == LexOn(Lexer(InString, b'.str), b'.size, rest)
    decreases |e|
  {
    hide LexOn, AppendChar;
    assert e + rest == [e[0]] + (e[1..] + rest);
    OnAppend(InUnicode(n), b, e[0], e[1..] + rest);
    if n < 3 {
      OnUnicode(n + 1, AppendChar(b, e[0]), e[1..], rest);
    } else {
      assert e[1..] + rest == rest && AppendAll(AppendChar(b, e[0]), e[1..]) == AppendChar(b, e[0]);
    }
  }

  lemma OnEscapedByte(c: Byte, b: Buffer, rest: Text)
    requires Roomy(b)
    ensures var b' := AppendAll(b, EscapeByte(c));
            LexOn(Lexer(InString, b.str), b.size, EscapeByte(c) + rest) == LexOn(Lexer(InString, b'.str), b'.size, rest)
  {
    hide LexOn, AppendChar;
    var e := EscapeByte(c);
    assert e + rest == [e[0]] + (e[1..] + rest);
    OnAppend(InString, b, e[0], e[1..] + rest);
    var b1 := AppendChar(b, e[0]);
    assert AppendAll(b, e) == AppendAll(b1, e[1..]);
    if |e| == 1 {
      assert e[1..] + rest == rest && e[1..] == [];
    } else {
      assert e[1..] + rest == [e[1]] + (e[2..] + rest);
      OnAppend(InEscape, b1, e[1], e[2..] + rest);
      assert AppendAll(b1, e[1..]) == AppendAll(AppendChar(b1, e[1]), e[2..]) by { assert e[1..][1..] == e[2..]; }
      if |e| == 2 {
        assert e[2..] + rest == rest && e[2..] == [];
      } else {
        OnUnicode(0, AppendChar(b1, e[1]), e[2..], rest);
      }
    }
  }

  lemma {:induction false} OnEscaped(s: seq<Byte>, b: Buffer, rest: Text)
    requires Roomy(b)
    ensures var b' := AppendAll(b, Escape(s));
            LexOn(Lexer(InString, b.str), b.size, Escape(s) + rest) == LexOn(Lexer(InString, b'.str), b'.size, rest)
  {
    hide LexOn, AppendChar, EscapeByte;
    if s == [] {
      assert Escape(s) + rest == rest;
    } else {
      var e := EscapeByte(s[0]);
      assert Escape(s) + rest == e + (Escape(s[1..]) + rest);
      OnEscapedByte(s[0], b, Escape(s[1..]) + rest);
      OnEscaped(s[1..], AppendAll(b, e), rest);
      AppendConcat(b, e, Escape(s[1..]));
    }
  }

  /** A quoted string is one token, of what the two strings have kept of it. */
  lemma OnQuoted(s: seq<Byte>, size: nat, rest: Text)
    requires size >= INITIAL_SIZE
    ensures var (t, size') := RereadString(s, size);
            LexOn(LIMBO, size, Quoted(s) + rest) == Behind([Token(Str, JString(t))], LexOn(LIMBO, size', rest))
  {
    var b := AppendAll(Buffer([], size), Escape(s));
    assert Quoted(s) + rest == [QUOTE] + (Escape(s) + ([QUOTE] + rest));
    OnAside(LIMBO, size, QUOTE, Escape(s) + ([QUOTE] + rest));
    assert LexByte(LIMBO, QUOTE) == Lexed(Lexer(InString, []), [], true);
    OnEscaped(s, Buffer([], size), [QUOTE] + rest);
    var l := Lexer(InString, b.str);
    assert LexByte(l, QUOTE) == Lexed(LIMBO, [Tokenize(l)], true);
    OnAside(l, b.size, QUOTE, rest);
  }

  // Numbers and identifiers are short.

  lemma {:induction false} OnRun(mode: Mode, word: Text, buf: Text, size: nat, rest: Text)
    requires mode.InNumber? || mode.InIdentifier?
    requires forall i :: 0 <= i < |word| ==> if mode.InNumber? then NumberPart(word[i]) else IsAlpha(word[i])
    requires size >= INITIAL_SIZE && |buf| + |word| + 1 < size
    ensures LexOn(Lexer(mode, buf), size, word + rest) == LexOn(Lexer(mode, buf + word), size, rest)
    decreases |word|
  {
    if word == [] {
      assert word + rest == rest && buf + word == buf;
    } else {
      var c := word[0];
      assert word + rest == [c] + (word[1..] + rest);
      assert (word + rest)[1..] == word[1..] + rest;
      assert MakeRoom(Lexer(mode, buf), size, c) == (Lexer(mode, buf), size);
      assert LexByte(Lexer(mode, buf), c) == Lexed(Lexer(mode, buf + [c]), [], true);
      OnRun(mode, word[1..], buf + [c], size, rest);
      assert buf + [c] + word[1..] == buf + word;
    }
  }

  lemma OnEnd(l: Lexer, size: nat, rest: Text)
    requires (l.mode.InNumber? || l.mode.InIdentifier?) && Sized(l, size)
    requires rest != [] && Delimiter(rest[0])
    ensures LexOn(l, size, rest) == Behind([Tokenize(l)], LexOn(LIMBO, size, rest))
  {
    var c, r := rest[0], LexByte(LIMBO, rest[0]);
    assert rest == [c] + rest[1..];
    assert LexChar(l, c) == Step(LIMBO, [Tokenize(l)], true, true);
    assert LexByte(l, c) == After([Tokenize(l)], r);
    assert r.ok;
    OnAside(l, size, c, rest[1..]);
    OnAside(LIMBO, size, c, rest[1..]);
    BehindTwice([Tokenize(l)], r.toks, LexOn(r.next, size, rest[1..]));
  }

  lemma OnStart(mode: Mode, word: Text, size: nat, rest: Text)
    requires (mode.InNumber? || mode.InIdentifier?) && size >= INITIAL_SIZE
    requires word != [] && if mode.InNumber? then NumberStart(word[0]) else IsAlpha(word[0])
    ensures LexOn(LIMBO, size, word + rest) == LexOn(Lexer(mode, []), size, word + rest)
  {
    var c := word[0];
    assert (word + rest)[0] == c;
    assert LexChar(LIMBO, c) == Step(Lexer(mode, []), [], true, true);
    AfterNone(LexByte(Lexer(mode, []), c));
    assert LexByte(LIMBO, c) == LexByte(Lexer(mode, []), c);
    assert MakeRoom(LIMBO, size, c) == (LIMBO, size) && MakeRoom(Lexer(mode, []), size, c) == (Lexer(mode, []), size);
  }

  lemma OnWord(mode: Mode, word: Text, size: nat, rest: Text)
    requires (mode.InNumber? || mode.InIdentifier?) && size >= INITIAL_SIZE && |word| + 1 < size
    requires word != [] && if mode.InNumber? then NumberStart(word[0]) else IsAlpha(word[0])
    requires forall i :: 0 <= i < |word| ==> if mode.InNumber? then NumberPart(word[i]) else IsAlpha(word[i])
    requires rest != [] && Delimiter(rest[0])
    ensures LexOn(LIMBO, size, word + rest) == Behind([Tokenize(Lexer(mode, word))], LexOn(LIMBO, size, rest))
  {
    hide LexOn, Tokenize;
    OnStart(mode, word, size, rest);
    OnRun(mode, word, [], size, rest);
    assert [] + word == word;
    OnEnd(Lexer(mode, word), size, rest);
  }

  lemma DigitsShort(n: nat)
    requires n <= 0x8000_0000
    ensures |Digits(n)| <= 10
  {
    var a := n / 10; var b := a / 10; var c := b / 10; var d := c / 10; var e := d / 10;
    var f := e / 10; var g := f / 10; var h := g / 10; var i := h / 10;
    assert i < 10;
    assert |Digits(i)| == 1;
    assert |Digits(h)| <= 2; assert |Digits(g)| <= 3; assert |Digits(f)| <= 4; assert |Digits(e)| <= 5;
    assert |Digits(d)| <= 6; assert |Digits(c)| <= 7; assert |Digits(b)| <= 8; assert |Digits(a)| <= 9;
  }

  lemma OnDecimal(i: int, size: nat, rest: Text)
    requires -0x8000_0000 <= i < 0x8000_0000 && size >= INITIAL_SIZE
    requires rest != [] && Delimiter(rest[0])
    ensures LexOn(LIMBO, size, Decimal(i) + rest) == Behind([Token(Num, JInt(i))], LexOn(LIMBO, size, rest))
  {
    var t, m := Decimal(i), if i < 0 then -i else i;
    DigitsRead(m);
    DigitsShort(m);
    assert forall j :: 0 <= j < |t| ==> IsDigit(t[j]) || t[j] == MINUS;
    DecimalReads(i);
    hide LexOn;
    OnWord(InNumber, t, size, rest);
  }

  lemma OnKeyword(n: Json, word: Text, size: nat, rest: Text)
    requires (n.JNull? || n.JBool?) && size >= INITIAL_SIZE
    requires word == if n.JNull? then NULL_TEXT else if n.b then TRUE_TEXT else FALSE_TEXT
    requires rest != [] && Delimiter(rest[0])
    ensures LexOn(LIMBO, size, word + rest) == Behind([Token(Ident, n)], LexOn(LIMBO, size, rest))
  {
    hide LexOn;
    assert NULL_TEXT[0] != TRUE_TEXT[0] && |TRUE_TEXT| != |FALSE_TEXT| && |NULL_TEXT| != |FALSE_TEXT|;
    assert Tokenize(Lexer(InIdentifier, word)) == Token(Ident, n);
    OnWord(InIdentifier, word, size, rest);
  }

  // Documents.

  lemma {:induction false} OnValue(n: Json, pretty: int, size: nat, rest: Text)
    requires Printable(n) && size >= INITIAL_SIZE
    requires rest != [] && Delimiter(rest[0])
    ensures var (m, size') := Reread(n, size);
            LexOn(LIMBO, size, TextOf(n, pretty) + rest) == Behind(Yield(TreeOf(m)), LexOn(LIMBO, size', rest))
    decreases n, 1
  {
    hide LexOn, RereadString;
    var (m, size') := Reread(n, size);
    Yields1(TreeOf(m).kids[0]);
    match n
    case JNull => OnKeyword(n, NULL_TEXT, size, rest);
    case JBool(b) => OnKeyword(n, if b then TRUE_TEXT else FALSE_TEXT, size, rest);
    case JInt(i) => OnDecimal(i, size, rest);
    case JString(s) => OnQuoted(s, size, rest);
    case JArray(_) => OnContainer(n, pretty, size, rest);
    case JObject(_) => OnContainer(n, pretty, size, rest);
  }

  lemma OnFollowing(remaining: nat, pretty: int, size: nat, tail: Text)
    requires size >= INITIAL_SIZE && (remaining <= 1 ==> tail != [] && Delimiter(tail[0]))
    ensures var text := Separator(remaining) + (Break(pretty) + tail);
            && text != [] && Delimiter(text[0])
            && LexOn(LIMBO, size, text) ==
              Behind(if remaining > 1 then [Token(ValueSep, JNull)] else [], LexOn(LIMBO, size, tail))
  {
    hide LexOn;
    OnLayout(pretty, 0, size, tail);
    if remaining > 1 {
      OnPunctuation(COMMA, size, Break(pretty) + tail);
    } else {
      assert Separator(remaining) + (Break(pretty) + tail) == Break(pretty) + tail;
    }
  }

  lemma OnClosing(pretty: int, shut: Byte, size: nat, rest: Text)
    requires (shut == RBRACKET || shut == RBRACE) && size >= INITIAL_SIZE
    ensures var last := Indent(pretty - 1) + ([shut] + rest);
            && last != [] && Delimiter(last[0])
            && LexOn(LIMBO, size, last) ==
              Behind([Token(if shut == RBRACKET then EndArray else EndObject, JNull)], LexOn(LIMBO, size, rest))
  {
    hide LexOn;
    OnLayout(pretty, pretty - 1, size, [shut] + rest);
    OnPunctuation(shut, size, rest);
    var i := Indent(pretty - 1);
    IndentSpaces(pretty - 1);
    assert i != [] ==> (i + ([shut] + rest))[0] == i[0];
  }

  lemma {:induction false} OnContainer(n: Json, pretty: int, size: nat, rest: Text)
    requires (n.JArray? || n.JObject?) && Printable(n) && size >= INITIAL_SIZE
    ensures var (m, size') := Reread(n, size);
            && (m.JArray? || m.JObject?)
            && LexOn(LIMBO, size, TextOf(n, pretty) + rest) ==
              Behind(Yield(ContainerTree(m)), LexOn(LIMBO, size', rest))
    decreases n, 0
  {
    hide LexOn, Yield, ContainerTree, TextOf, Break, Indent, Behind, ItemsText, MembersText, ElementsTree, MembersTree,
         Delimiter, RereadItems, RereadMembers;
    var (m, size') := Reread(n, size);
    var empty := if n.JArray? then n.items == [] else n.members == [];
    var open, shut := if n.JArray? then LBRACKET else LBRACE, if n.JArray? then RBRACKET else RBRACE;
    var body := if n.JArray? then ItemsText(n.items, pretty) else MembersText(n.members, pretty);
    var last := Indent(pretty - 1) + ([shut] + rest);
    ContainerText(n, pretty, rest);
    YieldOfContainer(m);
    OnPunctuation(open, size, Break(pretty) + (body + last));
    OnLayout(pretty, pretty - 1, size, body + last);
    if empty {
      EmptyBody(pretty, last);
      NothingReread(size);
      OnClosing(pretty, shut, size, rest);
      BehindTwice([Token(if n.JArray? then BeginArray else BeginObject, JNull)],
        [Token(if n.JArray? then EndArray else EndObject, JNull)], LexOn(LIMBO, size, rest));
    } else if n.JArray? {
      OnElements(n.items, pretty, size, rest);
      BehindTwice([Token(BeginArray, JNull)], Yield(ElementsTree(m.items)), LexOn(LIMBO, size', rest));
    } else {
      OnMembers(n.members, pretty, size, rest);
      BehindTwice([Token(BeginObject, JNull)], Yield(MembersTree(m.members)), LexOn(LIMBO, size', rest));
    }
  }

  lemma NothingReread(size: nat)
    requires size >= INITIAL_SIZE
    ensures RereadItems([], size) == ([], size) && RereadMembers([], size) == ([], size)
  {
  }

  lemma ItemsReread(items: seq<Json>, size: nat)
    requires items != [] && size >= INITIAL_SIZE
    ensures var (v, size1) := Reread(items[0], size);
            var (vs, size2) := RereadItems(items[1..], size1);
            RereadItems(items, size) == ([v] + vs, size2) && ([v] + vs)[0] == v && ([v] + vs)[1..] == vs
  {
  }

  lemma {:induction false} OnElements(items: seq<Json>, pretty: int, size: nat, rest: Text)
    requires items != [] && PrintableItems(items) && size >= INITIAL_SIZE
    ensures var (vs, size') := RereadItems(items, size);
            LexOn(LIMBO, size, ItemsText(items, pretty) + (Indent(pretty - 1) + ([RBRACKET] + rest))) ==
            Behind(Yield(ElementsTree(vs)), LexOn(LIMBO, size', rest))
    decreases items, 0
  {
    hide LexOn, Yield, ElementsTree, TextOf, Break, Indent, Behind, Separator, Delimiter, TreeOf, Reread, RereadItems;
    var (v, size1) := Reread(items[0], size);
    var (more, size2) := RereadItems(items[1..], size1);
    var vs := [v] + more;
    ItemsReread(items, size);
    var last := Indent(pretty - 1) + ([RBRACKET] + rest);
    var tail := ItemsText(items[1..], pretty) + last;
    var text := Separator(|items|) + (Break(pretty) + tail);
    var done := LexOn(LIMBO, size2, rest);
    ItemsTextSplit(items, pretty, last);
    YieldOfElements(vs);
    OnLayout(pretty, pretty, size, TextOf(items[0], Increment(pretty)) + text);
    OnClosing(pretty, RBRACKET, size1, rest);
    OnFollowing(|items|, pretty, size1, tail);
    OnValue(items[0], Increment(pretty), size, text);
    if |items| == 1 {
      assert items[1..] == [] && tail == last;
      NothingReread(size1);
      BehindTwice([], [Token(EndArray, JNull)], done);
      assert [] + [Token(EndArray, JNull)] == [Token(EndArray, JNull)] && |vs| == 1;
      BehindTwice(Yield(TreeOf(v)), [Token(EndArray, JNull)], done);
    } else {
      OnElements(items[1..], pretty, size1, rest);
      var toks := Yield(ElementsTree(more));
      BehindTwice([Token(ValueSep, JNull)], toks, done);
      BehindTwice(Yield(TreeOf(v)), [Token(ValueSep, JNull)] + toks, done);
    }
  }

  /** A key is read as it is. */
  lemma KeyReread(k: Key, size: nat)
    requires size >= INITIAL_SIZE
    ensures RereadString(k, size).0 == k
  {
    KeptNulFree(k, size);
  }

  /** So is every string without a NUL byte. */
  lemma KeptNulFree(s: seq<Byte>, size: nat)
    requires 0 !in s && size >= INITIAL_SIZE
    ensures RereadString(s, size).0 == s
  {
    EscapeNul(s);
    StoredNulFree(Buffer([], size), Escape(s));
    assert [] + Escape(s) == Escape(s);
    ScanEscaped(s);
    StoredNulFree(EMPTY, s);
    assert EMPTY.str + s == s;
  }

  lemma {:induction false} OnMember(m: Member, pretty: int, size: nat, rest: Text)
    requires Printable(m.value) && size >= INITIAL_SIZE
    requires rest != [] && Delimiter(rest[0])
    ensures var gap: Text := if pretty != 0 then [SPACE] else [];
            var (v, size') := Reread(m.value, RereadString(m.key, size).1);
            LexOn(LIMBO, size, Quoted(m.key) + ([COLON] + (gap + (TextOf(m.value, Increment(pretty)) + rest)))) ==
            Behind(Yield(MemberTree(Member(m.key, v))), LexOn(LIMBO, size', rest))
    decreases m, 0
  {
    hide LexOn, Yields, RereadString, Reread;
    var size1 := RereadString(m.key, size).1;
    var (v, size') := Reread(m.value, size1);
    var t := MemberTree(Member(m.key, v));
    var value := TextOf(m.value, Increment(pretty)) + rest;
    var gap: Text := if pretty != 0 then [SPACE] else [];
    KeyReread(m.key, size);
    OnQuoted(m.key, size, [COLON] + (gap + value));
    OnPunctuation(COLON, size1, gap + value);
    OnSpaces(gap, size1, value);
    OnValue(m.value, Increment(pretty), size1, rest);
    Yields3(t.kids[0], t.kids[1], t.kids[2]);
    BehindTwice(Yield(t.kids[1]), Yield(t.kids[2]), LexOn(LIMBO, size', rest));
    BehindTwice(Yield(t.kids[0]), Yield(t.kids[1]) + Yield(t.kids[2]), LexOn(LIMBO, size', rest));
    assert Yield(t.kids[0]) + (Yield(t.kids[1]) + Yield(t.kids[2])) == Yield(t);
  }

  lemma MembersReread(ms: seq<Member>, size: nat)
    requires ms != [] && size >= INITIAL_SIZE
    ensures var (v, size1) := Reread(ms[0].value, RereadString(ms[0].key, size).1);
            var (ns, size2) := RereadMembers(ms[1..], size1);
            var r := [Member(ms[0].key, v)] + ns;
            RereadMembers(ms, size) == (r, size2) && r[0] == Member(ms[0].key, v) && r[1..] == ns
  {
  }

  lemma {:induction false} OnMembers(ms: seq<Member>, pretty: int, size: nat, rest: Text)
    requires ms != [] && PrintableMembers(ms) && size >= INITIAL_SIZE
    ensures var (ns, size') := RereadMembers(ms, size);
            LexOn(LIMBO, size, MembersText(ms, pretty) + (Indent(pretty - 1) + ([RBRACE] + rest))) ==
            Behind(Yield(MembersTree(ns)), LexOn(LIMBO, size', rest))
    decreases ms, 0
  {
    hide LexOn, Yield, MembersTree, MemberTree, TextOf, Break, Indent, Behind, Separator, Delimiter, Quoted, Reread,
         RereadMembers, RereadString;
    var (v, size1) := Reread(ms[0].value, RereadString(ms[0].key, size).1);
    var (more, size2) := RereadMembers(ms[1..], size1);
    var m := Member(ms[0].key, v);
    var ns := [m] + more;
    MembersReread(ms, size);
    var last := Indent(pretty - 1) + ([RBRACE] + rest);
    var tail := MembersText(ms[1..], pretty) + last;
    var text := Separator(|ms|) + (Break(pretty) + tail);
    var gap: Text := if pretty != 0 then [SPACE] else [];
    var done := LexOn(LIMBO, size2, rest);
    MembersTextSplit(ms, pretty, last);
    YieldOfMembers(ns);
    OnLayout(pretty, pretty, size,
             Quoted(ms[0].key) + ([COLON] + (gap + (TextOf(ms[0].value, Increment(pretty)) + text))));
    OnClosing(pretty, RBRACE, size1, rest);
    OnFollowing(|ms|, pretty, size1, tail);
    OnMember(ms[0], pretty, size, text);
    if |ms| == 1 {
      assert ms[1..] == [] && tail == last;
      NothingReread(size1);
      BehindTwice([], [Token(EndObject, JNull)], done);
      assert [] + [Token(EndObject, JNull)] == [Token(EndObject, JNull)] && |ns| == 1;
      BehindTwice(Yield(MemberTree(m)), [Token(EndObject, JNull)], done);
    } else {
      OnMembers(ms[1..], pretty, size1, rest);
      var toks := Yield(MembersTree(more));
      BehindTwice([Token(ValueSep, JNull)], toks, done);
      BehindTwice(Yield(MemberTree(m)), [Token(ValueSep, JNull)] + toks, done);
    }
  }

  // What comes back.

  lemma {:induction false} RereadPrintable(n: Json, size: nat)
    requires Printable(n) && size >= INITIAL_SIZE
    ensures Printable(Reread(n, size).0)
    decreases n
  {
    hide RereadString;
    match n
    case JArray(items) => ItemsPrintable(items, size);
    case JObject(ms) => MembersPrintable(ms, size);
    case _ =>
  }

  lemma {:induction false} ItemsPrintable(items: seq<Json>, size: nat)
    requires PrintableItems(items) && size >= INITIAL_SIZE
    ensures PrintableItems(RereadItems(items, size).0)
    decreases items
  {
    hide Reread;
    if items != [] {
      RereadPrintable(items[0], size);
      ItemsReread(items, size);
      ItemsPrintable(items[1..], Reread(items[0], size).1);
    }
  }

  lemma {:induction false} MembersPrintable(ms: seq<Member>, size: nat)
    requires Sorted(ms) && PrintableMembers(ms) && size >= INITIAL_SIZE
    ensures Sorted(RereadMembers(ms, size).0) && PrintableMembers(RereadMembers(ms, size).0)
    decreases ms
  {
    hide Reread, RereadString;
    if ms != [] {
      var size1 := RereadString(ms[0].key, size).1;
      RereadPrintable(ms[0].value, size1);
      MembersReread(ms, size);
      MembersPrintable(ms[1..], Reread(ms[0].value, size1).1);
    }
  }

  /**
    Reading the text of any array or object, in any layout and split in any
    way, gives the document with each string as it was kept, and no error.
   */
  lemma WhatComesBack(n: Json, pretty: int, chunks: seq<Text>, multidoc: bool, size: nat)
    requires (n.JArray? || n.JObject?) && Printable(n) && size >= INITIAL_SIZE
    requires Joined(chunks) == TextOf(n, pretty)
    ensures ReadChunks(Reader(Fresh(multidoc), size), chunks).p ==
            Fresh(multidoc).(out := [Reread(n, size).0], conf := if multidoc then START else Conf([], []))
  {
    var m, p, text := Reread(n, size).0, Fresh(multidoc), TextOf(n, pretty);
    hide TextOf, ReadData, Reread, ContainerTree, LexOn;
    ReadAnywhere(Reader(p, size), chunks);
    OnContainer(n, pretty, size, []);
    assert text + [] == text;
    RereadPrintable(n, size);
    DocumentValue(m);
    DocumentDone(p, DocumentTree(m));
    EndOfText(size, n);
    ReadsWhatIsLexed(Reader(p, size), text);
  }

  lemma EndOfText(size: nat, n: Json)
    requires size >= INITIAL_SIZE
    ensures var s := Reread(n, size).1; LexOn(LIMBO, s, []) == Lexing(LIMBO, s, [], true)
  {
  }

  // Strings that never make the string of the lexer grow.

  lemma {:induction false} Appended(b: Buffer, s: seq<Byte>)
    requires Roomy(b) && |b.str| + |s| < b.size
    ensures AppendAll(b, s) == Buffer(b.str + s, b.size)
    decreases |s|
  {
    if s == [] {
      assert b.str + s == b.str;
    } else {
      assert b.str + [s[0]] + s[1..] == b.str + s;
      Appended(AppendChar(b, s[0]), s[1..]);
    }
  }

  lemma {:induction false} ScanLoses(s: seq<Byte>)
    ensures |Scan(Escape(s))| <= |s| <= |Escape(s)|
    ensures 0 in s ==> |Scan(Escape(s))| < |s|
  {
    hide EscapeByte;
    if s != [] {
      ScanEscapedByte(s[0], Escape(s[1..]));
      ScanLoses(s[1..]);
      assert EscapeByte(s[0]) != [] by { EscapeSome(s[0]); }
    }
  }

  lemma EscapeSome(c: Byte)
    ensures EscapeByte(c) != []
  {
  }

  /** A short string is read as it is exactly if it has no NUL bytes. */
  lemma ShortString(s: seq<Byte>, size: nat)
    requires size >= INITIAL_SIZE && |Escape(s)| < INITIAL_SIZE
    ensures RereadString(s, size).0 == s <==> 0 !in s
  {
    if 0 !in s {
      KeptNulFree(s, size);
    } else {
      Appended(Buffer([], size), Escape(s));
      assert [] + Escape(s) == Escape(s);
      ScanLoses(s);
      Appended(EMPTY, Scan(Escape(s)));
    }
  }

  /** Every string, escaped, is shorter than a new string. */
  predicate Short(n: Json) {
    match n
    case JString(s) => |Escape(s)| < INITIAL_SIZE
    case JArray(items) => ShortItems(items)
    case JObject(ms) => ShortMembers(ms)
    case _ => true
  }

  predicate ShortItems(items: seq<Json>) {
    items == [] || (Short(items[0]) && ShortItems(items[1..]))
  }

  predicate ShortMembers(ms: seq<Member>) {
    ms == [] || (Short(ms[0].value) && ShortMembers(ms[1..]))
  }

  /** Without NUL bytes a document is reread as it is; with short strings only then. */
  lemma {:induction false} RereadIff(n: Json, size: nat)
    requires size >= INITIAL_SIZE
    ensures NulFree(n) ==> Reread(n, size).0 == n
    ensures Short(n) && Reread(n, size).0 == n ==> NulFree(n)
    decreases n
  {
    hide RereadString, Escape;
    match n
    case JString(s) =>
      if 0 !in s { KeptNulFree(s, size); }
      if |Escape(s)| < INITIAL_SIZE { ShortString(s, size); }
    case JArray(items) => ItemsIff(items, size);
    case JObject(ms) => MembersIff(ms, size);
    case _ =>
  }

  lemma {:induction false} ItemsIff(items: seq<Json>, size: nat)
    requires size >= INITIAL_SIZE
    ensures NulFreeItems(items) ==> RereadItems(items, size).0 == items
    ensures ShortItems(items) && RereadItems(items, size).0 == items ==> NulFreeItems(items)
    decreases items
  {
    hide Reread, NulFree, Short;
    if items != [] {
      ItemsReread(items, size);
      RereadIff(items[0], size);
      ItemsIff(items[1..], Reread(items[0], size).1);
      assert items == [items[0]] + items[1..];
    }
  }

  lemma {:induction false} MembersIff(ms: seq<Member>, size: nat)
    requires size >= INITIAL_SIZE
    ensures NulFreeMembers(ms) ==> RereadMembers(ms, size).0 == ms
    ensures ShortMembers(ms) && RereadMembers(ms, size).0 == ms ==> NulFreeMembers(ms)
    decreases ms
  {
    hide Reread, RereadString, NulFree, Short;
    if ms != [] {
      var size1 := RereadString(ms[0].key, size).1;
      MembersReread(ms, size);
      RereadIff(ms[0].value, size1);
      MembersIff(ms[1..], Reread(ms[0].value, size1).1);
      assert ms == [ms[0]] + ms[1..] && ms[0] == Member(ms[0].key, ms[0].value);
    }
  }

  /** So a document with short strings comes back exactly if it has no NUL bytes. */
  lemma ShortComesBack(n: Json, pretty: int, chunks: seq<Text>, multidoc: bool, size: nat)
    requires (n.JArray? || n.JObject?) && Printable(n) && Short(n) && size >= INITIAL_SIZE
    requires Joined(chunks) == TextOf(n, pretty)
    ensures ReadChunks(Reader(Fresh(multidoc), size), chunks).p.out == [n] <==> NulFree(n)
  {
    WhatComesBack(n, pretty, chunks, multidoc, size);
    RereadIff(n, size);
  }

  // One NUL byte, and many.

  const ONE_NUL: Json := JArray([JString([0])])
  const NO_NUL: Json := JArray([JString([])])

  /** One NUL byte is lost. */
  lemma NulIsLost(pretty: int, multidoc: bool, size: nat)
    requires size >= INITIAL_SIZE
    ensures ReadData(Reader(Fresh(multidoc), size), TextOf(ONE_NUL, pretty)).p.out == [NO_NUL]
  {
    var text := TextOf(ONE_NUL, pretty);
    assert ONE_NUL.items[1..] == [];
    OneNulReread(size);
    var chunks: seq<Text> := [text];
    assert chunks[1..] == [] && Joined(chunks) == text + Joined(chunks[1..]) == text;
    WhatComesBack(ONE_NUL, pretty, chunks, multidoc, size);
    ReadAnywhere(Reader(Fresh(multidoc), size), chunks);
  }

  lemma OneNulString(size: nat)
    requires size >= INITIAL_SIZE
    ensures RereadString([0], size).0 == []
  {
    EscapedZeros(1);
    ScanLoses([0]);
    assert Zeros(1) == [0];
    hide Escape, Scan;
    Appended(Buffer([], size), Escape([0]));
    assert [] + Escape([0]) == Escape([0]);
    Appended(EMPTY, []);
  }

  lemma OneNulReread(size: nat)
    requires size >= INITIAL_SIZE
    ensures Reread(ONE_NUL, size).0 == NO_NUL
  {
    OneNulString(size);
    hide RereadString;
    assert ONE_NUL.items == [JString([0])];
    ItemsReread(ONE_NUL.items, size);
    NothingReread(RereadString([0], size).1);
  }

  // In a long string, what is lost and what is gained can make up for each other.

  lemma {:induction false} ScanZeros(n: nat, rest: Text)
    ensures Scan(Zeros(n) + rest) == Zeros(n) + Scan(rest)
  {
    if n == 0 {
      assert Zeros(0) + rest == rest && Zeros(0) + Scan(rest) == Scan(rest);
    } else {
      assert Zeros(n) + rest == [0] + (Zeros(n - 1) + rest);
      ScanZeros(n - 1, rest);
      assert [0] + (Zeros(n - 1) + Scan(rest)) == Zeros(n) + Scan(rest);
    }
  }

  lemma {:induction false} EscapedZeros(n: nat)
    ensures |Escape(Zeros(n))| == 2 * n && Scan(Escape(Zeros(n))) == []
    ensures n > 0 ==> Escape(Zeros(n)) == [BACKSLASH, 0] + Escape(Zeros(n - 1))
  {
    if n > 0 {
      assert Zeros(n)[0] == 0 && Zeros(n)[1..] == Zeros(n - 1);
      EscapedZeros(n - 1);
      ScanEscapedByte(0, Escape(Zeros(n - 1)));
    }
  }

  lemma {:induction false} EscapedSum(m: nat, n: nat)
    ensures Escape(Zeros(m + n)) == Escape(Zeros(m)) + Escape(Zeros(n))
  {
    hide *;
    EscapedZeros(m + n);
    EscapedZeros(m);
    var all, first, second := Escape(Zeros(m + n)), Escape(Zeros(m)), Escape(Zeros(n));
    if m > 0 {
      EscapedSum(m - 1, n);
      assert [BACKSLASH, 0] + (Escape(Zeros(m - 1)) + second) == first + second;
    } else {
      assert first + second == second;
    }
  }

  lemma NulsEscaped() returns (a: Text, more: Text)
    ensures |a| == 63 && a[0] == BACKSLASH && a[1] == 0 && |more| == 60 && Scan(more) == []
    ensures Escape(Zeros(62)) == a + ([0] + more)
  {
    hide *;
    var half := Escape(Zeros(31));
    a, more := half + [BACKSLASH], Escape(Zeros(30));
    EscapedSum(31, 31);
    EscapedZeros(31);
    EscapedZeros(30);
    assert half + half == half + ([BACKSLASH, 0] + more) == a + ([0] + more);
    assert half[0] == BACKSLASH && half[1] == 0;
  }

  lemma WipedScan(more: Text)
    requires Scan(more) == []
    ensures Scan([BACKSLASH] + Zeros(62) + [0] + more) == Zeros(62)
  {
    var kept := [BACKSLASH] + Zeros(62) + [0] + more;
    assert kept[2..] == Zeros(62) + more && kept[0] == BACKSLASH && kept[1] == 0;
    ScanZeros(62, more);
    assert Scan(kept) == [] + Scan(kept[2..]);
    assert Zeros(62) + [] == Zeros(62);
  }

  /** 62 NUL bytes come back as 62 NUL bytes: half of the text is wiped when the string grows. */
  lemma ManyNuls()
    ensures RereadString(Zeros(62), INITIAL_SIZE).0 == Zeros(62)
  {
    var a, more := NulsEscaped();
    HalfWiped(a, more);
    WipedScan(more);
    Appended(EMPTY, Zeros(62));
    assert EMPTY.str + Zeros(62) == Zeros(62);
    assert Buffer([], INITIAL_SIZE) == EMPTY;
    hide *;
    RereadIs(Zeros(62));
  }

  lemma RereadIs(s: seq<Byte>)
    ensures RereadString(s, INITIAL_SIZE).0 == AppendAll(EMPTY, Scan(AppendAll(EMPTY, Escape(s)).str)).str
  {
  }

  lemma HalfWiped(a: Text, more: Text)
    requires |a| == 63 && a[0] == BACKSLASH && a[1] == 0 && |more| == 60
    ensures AppendAll(EMPTY, a + ([0] + more)).str == [BACKSLASH] + Zeros(62) + [0] + more
  {
    Appended(EMPTY, a);
    assert EMPTY.str + a == a;
    AppendConcat(EMPTY, a, [0] + more);
    assert ([0] + more)[1..] == more;
    var b := AppendChar(Buffer(a, INITIAL_SIZE), 0);
    assert Copied(a) == [BACKSLASH] + Copied(a[1..]) && Copied(a[1..]) == [0] + Zeros(61);
    assert [0] + Zeros(61) == Zeros(62);
    assert b == Buffer([BACKSLASH] + Zeros(62) + [0], 128);
    Appended(b, more);
  }
}
