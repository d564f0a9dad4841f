/** The character-driven lexer, as a step function, and how it reads serialized text. */
module JsonLexer {
  import opened Common
  import opened JsonValue
  import opened JsonGrammar
  import opened JsonText
  import opened StringBuffer

  datatype Mode = Limbo | InString | InEscape | InUnicode(seen: nat) | InNumber | InIdentifier

  datatype Lexer = Lexer(mode: Mode, buf: Text)

  const LIMBO: Lexer := Lexer(Limbo, [])

  /** One character: the next state, the token completed if any, whether the character is to be sent again. */
  datatype Step = Step(next: Lexer, toks: seq<Token>, again: bool, ok: bool)

  function Punctuation(c: Byte): Option<Sym> {
    if c == LBRACE then Some(BeginObject)
    else if c == RBRACE then Some(EndObject)
    else if c == LBRACKET then Some(BeginArray)
    else if c == RBRACKET then Some(EndArray)
    else if c == COLON then Some(NameSep)
    else if c == COMMA then Some(ValueSep)
    else None
  }

  predicate NumberStart(c: Byte) {
    c == MINUS || c == DOT || IsDigit(c)
  }

  predicate NumberPart(c: Byte) {
    NumberStart(c) || c == 0x65 || c == 0x45
  }

  /** The token held by the buffer. Only '.' and a lower-case 'e' make a number a float. */
  function Tokenize(l: Lexer): (t: Token)
    ensures TokenOk(t)
  {
    match l.mode
    case InNumber =>
      Token(Num, if DOT in l.buf || 0x65 in l.buf then JFloat(l.buf) else JInt(ToInt(Strtol(l.buf, 0))))
    case InIdentifier =>
      Token(Ident, if l.buf == TRUE_TEXT then JBool(true) else if l.buf == FALSE_TEXT then JBool(false) else JNull)
    case _ => Token(Str, JString(Stored(Scan(l.buf))))
  }

  function LexChar(l: Lexer, c: Byte): (s: Step)
    ensures forall i :: 0 <= i < |s.toks| ==> TokenOk(s.toks[i])
    ensures s.again ==> Turns(s.next, c) < Turns(l, c)
  {
    match l.mode
    case Limbo =>
      if Punctuation(c).Some? then Step(l, [Token(Punctuation(c).value, JNull)], false, true)
      else if NumberStart(c) then Step(l.(mode := InNumber), [], true, true)
      else if IsAlpha(c) then Step(l.(mode := InIdentifier), [], true, true)
      else if c == QUOTE then Step(l.(mode := InString), [], false, true)
      else Step(l, [], false, IsSpace(c))
    case InString =>
      if c == BACKSLASH then Step(Lexer(InEscape, l.buf + [c]), [], false, true)
      else if c == QUOTE then Step(LIMBO, [Tokenize(l)], false, true)
      else Step(l.(buf := l.buf + [c]), [], false, true)
    case InEscape =>
      Step(Lexer(if c == LOWER_U then InUnicode(0) else InString, l.buf + [c]), [], false, true)
    case InUnicode(n) =>
      Step(Lexer(if n + 1 >= 4 then InString else InUnicode(n + 1), l.buf + [c]), [], false, true)
    case InNumber =>
      if NumberPart(c) then Step(l.(buf := l.buf + [c]), [], false, true)
      else Step(LIMBO, [Tokenize(l)], true, true)
    case InIdentifier =>
      if IsAlpha(c) then Step(l.(buf := l.buf + [c]), [], false, true)
      else Step(LIMBO, [Tokenize(l)], true, true)
  }

  /** How often a character can still be sent again. */
  function Turns(l: Lexer, c: Byte): nat {
    if l.mode.InNumber? then (if NumberPart(c) then 0 else 2)
    else if l.mode.InIdentifier? then (if IsAlpha(c) then 0 else 2)
    else 1
  }

  datatype Lexed = Lexed(next: Lexer, toks: seq<Token>, ok: bool)

  function After(toks: seq<Token>, r: Lexed): Lexed {
    r.(toks := toks + r.toks)
  }

  /** A character, sent as often as the lexer asks for it. */
  function LexByte(l: Lexer, c: Byte): (r: Lexed)
    ensures forall i :: 0 <= i < |r.toks| ==> TokenOk(r.toks[i])
    decreases Turns(l, c)
  {
    var s := LexChar(l, c);
    if s.again then After(s.toks, LexByte(s.next, c)) else Lexed(s.next, s.toks, s.ok)
  }

  function LexAll(l: Lexer, text: Text): (r: Lexed)
    ensures forall i :: 0 <= i < |r.toks| ==> TokenOk(r.toks[i])
    decreases |text|
  {
    if text == [] then Lexed(l, [], true)
    else
      var r := LexByte(l, text[0]);
      if !r.ok then r else After(r.toks, LexAll(r.next, text[1..]))
  }

  // How serialized text is read.

  /** A character that ends a number or an identifier and starts neither. */
  predicate Delimiter(c: Byte) {
    Punctuation(c).Some? || IsSpace(c)
  }

  lemma AfterNone(r: Lexed)
    ensures After([], r) == r
  {
    assert [] + r.toks == r.toks;
  }

  lemma AfterTwice(a: seq<Token>, b: seq<Token>, r: Lexed)
    ensures After(a, After(b, r)) == After(a + b, r)
  {
    assert a + (b + r.toks) == (a + b) + r.toks;
  }

  /** A character that completes no token. */
  lemma LexQuiet(l: Lexer, c: Byte, rest: Text)
    requires var s := LexChar(l, c); s.ok && !s.again && s.toks == []
    ensures LexAll(l, [c] + rest) == LexAll(LexChar(l, c).next, rest)
  {
    assert ([c] + rest)[1..] == rest;
    AfterNone(LexAll(LexChar(l, c).next, rest));
  }

  lemma LexPunctuation(c: Byte, rest: Text)
    requires Punctuation(c).Some?
    ensures LexAll(LIMBO, [c] + rest) == After([Token(Punctuation(c).value, JNull)], LexAll(LIMBO, rest))
  {
    assert ([c] + rest)[1..] == rest;
  }

  lemma {:induction false} LexSpaces(spaces: Text, rest: Text)
    requires forall i :: 0 <= i < |spaces| ==> IsSpace(spaces[i])
    ensures LexAll(LIMBO, spaces + rest) == LexAll(LIMBO, rest)
  {
    if spaces == [] {
      assert spaces + rest == rest;
    } else {
      assert spaces + rest == [spaces[0]] + (spaces[1..] + rest);
      LexQuiet(LIMBO, spaces[0], spaces[1..] + rest);
      LexSpaces(spaces[1..], rest);
    }
  }

  lemma {:induction false} IndentSpaces(n: int)
    ensures forall i :: 0 <= i < |Indent(n)| ==> IsSpace(Indent(n)[i])
    decreases if n <= 0 then 0 else n
  {
    if n > 0 { IndentSpaces(n - 1); }
  }

  /** Line break and indentation vanish. */
  lemma LexLayout(pretty: int, n: int, rest: Text)
    ensures LexAll(LIMBO, Break(pretty) + rest) == LexAll(LIMBO, rest)
    ensures LexAll(LIMBO, Indent(n) + rest) == LexAll(LIMBO, rest)
  {
    LexSpaces(Break(pretty), rest);
    IndentSpaces(n);
    LexSpaces(Indent(n), rest);
  }

  /** An escaped byte goes into the buffer as it is written. */
  lemma LexEscapedByte(c: Byte, buf: Text, rest: Text)
    ensures LexAll(Lexer(InString, buf), EscapeByte(c) + rest) == LexAll(Lexer(InString, buf + EscapeByte(c)), rest)
  {
    hide LexAll;
    var e := EscapeByte(c);
    assert e + rest == [e[0]] + (e[1..] + rest);
    LexQuiet(Lexer(InString, buf), e[0], e[1..] + rest);
    if |e| == 1 {
      assert e[1..] + rest == rest && [e[0]] == e;
    } else {
      assert e[1..] + rest == [e[1]] + (e[2..] + rest);
      LexQuiet(Lexer(InEscape, buf + [e[0]]), e[1], e[2..] + rest);
      assert buf + [e[0]] + [e[1]] == buf + e[..2];
      if |e| == 2 {
        assert e[2..] + rest == rest && e[..2] == e;
      } else {
        LexFour(e[2..], buf + e[..2], rest);
        assert buf + e[..2] + e[2..] == buf + e;
      }
    }
  }

  lemma LexFour(e: Text, buf: Text, rest: Text)
    requires |e| == 4
    ensures LexAll(Lexer(InUnicode(0), buf), e + rest) == LexAll(Lexer(InString, buf + e), rest)
  {
    hide LexAll;
    assert e + rest == [e[0]] + ([e[1]] + ([e[2]] + ([e[3]] + rest)));
    LexQuiet(Lexer(InUnicode(0), buf), e[0], [e[1]] + ([e[2]] + ([e[3]] + rest)));
    LexQuiet(Lexer(InUnicode(1), buf + [e[0]]), e[1], [e[2]] + ([e[3]] + rest));
    LexQuiet(Lexer(InUnicode(2), buf + [e[0]] + [e[1]]), e[2], [e[3]] + rest);
    LexQuiet(Lexer(InUnicode(3), buf + [e[0]] + [e[1]] + [e[2]]), e[3], rest);
    assert buf + [e[0]] + [e[1]] + [e[2]] + [e[3]] == buf + e;
  }

  lemma {:induction false} LexEscaped(s: seq<Byte>, buf: Text, rest: Text)
    ensures LexAll(Lexer(InString, buf), Escape(s) + rest) == LexAll(Lexer(InString, buf + Escape(s)), rest)
  {
    if s == [] {
      assert Escape(s) + rest == rest && buf + Escape(s) == buf;
    } else {
      var e := EscapeByte(s[0]);
      assert Escape(s) + rest == e + (Escape(s[1..]) + rest);
      LexEscapedByte(s[0], buf, Escape(s[1..]) + rest);
      LexEscaped(s[1..], buf + e, rest);
      assert buf + e + Escape(s[1..]) == buf + Escape(s);
    }
  }

  /** A quoted string is read as one string token. */
  lemma LexAnyQuoted(s: seq<Byte>, rest: Text)
    ensures LexAll(LIMBO, Quoted(s) + rest) ==
            After([Token(Str, JString(Stored(Scan(Escape(s)))))], LexAll(LIMBO, rest))
  {
    var l := Lexer(InString, Escape(s));
    assert Quoted(s) + rest == [QUOTE] + (Escape(s) + ([QUOTE] + rest));
    LexQuiet(LIMBO, QUOTE, Escape(s) + ([QUOTE] + rest));
    LexEscaped(s, [], [QUOTE] + rest);
    assert [] + Escape(s) == Escape(s);
    assert ([QUOTE] + rest)[1..] == rest;
  }

  /** If it has no NUL bytes, the token is that string. */
  lemma LexQuoted(s: seq<Byte>, rest: Text)
    requires 0 !in s
    ensures LexAll(LIMBO, Quoted(s) + rest) == After([Token(Str, JString(s))], LexAll(LIMBO, rest))
  {
    LexAnyQuoted(s, rest);
    ScanEscaped(s);
    StoredNulFree(EMPTY, s);
    assert EMPTY.str + s == s;
  }

  /** A run of characters of a number or an identifier is collected in the buffer. */
  lemma {:induction false} LexRun(mode: Mode, word: Text, buf: Text, rest: Text)
    requires mode.InNumber? || mode.InIdentifier?
    requires forall i :: 0 <= i < |word| ==> if mode.InNumber? then NumberPart(word[i]) else IsAlpha(word[i])
    ensures LexAll(Lexer(mode, buf), word + rest) == LexAll(Lexer(mode, buf + word), rest)
  {
    if word == [] {
      assert word + rest == rest && buf + word == buf;
    } else {
      assert word + rest == [word[0]] + (word[1..] + rest);
      LexQuiet(Lexer(mode, buf), word[0], word[1..] + rest);
      LexRun(mode, word[1..], buf + [word[0]], rest);
      assert buf + [word[0]] + word[1..] == buf + word;
    }
  }

  /** The character after a number or an identifier ends it and is then read on its own. */
  lemma LexEnd(l: Lexer, rest: Text)
    requires l.mode.InNumber? || l.mode.InIdentifier?
    requires rest != [] && Delimiter(rest[0])
    ensures LexAll(l, rest) == After([Tokenize(l)], LexAll(LIMBO, rest))
  {
    var c := rest[0];
    assert LexChar(l, c) == Step(LIMBO, [Tokenize(l)], true, true);
    var r := LexByte(LIMBO, c);
    assert LexByte(l, c) == After([Tokenize(l)], r);
    AfterTwice([Tokenize(l)], r.toks, LexAll(r.next, rest[1..]));
  }

  /** The first character of a number or identifier selects the mode and is sent again. */
  lemma LexStart(mode: Mode, word: Text, rest: Text)
    requires mode.InNumber? || mode.InIdentifier?
    requires word != [] && if mode.InNumber? then NumberStart(word[0]) else IsAlpha(word[0])
    ensures LexAll(LIMBO, word + rest) == LexAll(Lexer(mode, []), word + rest)
  {
    var c := word[0];
    assert (word + rest)[0] == c;
    assert LexChar(LIMBO, c) == Step(Lexer(mode, []), [], true, true);
    AfterNone(LexByte(Lexer(mode, []), c));
  }

  lemma LexWord(mode: Mode, word: Text, rest: Text)
    requires mode.InNumber? || mode.InIdentifier?
    requires word != [] && if mode.InNumber? then NumberStart(word[0]) else IsAlpha(word[0])
    requires forall i :: 0 <= i < |word| ==> if mode.InNumber? then NumberPart(word[i]) else IsAlpha(word[i])
    requires rest != [] && Delimiter(rest[0])
    ensures LexAll(LIMBO, word + rest) == After([Tokenize(Lexer(mode, word))], LexAll(LIMBO, rest))
  {
    LexStart(mode, word, rest);
    LexRun(mode, word, [], rest);
    assert [] + word == word;
    LexEnd(Lexer(mode, word), rest);
  }

  lemma LexDecimal(i: int, rest: Text)
    requires -0x8000_0000 <= i < 0x8000_0000
    requires rest != [] && Delimiter(rest[0])
    ensures LexAll(LIMBO, Decimal(i) + rest) == After([Token(Num, JInt(i))], LexAll(LIMBO, rest))
  {
    var t := Decimal(i);
    DigitsRead(if i < 0 then -i else i);
    assert forall j :: 0 <= j < |t| ==> IsDigit(t[j]) || t[j] == MINUS;
    DecimalReads(i);
    LexWord(InNumber, t, rest);
  }
}
