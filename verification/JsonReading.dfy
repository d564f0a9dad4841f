/** Every spelling of a document is read as what it means. */
module JsonReading {
  import opened Common
  import opened JsonValue
  import opened JsonGrammar
  import opened JsonMachine
  import opened JsonBuild
  import opened JsonStacks
  import opened JsonText
  import opened StringBuffer
  import opened JsonLexer
  import opened JsonRoundTrip
  import opened JsonParser
  import opened JsonPhrase
  import opened JsonSpelling
  import opened JsonStream

  // ----- numbers -----

  lemma {:induction false} AccumulatesNumeral(t: Text)
    requires forall i {:trigger t[i]} :: 0 <= i < |t| ==> '0' as int <= t[i] <= '9' as int
    ensures Accumulate(t, 10, 0) == Numeral(t)
  {
    if t != [] {
      var s, d := t[..|t| - 1], t[|t| - 1];
      AccumulatesNumeral(s);
      AccumulateMore(s, d, 0);
      assert t == s + [d];
    }
  }

  lemma WholeMagnitude(t: Text)
    requires WholeNumber(t)
    ensures Magnitude(t, 0) == Numeral(t)
  {
    AccumulatesNumeral(t);
    if t[0] == ZERO {
      assert t == [ZERO] && t[1..] == [] && t[..0] == [];
      assert Accumulate(t, 8, 0) == Accumulate([], 8, 0) == 0;
    }
  }

  lemma SignedNumeral(minus: Text, whole: Text)
    requires (minus == [] || minus == Ascii("-")) && WholeNumber(whole)
    requires -0x8000_0000 <= (if minus == [] then Numeral(whole) else 0 - Numeral(whole) as int) < 0x8000_0000
    ensures ToInt(Strtol(minus + whole, 0)) == if minus == [] then Numeral(whole) else 0 - Numeral(whole) as int
  {
    var t := minus + whole;
    WholeMagnitude(whole);
    hide Magnitude, Numeral;
    assert !IsSpace(t[0]);
    if minus == [] { assert t == whole; } else { assert t[1..] == whole && t[0] == MINUS; }
  }

  /** A number can be read: no plus sign in its exponent, and a point or a small e if it is no integer. */
  predicate ReadableNumber(v: Json) {
    v.JFloat? ==> '+' as int !in v.text && ('.' as int in v.text || 'e' as int in v.text)
  }

  lemma NumberChars(t: Text, v: Json)
    requires NumberSpelled(t, v)
    ensures t != [] && NumberStart(t[0]) && t[0] != PLUS
    ensures forall i {:trigger t[i]} :: 0 <= i < |t| ==> NumberPart(t[i]) || t[i] == PLUS
    ensures v.JInt? ==> DOT !in t && 0x65 !in t && PLUS !in t && ToInt(Strtol(t, 0)) == v.i
    ensures v.JInt? || v == JFloat(t)
  {
    var m, w, f, e :| NumberParts(t, m, w, f, e) &&
      if f == [] && e == [] then v.JInt? && v.i == if m == [] then Numeral(w) else 0 - Numeral(w) as int
      else v == JFloat(t);
    assert m != [] ==> m == [MINUS];
    PartsChars(m, w, f, e);
    if v.JInt? {
      assert t == m + w;
      SignedNumeral(m, w);
    }
  }

  const PLUS: Byte := 0x2B

  lemma PartsChars(m: Text, w: Text, f: Text, e: Text)
    requires (m == [] || m == [MINUS]) && WholeNumber(w) && (f == [] || Fraction(f)) && (e == [] || Exponent(e))
    ensures var t := m + w + f + e;
      && t != [] && NumberStart(t[0]) && t[0] != PLUS
      && (forall i {:trigger t[i]} :: 0 <= i < |t| ==> NumberPart(t[i]) || t[i] == PLUS)
      && (f == [] && e == [] ==> DOT !in t && 0x65 !in t && PLUS !in t)
  {
    var t := m + w + f + e;
    assert t[0] == if m == [] then w[0] else MINUS;
    assert f != [] ==> forall i {:trigger f[i]} :: 0 < i < |f| ==> f[i] == f[1..][i - 1];
    assert e != [] ==> forall i {:trigger e[i]} :: 1 < i < |e| ==> e[i] == e[1..][i - 1] == e[2..][i - 2];
    assert e != [] && Decimals(e[1..]) ==> e[1] == e[1..][0];
    forall i {:trigger t[i]} | 0 <= i < |t| ensures NumberPart(t[i]) || t[i] == PLUS {
      var j, k := i - |m|, i - |m| - |w|;
      if j < 0 {
        assert t[i] == m[i];
      } else if k < 0 {
        assert t[i] == w[j];
      } else if k < |f| {
        assert t[i] == f[k];
      } else {
        assert t[i] == e[k - |f|];
      }
    }
  }

  /** A readable number before a delimiter is one token with its value. */
  lemma ReadsNumber(t: Text, v: Json, rest: Text)
    requires NumberSpelled(t, v) && ReadableNumber(v) && rest != [] && Delimiter(rest[0])
    ensures LexAll(LIMBO, t + rest) == After([Token(Num, v)], LexAll(LIMBO, rest))
  {
    NumberChars(t, v);
    hide LexAll, Strtol;
    LexWord(InNumber, t, rest);
  }

  lemma FirstPlus(t: Text) returns (k: nat)
    requires PLUS in t
    ensures k < |t| && t[k] == PLUS && forall i {:trigger t[i]} :: 0 <= i < k ==> t[i] != PLUS
  {
    k := 0;
    while t[k] != PLUS
      invariant k < |t| && PLUS in t[k..] && forall i {:trigger t[i]} :: 0 <= i < k ==> t[i] != PLUS
      decreases |t| - k
    {
      k := k + 1;
    }
  }

  /** A plus sign ends the number and is itself refused. */
  lemma PlusRefused(a: Text, more: Text)
    requires a != [] && NumberStart(a[0]) && forall i {:trigger a[i]} :: 0 <= i < |a| ==> NumberPart(a[i])
    ensures LexAll(LIMBO, a + ([PLUS] + more)) == Lexed(LIMBO, [Tokenize(Lexer(InNumber, a))], false)
  {
    hide *;
    var l, rest := Lexer(InNumber, a), [PLUS] + more;
    LexStart(InNumber, a, rest);
    LexRun(InNumber, a, [], rest);
    assert [] + a == a;
    PlusEnds(l, more);
  }

  lemma PlusEnds(l: Lexer, more: Text)
    requires l.mode == InNumber
    ensures LexAll(l, [PLUS] + more) == Lexed(LIMBO, [Tokenize(l)], false)
  {
    hide Tokenize;
    assert LexChar(l, PLUS) == Step(LIMBO, [Tokenize(l)], true, true);
    assert LexByte(LIMBO, PLUS) == Lexed(LIMBO, [], false);
    assert LexByte(l, PLUS) == After([Tokenize(l)], LexByte(LIMBO, PLUS));
    assert [Tokenize(l)] + [] == [Tokenize(l)];
  }

  /** Any other number is not read as what it is: its exponent has a plus sign, or is all that makes it no integer. */
  lemma ReadsNumberExactly(t: Text, v: Json, rest: Text)
    requires NumberSpelled(t, v) && rest != [] && Delimiter(rest[0])
    ensures LexAll(LIMBO, t + rest) == After([Token(Num, v)], LexAll(LIMBO, rest)) <==> ReadableNumber(v)
  {
    hide *;
    if ReadableNumber(v) {
      ReadsNumber(t, v, rest);
    } else {
      UnreadableToken(t, v, rest);
      OtherToken(t, v, rest);
    }
  }

  /** The token that comes instead. */
  lemma UnreadableToken(t: Text, v: Json, rest: Text)
    requires NumberSpelled(t, v) && !ReadableNumber(v) && rest != [] && Delimiter(rest[0])
    ensures v == JFloat(t) && LexAll(LIMBO, t + rest).toks != [] && LexAll(LIMBO, t + rest).toks[0].val != v
  {
    hide *;
    NumberChars(t, v);
    Unreadable(v);
    if PLUS in t {
      PlusToken(t, rest);
    } else {
      PointlessToken(t, rest);
    }
  }

  lemma Unreadable(v: Json)
    requires !ReadableNumber(v)
    ensures v.JFloat? && (PLUS in v.text || (DOT !in v.text && 0x65 !in v.text))
  {
  }

  lemma PlusToken(t: Text, rest: Text)
    requires PLUS in t && t != [] && NumberStart(t[0]) && t[0] != PLUS
    requires forall i {:trigger t[i]} :: 0 <= i < |t| ==> NumberPart(t[i]) || t[i] == PLUS
    ensures LexAll(LIMBO, t + rest).toks != [] && LexAll(LIMBO, t + rest).toks[0].val != JFloat(t)
  {
    hide LexAll, NumberPart, NumberStart;
    var k := FirstPlus(t);
    var a, more := t[..k], t[k + 1..] + rest;
    assert t + rest == a + ([PLUS] + more);
    PlusRefused(a, more);
    TokenOfPart(a);
  }

  lemma PointlessToken(t: Text, rest: Text)
    requires DOT !in t && 0x65 !in t && PLUS !in t && t != [] && NumberStart(t[0]) && rest != [] && Delimiter(rest[0])
    requires forall i {:trigger t[i]} :: 0 <= i < |t| ==> NumberPart(t[i]) || t[i] == PLUS
    ensures LexAll(LIMBO, t + rest).toks != [] && LexAll(LIMBO, t + rest).toks[0].val != JFloat(t)
  {
    hide LexAll, NumberPart, NumberStart, Delimiter, Tokenize;
    LexWord(InNumber, t, rest);
    TokenOfPart(t);
    assert LexAll(LIMBO, t + rest).toks[0] == Tokenize(Lexer(InNumber, t));
  }

  lemma TokenOfPart(a: Text)
    ensures var v := Tokenize(Lexer(InNumber, a)).val; v.JInt? || v == JFloat(a)
    ensures DOT !in a && 0x65 !in a ==> Tokenize(Lexer(InNumber, a)).val.JInt?
  {
  }

  lemma OtherToken(t: Text, v: Json, rest: Text)
    requires v == JFloat(t) && LexAll(LIMBO, t + rest).toks != [] && LexAll(LIMBO, t + rest).toks[0].val != v
    ensures LexAll(LIMBO, t + rest) != After([Token(Num, v)], LexAll(LIMBO, rest))
  {
    hide LexAll;
    assert After([Token(Num, v)], LexAll(LIMBO, rest)).toks[0] == Token(Num, v);
  }

  lemma OneAndFive()
    ensures WholeNumber(Ascii("1")) && Exponent(Ascii("e+5")) && Exponent(Ascii("E5"))
  {
    assert Ascii("e+5")[2..] == Ascii("5") && Ascii("E5")[1..] == Ascii("5");
    assert Decimals(Ascii("5")) && Decimals(Ascii("1"));
  }

  lemma WithExponent(t: Text, exp: Text)
    requires exp != [] && Exponent(exp) && t == Ascii("1") + exp
    ensures NumberSpelled(t, JFloat(t))
  {
    hide WholeNumber, Exponent, Decimals, Fraction;
    OneAndFive();
    assert t == [] + Ascii("1") + [] + exp;
    assert NumberParts(t, [], Ascii("1"), [], exp);
  }

  /** The failing inputs: numbers with an exponent and no fraction. */
  lemma ExponentsSpelled()
    ensures NumberSpelled(Ascii("1e+5"), JFloat(Ascii("1e+5"))) && NumberSpelled(Ascii("1E5"), JFloat(Ascii("1E5")))
    ensures !ReadableNumber(JFloat(Ascii("1e+5"))) && !ReadableNumber(JFloat(Ascii("1E5")))
  {
    hide NumberSpelled, NumberParts, WholeNumber, Exponent;
    var t, u := Ascii("1e+5"), Ascii("1E5");
    OneAndFive();
    assert t == Ascii("1") + Ascii("e+5") && u == Ascii("1") + Ascii("E5");
    WithExponent(t, Ascii("e+5"));
    WithExponent(u, Ascii("E5"));
    assert t[2] == PLUS;
  }

  /** An integer is read as its number modulo 2 to the 32, and as itself exactly if it fits. */
  lemma WholeRead(minus: Text, whole: Text, rest: Text) returns (i: int)
    requires (minus == [] || minus == Ascii("-")) && WholeNumber(whole) && rest != [] && Delimiter(rest[0])
    ensures -0x8000_0000 <= i < 0x8000_0000
    ensures LexAll(LIMBO, minus + whole + rest) == After([Token(Num, JInt(i))], LexAll(LIMBO, rest))
    ensures var n := if minus == [] then Numeral(whole) else 0 - Numeral(whole) as int;
            && (i == n <==> -0x8000_0000 <= n < 0x8000_0000)
            && (-LONG_MAX - 1 <= n <= LONG_MAX ==> (i - n) % 0x1_0000_0000 == 0)
  {
    hide *;
    var t := minus + whole;
    LongRead(minus, whole);
    WholeChars(minus, whole);
    TokenOfWhole(t);
    LexWord(InNumber, t, rest);
    i := ToInt(Strtol(t, 0));
  }

  lemma TokenOfWhole(t: Text)
    requires DOT !in t && 0x65 !in t
    ensures Tokenize(Lexer(InNumber, t)) == Token(Num, JInt(ToInt(Strtol(t, 0))))
  {
  }

  lemma WholeChars(minus: Text, whole: Text)
    requires (minus == [] || minus == Ascii("-")) && WholeNumber(whole)
    ensures var t := minus + whole;
            && t != [] && NumberStart(t[0]) && DOT !in t && 0x65 !in t && LONG_MAX == 0x7FFF_FFFF_FFFF_FFFF
            && forall i :: 0 <= i < |t| ==> NumberPart(t[i])
  {
  }

  lemma LongRead(minus: Text, whole: Text)
    requires (minus == [] || minus == Ascii("-")) && WholeNumber(whole)
    ensures var n := if minus == [] then Numeral(whole) else 0 - Numeral(whole) as int;
            Strtol(minus + whole, 0) ==
            if n > LONG_MAX then LONG_MAX else if n < -LONG_MAX - 1 then -LONG_MAX - 1 else n
  {
    var t := minus + whole;
    WholeMagnitude(whole);
    hide Magnitude, Numeral;
    assert !IsSpace(t[0]);
    if minus == [] { assert t == whole; } else { assert t[1..] == whole && t[0] == MINUS; }
  }

  // ----- words, values, documents -----

  lemma ReadsString(t: Text, s: seq<Byte>, rest: Text)
    requires StringSpelled(t, s)
    ensures LexAll(LIMBO, t + rest) == After([Token(Str, JString(s))], LexAll(LIMBO, rest))
  {
    var body := t[1..|t| - 1];
    assert t + rest == [QUOTE] + (body + ([QUOTE] + rest));
    LexQuiet(LIMBO, QUOTE, body + ([QUOTE] + rest));
    BodyLexed(body, s, [], [QUOTE] + rest);
    SpelledScans(body, s);
    LowBytesOfBytes(s);
    StoredNulFree(EMPTY, s);
    assert EMPTY.str + s == s && [] + body == body;
    var l := Lexer(InString, body);
    assert Tokenize(l) == Token(Str, JString(s));
    assert ([QUOTE] + rest)[1..] == rest;
    assert LexByte(l, QUOTE) == Lexed(LIMBO, [Tokenize(l)], true);
  }

  lemma LowBytesOfBytes(s: seq<Byte>)
    ensures LowBytes(s) == s
  {
  }

  /** The spelling of a string passes through the string states into the buffer. */
  lemma {:induction false} BodyLexed(t: Text, s: seq<nat>, buf: Text, rest: Text)
    requires Spells(t, s)
    ensures LexAll(Lexer(InString, buf), t + rest) == LexAll(Lexer(InString, buf + t), rest)
    decreases |s|
  {
    hide LexAll, SpellsOne;
    if s == [] {
      assert t + rest == rest && buf + t == buf;
    } else {
      var n :| 0 < n <= |t| && SpellsOne(t[..n], s[0]) && Spells(t[n..], s[1..]);
      var u, more := t[..n], t[n..];
      assert t == u + more && t + rest == u + (more + rest);
      OneLexed(u, s[0], buf, more + rest);
      BodyLexed(more, s[1..], buf + u, rest);
      assert buf + u + more == buf + t;
    }
  }

  lemma OneLexed(u: Text, code: nat, buf: Text, rest: Text)
    requires SpellsOne(u, code)
    ensures LexAll(Lexer(InString, buf), u + rest) == LexAll(Lexer(InString, buf + u), rest)
  {
    hide LexAll;
    assert u + rest == [u[0]] + (u[1..] + rest);
    LexQuiet(Lexer(InString, buf), u[0], u[1..] + rest);
    if |u| == 1 {
      assert u[1..] + rest == rest && [u[0]] == u;
    } else {
      assert u[1..] + rest == [u[1]] + (u[2..] + rest);
      LexQuiet(Lexer(InEscape, buf + [u[0]]), u[1], u[2..] + rest);
      assert buf + [u[0]] + [u[1]] == buf + u[..2];
      if |u| == 2 {
        assert u[2..] + rest == rest && u[..2] == u;
      } else {
        LexFour(u[2..], buf + u[..2], rest);
        assert buf + u[..2] + u[2..] == buf + u;
      }
    }
  }

  lemma ReadsWord(t: Text, tok: Token, rest: Text)
    requires WordSpelled(t, tok) && (tok.sym == Num ==> ReadableNumber(tok.val))
    requires rest != [] && Delimiter(rest[0])
    ensures LexAll(LIMBO, t + rest) == After([tok], LexAll(LIMBO, rest))
  {
    if tok.sym == Str {
      ReadsString(t, tok.val.s, rest);
    } else if tok.sym == Num {
      ReadsNumber(t, tok.val, rest);
    } else {
      NameIs(t, tok);
      LexKeyword(tok.val, t, rest);
    }
  }

  lemma NameIs(t: Text, tok: Token)
    requires WordSpelled(t, tok) && tok.sym == Ident
    ensures tok == Token(Ident, tok.val) && (tok.val.JNull? || tok.val.JBool?)
    ensures t == if tok.val.JNull? then NULL_TEXT else if tok.val.b then TRUE_TEXT else FALSE_TEXT
  {
    assert Ascii("null") == NULL_TEXT && Ascii("true") == TRUE_TEXT && Ascii("false") == FALSE_TEXT;
  }

  /** All numbers in it can be read. */
  predicate Readable(p: Phrase) {
    match p
    case Word(tok) => tok.sym == Num ==> ReadableNumber(tok.val)
    case List(items) => forall i {:trigger items[i]} :: 0 <= i < |items| ==> Readable(items[i])
    case Record(entries) => forall i {:trigger entries[i]} :: 0 <= i < |entries| ==> Readable(entries[i].value)
  }

  lemma BlankSpaces(t: Text)
    requires Blank(t)
    ensures forall i :: 0 <= i < |t| ==> IsSpace(t[i])
  {
  }

  lemma BlankDelimits(t: Text, rest: Text)
    requires Blank(t) && rest != [] && Delimiter(rest[0])
    ensures t + rest != [] && Delimiter((t + rest)[0])
  {
    assert t != [] ==> (t + rest)[0] == t[0];
    assert t == [] ==> t + rest == rest;
  }

  lemma {:induction false} ReadsPadded(t: Text, p: Phrase, rest: Text)
    requires Padded(t, p) && Readable(p) && (p.Word? ==> rest != [] && Delimiter(rest[0]))
    ensures LexAll(LIMBO, t + rest) == After(Words(p), LexAll(LIMBO, rest))
    decreases p, 1
  {
    hide *;
    var a, b := PaddedCut(t, p);
    assert t + rest == t[..a] + (t[a..b] + (t[b..] + rest));
    BlankSpaces(t[..a]);
    BlankSpaces(t[b..]);
    LexSpaces(t[..a], t[a..b] + (t[b..] + rest));
    LexSpaces(t[b..], rest);
    if p.Word? { BlankDelimits(t[b..], rest); }
    ReadsValue(t[a..b], p, t[b..] + rest);
  }

  lemma PaddedCut(t: Text, p: Phrase) returns (a: nat, b: nat)
    requires Padded(t, p)
    ensures a <= b <= |t| && Blank(t[..a]) && ValueSpelled(t[a..b], p) && Blank(t[b..])
  {
    hide Blank, ValueSpelled;
    a, b :| 0 <= a <= b <= |t| && Blank(t[..a]) && ValueSpelled(t[a..b], p) && Blank(t[b..]);
  }

  lemma {:induction false} ReadsValue(t: Text, p: Phrase, rest: Text)
    requires ValueSpelled(t, p) && Readable(p) && (p.Word? ==> rest != [] && Delimiter(rest[0]))
    ensures LexAll(LIMBO, t + rest) == After(Words(p), LexAll(LIMBO, rest))
    decreases p, 0
  {
    hide *;
    if p.Word? {
      WordCut(t, p, rest);
    } else {
      var body := BracketCut(t, p);
      var last := [Shut(p)] + rest;
      assert t + rest == [Open(p)] + (body + last);
      BracketLexed(p, body + last, rest);
      if p == List([]) || p == Record([]) {
        BlankSpaces(body);
        LexSpaces(body, last);
      } else if p.List? {
        ReadsItems(body, p.items, last);
      } else {
        ReadsEntries(body, p.entries, last);
      }
      BracketsAround(p, rest);
    }
  }

  lemma WordCut(t: Text, p: Phrase, rest: Text)
    requires p.Word? && ValueSpelled(t, p) && Readable(p) && rest != [] && Delimiter(rest[0])
    ensures LexAll(LIMBO, t + rest) == After(Words(p), LexAll(LIMBO, rest))
  {
    hide LexAll, Delimiter;
    ReadsWord(t, p.tok, rest);
  }

  function Open(p: Phrase): Byte {
    if p.List? then LBRACKET else LBRACE
  }

  function Shut(p: Phrase): Byte {
    if p.List? then RBRACKET else RBRACE
  }

  function OpenMark(p: Phrase): Token {
    if p.List? then Mark(BeginArray) else Mark(BeginObject)
  }

  function ShutMark(p: Phrase): Token {
    if p.List? then Mark(EndArray) else Mark(EndObject)
  }

  /** What stands between the brackets. */
  function Inside(p: Phrase): seq<Token>
    requires !p.Word?
  {
    if p.List? then ItemWords(p.items) else EntryWords(p.entries)
  }

  lemma BracketCut(t: Text, p: Phrase) returns (body: Text)
    requires !p.Word? && ValueSpelled(t, p)
    ensures t == [Open(p)] + body + [Shut(p)]
    ensures p == List([]) || p == Record([]) ==> Blank(body)
    ensures p.List? && p != List([]) ==> ItemsSpelled(body, p.items)
    ensures p.Record? && p != Record([]) ==> EntriesSpelled(body, p.entries)
  {
    hide ItemsSpelled, EntriesSpelled, Blank;
    body := t[1..|t| - 1];
  }

  lemma BracketLexed(p: Phrase, after: Text, rest: Text)
    requires !p.Word?
    ensures LexAll(LIMBO, [Open(p)] + after) == After([OpenMark(p)], LexAll(LIMBO, after))
    ensures LexAll(LIMBO, [Shut(p)] + rest) == After([ShutMark(p)], LexAll(LIMBO, rest))
    ensures Delimiter(([Shut(p)] + rest)[0])
  {
    LexPunctuation(Open(p), after);
    LexPunctuation(Shut(p), rest);
  }

  lemma BracketsAround(p: Phrase, rest: Text)
    requires !p.Word?
    ensures var inner := After([ShutMark(p)], LexAll(LIMBO, rest));
      && After([OpenMark(p)], After(Inside(p), inner)) == After(Words(p), LexAll(LIMBO, rest))
      && (p == List([]) || p == Record([]) ==> After(Inside(p), inner) == inner)
      && (p.List? ==> Inside(p) == ItemWords(p.items)) && (p.Record? ==> Inside(p) == EntryWords(p.entries))
  {
    hide LexAll;
    AfterTwice(Inside(p), [ShutMark(p)], LexAll(LIMBO, rest));
    AfterTwice([OpenMark(p)], Inside(p) + [ShutMark(p)], LexAll(LIMBO, rest));
    AfterNone(After([ShutMark(p)], LexAll(LIMBO, rest)));
    assert [OpenMark(p)] + (Inside(p) + [ShutMark(p)]) == Words(p);
  }

  lemma {:induction false} ReadsItems(t: Text, items: seq<Phrase>, rest: Text)
    requires items != [] && ItemsSpelled(t, items) && Readable(List(items)) && rest != [] && Delimiter(rest[0])
    ensures LexAll(LIMBO, t + rest) == After(ItemWords(items), LexAll(LIMBO, rest))
    decreases items, 0
  {
    hide *;
    var n := ItemsCut(t, items);
    ReadableItems(items);
    if |items| == 1 {
      ReadsPadded(t, items[0], rest);
    } else {
      var after := t[n + 1..] + rest;
      assert t + rest == t[..n] + ([COMMA] + after);
      CommaLexed(after);
      ReadsPadded(t[..n], items[0], [COMMA] + after);
      ReadsItems(t[n + 1..], items[1..], rest);
      CommaBetween(items, Words(items[0]), ItemWords(items[1..]), rest);
    }
  }

  lemma ItemsCut(t: Text, items: seq<Phrase>) returns (n: nat)
    requires items != [] && ItemsSpelled(t, items)
    ensures |items| == 1 ==> Padded(t, items[0]) && ItemWords(items) == Words(items[0])
    ensures |items| > 1 ==>
      && n < |t| && t[n] == COMMA != 0 && Padded(t[..n], items[0]) && ItemsSpelled(t[n + 1..], items[1..])
      && ItemWords(items) == Words(items[0]) + Comma(|items|) + ItemWords(items[1..])
  {
    hide Padded, Words;
    n := 0;
    if |items| > 1 {
      n :| 0 <= n < |t| && t[n] == COMMA && Padded(t[..n], items[0]) && ItemsSpelled(t[n + 1..], items[1..]);
    } else {
      OnlyOne(items, Words(items[0]));
    }
  }

  lemma ReadableItems(items: seq<Phrase>)
    requires items != [] && Readable(List(items))
    ensures Readable(items[0]) && Readable(List(items[1..]))
  {
  }

  lemma ReadableEntries(entries: seq<Entry>)
    requires entries != [] && Readable(Record(entries))
    ensures Readable(entries[0].value) && Readable(Record(entries[1..]))
  {
  }

  lemma CommaLexed(after: Text)
    ensures LexAll(LIMBO, [COMMA] + after) == After([Token(ValueSep, JNull)], LexAll(LIMBO, after))
    ensures Delimiter(([COMMA] + after)[0])
  {
    LexPunctuation(COMMA, after);
  }

  lemma OnlyOne(items: seq<Phrase>, words: seq<Token>)
    requires |items| == 1
    ensures words + Comma(|items|) + ItemWords(items[1..]) == words
  {
  }

  lemma CommaBetween<T>(items: seq<T>, words: seq<Token>, more: seq<Token>, rest: Text)
    requires |items| > 1
    ensures After(words, After([Token(ValueSep, JNull)], After(more, LexAll(LIMBO, rest)))) ==
            After(words + Comma(|items|) + more, LexAll(LIMBO, rest))
  {
    hide LexAll;
    AfterTwice([Mark(ValueSep)], more, LexAll(LIMBO, rest));
    AfterTwice(words, [Mark(ValueSep)] + more, LexAll(LIMBO, rest));
    assert words + ([Mark(ValueSep)] + more) == words + Comma(|items|) + more;
  }

  lemma {:induction false} ReadsEntry(t: Text, entry: Entry, rest: Text)
    requires EntrySpelled(t, entry) && Readable(entry.value) && rest != [] && Delimiter(rest[0])
    ensures LexAll(LIMBO, t + rest) ==
            After([Token(Str, JString(entry.key)), Mark(NameSep)] + Words(entry.value), LexAll(LIMBO, rest))
    decreases entry, 0
  {
    hide *;
    var a, b, c := EntryCut(t, entry);
    var value := t[c + 1..] + rest;
    assert t + rest == t[..a] + (t[a..b] + (t[b..c] + ([COLON] + value)));
    BlankSpaces(t[..a]);
    BlankSpaces(t[b..c]);
    LexSpaces(t[..a], t[a..b] + (t[b..c] + ([COLON] + value)));
    LexSpaces(t[b..c], [COLON] + value);
    ReadsString(t[a..b], entry.key, t[b..c] + ([COLON] + value));
    ReadsPadded(t[c + 1..], entry.value, rest);
    ColonBetween(Token(Str, JString(entry.key)), Words(entry.value), value, rest);
  }

  lemma EntryCut(t: Text, entry: Entry) returns (a: nat, b: nat, c: nat)
    requires EntrySpelled(t, entry)
    ensures a <= b <= c < |t| && Blank(t[..a]) && StringSpelled(t[a..b], entry.key) && Blank(t[b..c])
    ensures t[c] == COLON != 0 && Padded(t[c + 1..], entry.value)
  {
    hide Blank, StringSpelled, Padded;
    a, b, c :|
      && 0 <= a <= b <= c < |t| && Blank(t[..a]) && StringSpelled(t[a..b], entry.key) && Blank(t[b..c])
      && t[c] == COLON && Padded(t[c + 1..], entry.value);
  }

  lemma ColonBetween(key: Token, words: seq<Token>, value: Text, rest: Text)
    ensures LexAll(LIMBO, [COLON] + value) == After([Token(NameSep, JNull)], LexAll(LIMBO, value))
    ensures After([key], After([Token(NameSep, JNull)], After(words, LexAll(LIMBO, rest)))) ==
            After([key, Mark(NameSep)] + words, LexAll(LIMBO, rest))
  {
    LexPunctuation(COLON, value);
    hide LexAll;
    AfterTwice([Mark(NameSep)], words, LexAll(LIMBO, rest));
    AfterTwice([key], [Mark(NameSep)] + words, LexAll(LIMBO, rest));
    assert [key] + ([Mark(NameSep)] + words) == [key, Mark(NameSep)] + words;
  }

  lemma {:induction false} ReadsEntries(t: Text, entries: seq<Entry>, rest: Text)
    requires entries != [] && EntriesSpelled(t, entries)
    requires Readable(Record(entries)) && rest != [] && Delimiter(rest[0])
    ensures LexAll(LIMBO, t + rest) == After(EntryWords(entries), LexAll(LIMBO, rest))
    decreases entries, 0
  {
    hide *;
    var n := EntriesCut(t, entries);
    ReadableEntries(entries);
    var words := [Token(Str, JString(entries[0].key)), Mark(NameSep)] + Words(entries[0].value);
    if |entries| == 1 {
      ReadsEntry(t, entries[0], rest);
    } else {
      var after := t[n + 1..] + rest;
      assert t + rest == t[..n] + ([COMMA] + after);
      CommaLexed(after);
      ReadsEntry(t[..n], entries[0], [COMMA] + after);
      ReadsEntries(t[n + 1..], entries[1..], rest);
      CommaBetween(entries, words, EntryWords(entries[1..]), rest);
    }
  }

  lemma EntriesCut(t: Text, entries: seq<Entry>) returns (n: nat)
    requires entries != [] && EntriesSpelled(t, entries)
    ensures var words := [Token(Str, JString(entries[0].key)), Mark(NameSep)] + Words(entries[0].value);
      && (|entries| == 1 ==> EntrySpelled(t, entries[0]) && EntryWords(entries) == words)
      && (|entries| > 1 ==>
        && n < |t| && t[n] == COMMA != 0 && EntrySpelled(t[..n], entries[0])
        && EntriesSpelled(t[n + 1..], entries[1..])
        && EntryWords(entries) == words + Comma(|entries|) + EntryWords(entries[1..]))
  {
    hide EntrySpelled, Words;
    n := 0;
    if |entries| > 1 {
      n :| 0 <= n < |t| && t[n] == COMMA && EntrySpelled(t[..n], entries[0])
        && EntriesSpelled(t[n + 1..], entries[1..]);
    } else {
      OnlyOneEntry(entries, [Token(Str, JString(entries[0].key)), Mark(NameSep)] + Words(entries[0].value));
    }
  }

  lemma OnlyOneEntry(entries: seq<Entry>, words: seq<Token>)
    requires |entries| == 1
    ensures words + Comma(|entries|) + EntryWords(entries[1..]) == words
  {
  }

  // A spelling has no NUL bytes, and its words are well formed.

  lemma NoNulConcat(a: Text, b: Text)
    requires 0 !in a && 0 !in b
    ensures 0 !in a + b
  {
  }

  lemma {:induction false} SpellsNoNul(t: Text, s: seq<nat>)
    requires Spells(t, s) && 0 !in s
    ensures 0 !in t
    decreases |s|
  {
    if s != [] {
      var n :| 0 < n <= |t| && SpellsOne(t[..n], s[0]) && Spells(t[n..], s[1..]);
      SpellsNoNul(t[n..], s[1..]);
      OneNoNul(t[..n], s[0]);
      NoNulConcat(t[..n], t[n..]);
      assert t == t[..n] + t[n..];
    }
  }

  lemma OneNoNul(u: Text, code: nat)
    requires SpellsOne(u, code) && code != 0
    ensures 0 !in u
  {
  }

  lemma StringNoNul(t: Text, s: seq<Byte>)
    requires StringSpelled(t, s)
    ensures 0 !in t
  {
    var body := t[1..|t| - 1];
    SpellsNoNul(body, s);
    assert t == [QUOTE] + body + [QUOTE];
  }

  lemma WordFormed(t: Text, tok: Token)
    requires WordSpelled(t, tok)
    ensures WellFormed(Word(tok)) && 0 !in t
  {
    if tok.sym == Str {
      StringNoNul(t, tok.val.s);
    } else if tok.sym == Num {
      NumberChars(t, tok.val);
    } else {
      NameIs(t, tok);
    }
  }

  lemma {:induction false} ValueFormed(t: Text, p: Phrase)
    requires ValueSpelled(t, p)
    ensures WellFormed(p) && 0 !in t
    decreases p, 0
  {
    if p.Word? {
      WordFormed(t, p.tok);
    } else {
      var body := t[1..|t| - 1];
      assert t == [t[0]] + body + [t[|t| - 1]];
      if p.List? && p.items != [] {
        ItemsFormed(body, p.items);
      } else if p.Record? && p.entries != [] {
        EntriesFormed(body, p.entries);
      }
    }
  }

  lemma {:induction false} PaddedFormed(t: Text, p: Phrase)
    requires Padded(t, p)
    ensures WellFormed(p) && 0 !in t
    decreases p, 1
  {
    hide *;
    var a, b := PaddedCut(t, p);
    ValueFormed(t[a..b], p);
    BlankNoNul(t[..a]);
    BlankNoNul(t[b..]);
    NoNulConcat(t[..a], t[a..b]);
    NoNulConcat(t[..a] + t[a..b], t[b..]);
    assert t == t[..a] + t[a..b] + t[b..];
  }

  lemma BlankNoNul(t: Text)
    requires Blank(t)
    ensures 0 !in t
  {
  }

  /** Two parts and a separator between them. */
  lemma NoNulAround(t: Text, n: nat)
    requires n < |t| && t[n] != 0 && 0 !in t[..n] && 0 !in t[n + 1..]
    ensures 0 !in t
  {
    assert t == t[..n] + [t[n]] + t[n + 1..];
  }

  lemma {:induction false} ItemsFormed(t: Text, items: seq<Phrase>)
    requires items != [] && ItemsSpelled(t, items)
    ensures WellFormed(List(items)) && 0 !in t
    decreases items, 0
  {
    hide *;
    var n := ItemsCut(t, items);
    if |items| == 1 {
      PaddedFormed(t, items[0]);
    } else {
      PaddedFormed(t[..n], items[0]);
      ItemsFormed(t[n + 1..], items[1..]);
      NoNulAround(t, n);
    }
    AllFormed(items);
  }

  lemma AllFormed(items: seq<Phrase>)
    requires items != [] && WellFormed(items[0]) && (|items| > 1 ==> WellFormed(List(items[1..])))
    ensures WellFormed(List(items))
  {
    assert forall i {:trigger items[i]} :: 1 <= i < |items| ==> items[i] == items[1..][i - 1];
  }

  lemma {:induction false} EntryFormed(t: Text, entry: Entry)
    requires EntrySpelled(t, entry)
    ensures WellFormed(entry.value) && 0 !in t
    decreases entry, 0
  {
    hide *;
    var a, b, c := EntryCut(t, entry);
    StringNoNul(t[a..b], entry.key);
    PaddedFormed(t[c + 1..], entry.value);
    BlankNoNul(t[..a]);
    BlankNoNul(t[b..c]);
    NoNulConcat(t[..a], t[a..b]);
    NoNulConcat(t[..a] + t[a..b], t[b..c]);
    assert t[..c] == t[..a] + t[a..b] + t[b..c];
    NoNulAround(t, c);
  }

  lemma {:induction false} EntriesFormed(t: Text, entries: seq<Entry>)
    requires entries != [] && EntriesSpelled(t, entries)
    ensures WellFormed(Record(entries)) && 0 !in t
    decreases entries, 0
  {
    hide *;
    var n := EntriesCut(t, entries);
    if |entries| == 1 {
      EntryFormed(t, entries[0]);
    } else {
      EntryFormed(t[..n], entries[0]);
      EntriesFormed(t[n + 1..], entries[1..]);
      NoNulAround(t, n);
    }
    AllEntriesFormed(entries);
  }

  lemma AllEntriesFormed(entries: seq<Entry>)
    requires entries != [] && WellFormed(entries[0].value) && (|entries| > 1 ==> WellFormed(Record(entries[1..])))
    ensures WellFormed(Record(entries))
  {
    assert forall i {:trigger entries[i]} :: 1 <= i < |entries| ==> entries[i] == entries[1..][i - 1];
  }

  // ----- reading a whole text -----

  lemma DocumentLexed(t: Text, p: Phrase)
    requires DocumentSpelled(t, p) && Readable(p)
    ensures LexAll(LIMBO, t) == Lexed(LIMBO, Words(p), true)
  {
    ReadsPadded(t, p, []);
    hide Readable, Padded;
    assert t + [] == t && LexAll(LIMBO, []) == Lexed(LIMBO, [], true);
    assert Words(p) + [] == Words(p);
  }

  /**
    Every spelling of a document, split in any way, is read as what it means,
    without an error, whatever size the string of the lexer has grown to.
   */
  lemma ReadsEverySpelling(t: Text, p: Phrase, chunks: seq<Text>, multidoc: bool, size: nat)
    requires DocumentSpelled(t, p) && Readable(p) && size >= INITIAL_SIZE && Joined(chunks) == t
    ensures ReadChunks(Reader(Fresh(multidoc), size), chunks).p ==
            Fresh(multidoc).(out := [Meaning(p)], conf := if multidoc then START else Conf([], []))
  {
    PaddedFormed(t, p);
    DocumentLexed(t, p);
    var tree := PhraseDerives(p);
    hide DocumentSpelled, Padded, Readable, WellFormed, ReadData, ReadChunks, LexAll, Words;
    var f := Fresh(multidoc);
    ReadAnywhere(Reader(f, size), chunks);
    ReadNulFree(Reader(f, size), t);
    DocumentDone(f, tree);
    ParsesWhatIsLexed(f, t);
  }

  /** Also as a C string, in which no NUL byte ends it early. */
  lemma ReadsAsString(t: Text, p: Phrase, size: nat)
    requires DocumentSpelled(t, p) && Readable(p) && size >= INITIAL_SIZE
    ensures CString(t) == t
    ensures var q := ReadData(Reader(Fresh(false), size), CString(t)).p; !q.error && q.out == [Meaning(p)]
  {
    PaddedFormed(t, p);
    NulFreeCString(t);
    var chunks: seq<Text> := [t];
    assert chunks[1..] == [] && Joined(chunks) == t + Joined(chunks[1..]) == t;
    ReadsEverySpelling(t, p, chunks, false, size);
    ReadAnywhere(Reader(Fresh(false), size), chunks);
  }

  lemma {:induction false} NulFreeCString(t: Text)
    requires 0 !in t
    ensures CString(t) == t
  {
    if t != [] {
      NulFreeCString(t[1..]);
      assert t == [t[0]] + t[1..];
    }
  }

  // ----- what else is accepted -----

  /** The lexer's brackets, colons and commas carry no value. */
  lemma {:induction false} LexedPlain(l: Lexer, t: Text)
    ensures Plain(LexAll(l, t).toks) && TokensOk(LexAll(l, t).toks)
    decreases |t|
  {
    if t != [] {
      BytePlain(l, t[0]);
      var r := LexByte(l, t[0]);
      hide LexByte;
      if r.ok {
        LexedPlain(r.next, t[1..]);
        assert LexAll(l, t).toks == r.toks + LexAll(r.next, t[1..]).toks;
      }
    }
  }

  lemma {:induction false} BytePlain(l: Lexer, c: Byte)
    ensures Plain(LexByte(l, c).toks) && TokensOk(LexByte(l, c).toks)
    decreases Turns(l, c)
  {
    var s := LexChar(l, c);
    assert Plain(s.toks) && TokensOk(s.toks);
    hide LexChar;
    if s.again {
      BytePlain(s.next, c);
      assert LexByte(l, c).toks == s.toks + LexByte(s.next, c).toks;
    }
  }

  /** A text gives a document and no error exactly if its tokens are a phrase in brackets. */
  lemma TextIsPhrase(t: Text)
    requires LexAll(LIMBO, t).ok
    ensures var toks := LexAll(LIMBO, t).toks; var q := ParseTokens(Fresh(false), toks);
            !q.error && q.out != [] <==> exists p {:trigger Words(p)} :: WellFormed(p) && !p.Word? && Words(p) == toks
  {
    LexedPlain(LIMBO, t);
    hide LexAll, Plain, TokensOk, WellFormed, Words;
    ParserIsExact(LexAll(LIMBO, t).toks);
    DocumentsArePhrases(LexAll(LIMBO, t).toks);
  }

  // ----- numbers that cannot be read, in a document -----

  lemma {:induction false} NotLexed(p: Parser, data: Text)
    requires !p.error && !LexAll(p.lexer, data).ok
    ensures ParseData(p, data).error
    decreases |data|
  {
    hide LexByte;
    var q := ParseByte(p, data[0]);
    if LexByte(p.lexer, data[0]).ok && !q.error {
      assert q.lexer == LexByte(p.lexer, data[0]).next;
      NotLexed(q, data[1..]);
    }
  }

  /** A number with a plus sign is refused. */
  lemma PlusInDocument()
    ensures ParseData(Fresh(false), Ascii("[1e+5]")).error
  {
    var a, more := Ascii("1e"), Ascii("5]");
    assert Ascii("[1e+5]") == [LBRACKET] + (a + ([PLUS] + more));
    LexPunctuation(LBRACKET, a + ([PLUS] + more));
    PlusRefused(a, more);
    hide LexAll, ParseData;
    NotLexed(Fresh(false), Ascii("[1e+5]"));
  }

  /** 1E5 is read as 1. */
  lemma CapitalInDocument()
    ensures ParseData(Fresh(false), Ascii("[1E5]")).out == [JArray([JInt(1)])]
  {
    var word: Text := Ascii("1E5");
    assert Ascii("[1E5]") == [LBRACKET] + word + [RBRACKET];
    CapitalToken();
    hide LexAll, Tokenize;
    LexWord(InNumber, word, [RBRACKET]);
    OneItem(word, Token(Num, JInt(1)));
  }

  lemma CapitalToken()
    ensures Tokenize(Lexer(InNumber, Ascii("1E5"))) == Token(Num, JInt(1))
  {
    var w := Ascii("1E5");
    assert w[0] == 0x31 && w[1..][0] == 0x45;
    assert Accumulate(w[1..], 10, 1) == 1;
    assert Accumulate(w, 10, 0) == 1;
  }

  /** What is read as one token makes an array of one element. */
  lemma OneItem(word: Text, tok: Token)
    requires TokenOk(tok) && Scalar(tok.sym)
    requires LexAll(LIMBO, word + [RBRACKET]) == After([tok], LexAll(LIMBO, [RBRACKET]))
    ensures ParseData(Fresh(false), [LBRACKET] + word + [RBRACKET]).out == [JArray([tok.val])]
  {
    hide *;
    var f, t, v := Fresh(false), [LBRACKET] + word + [RBRACKET], JArray([tok.val]);
    OneItemLexed(word, tok);
    var tree := OneItemTree(tok);
    FreshIs();
    DocumentDone(f, tree);
    ParsesWhatIsLexed(f, t);
    assert [] + [v] == [v];
  }

  lemma FreshIs()
    ensures !Fresh(false).error && Fresh(false).conf == START
    ensures Fresh(false).lexer == LIMBO && Fresh(false).out == []
  {
  }

  lemma OneItemTree(tok: Token) returns (t: Tree)
    requires TokenOk(tok) && Scalar(tok.sym)
    ensures Derivation(t) && Root(t).Document? && ValueOf(t) == JArray([tok.val])
    ensures Yield(t) == [Mark(BeginArray), tok, Mark(EndArray)]
  {
    var p := List([Word(tok)]);
    assert p.items[1..] == [] && ItemWords(p.items) == [tok] && Meanings(p.items) == [tok.val];
    assert WellFormed(Word(tok)) && WellFormed(p);
    assert Words(p) == [Mark(BeginArray)] + ItemWords(p.items) + [Mark(EndArray)];
    t := PhraseDerives(p);
  }

  lemma OneItemLexed(word: Text, tok: Token)
    requires LexAll(LIMBO, word + [RBRACKET]) == After([tok], LexAll(LIMBO, [RBRACKET]))
    ensures LexAll(LIMBO, [LBRACKET] + word + [RBRACKET]) ==
            Lexed(LIMBO, [Mark(BeginArray), tok, Mark(EndArray)], true)
  {
    assert [LBRACKET] + word + [RBRACKET] == [LBRACKET] + (word + [RBRACKET]);
    LexPunctuation(LBRACKET, word + [RBRACKET]);
    assert [RBRACKET] + [] == [RBRACKET];
    LexPunctuation(RBRACKET, []);
    assert LexAll(LIMBO, []) == Lexed(LIMBO, [], true);
  }

  /** The failing input for integers: [4294967296] is read as [0]. */
  lemma WideInDocument()
    ensures ParseData(Fresh(false), [LBRACKET] + Digits(0x1_0000_0000) + [RBRACKET]).out == [JArray([JInt(0)])]
    ensures WholeNumber(Digits(0x1_0000_0000)) && Numeral(Digits(0x1_0000_0000)) == 4294967296
  {
    hide *;
    var word := Digits(0x1_0000_0000);
    WholeDigits(0x1_0000_0000);
    var i := WholeRead([], word, [RBRACKET]);
    assert i == 0;
    assert [] + word + [RBRACKET] == word + [RBRACKET];
    OneItem(word, Token(Num, JInt(i)));
  }

  lemma WholeDigits(n: nat)
    requires n > 0
    ensures WholeNumber(Digits(n)) && Numeral(Digits(n)) == n && Delimiter(RBRACKET)
    ensures LONG_MAX == 0x7FFF_FFFF_FFFF_FFFF && TokenOk(Token(Num, JInt(0))) && Scalar(Num)
  {
    DigitsRead(n);
    AccumulatesNumeral(Digits(n));
  }

  // ----- what is no JSON and read all the same -----

  /** A word is read as what it spells exactly if it is one of the three names. */
  lemma WordsExactly(w: Text, rest: Text)
    requires w != [] && forall i :: 0 <= i < |w| ==> IsAlpha(w[i])
    requires rest != [] && Delimiter(rest[0])
    ensures w == Ascii("null") || w == Ascii("true") || w == Ascii("false") <==>
            exists tok :: WordSpelled(w, tok) && LexAll(LIMBO, w + rest) == After([tok], LexAll(LIMBO, rest))
    ensures w != Ascii("null") && w != Ascii("true") && w != Ascii("false") ==>
            LexAll(LIMBO, w + rest) == After([Token(Ident, JNull)], LexAll(LIMBO, rest))
  {
    NamesAre();
    var tok := Tokenize(Lexer(InIdentifier, w));
    hide LexAll, IsAlpha, Delimiter, Ascii, StringSpelled, NumberSpelled;
    LexWord(InIdentifier, w, rest);
    if w == Ascii("null") || w == Ascii("true") || w == Ascii("false") {
      assert WordSpelled(w, tok);
    }
    forall t' | LexAll(LIMBO, w + rest) == After([t'], LexAll(LIMBO, rest)) ensures t' == tok {
      SameToken(t', tok, LexAll(LIMBO, rest));
    }
  }

  lemma SameToken(t: Token, u: Token, r: Lexed)
    requires After([t], r) == After([u], r)
    ensures t == u
  {
    assert After([t], r).toks[0] == t && After([u], r).toks[0] == u;
  }

  lemma NamesAre()
    ensures Ascii("null") == NULL_TEXT && Ascii("true") == TRUE_TEXT && Ascii("false") == FALSE_TEXT
  {
  }

  /** The failing input: [nul] is read as [null]. */
  lemma AnyWordInDocument()
    ensures ParseData(Fresh(false), Ascii("[nul]")).out == [JArray([JNull])]
  {
    var word: Text := Ascii("nul");
    assert Ascii("[nul]") == [LBRACKET] + word + [RBRACKET];
    assert word != Ascii("null") && word != Ascii("true") && word != Ascii("false");
    hide LexAll;
    WordsExactly(word, [RBRACKET]);
    OneItem(word, Token(Ident, JNull));
  }

  /** An escape that is none is left out. */
  lemma OtherEscape(c: Byte, rest: Text)
    requires c != 'u' as int && forall code :: !ShortSpelling(c, code)
    ensures Scan([BACKSLASH, c] + rest) == Scan(rest)
  {
    assert !ShortSpelling(c, c) && !ShortSpelling(c, 0x08) && !ShortSpelling(c, 0x0C);
    assert !ShortSpelling(c, 0x0A) && !ShortSpelling(c, 0x0D) && !ShortSpelling(c, 0x09);
    assert ([BACKSLASH, c] + rest)[2..] == rest;
  }

  /** Between tokens nothing is skipped but white space, and every other token starts as in JSON, or with a point. */
  lemma Starts(c: Byte, rest: Text)
    ensures LexChar(LIMBO, c).ok <==>
            || (IsAlpha(c) || '0' as int <= c <= '9' as int)
            || c in Ascii("{}[]:,\"-. ") || 0x09 <= c <= 0x0D
    ensures LexAll(LIMBO, [c] + rest).ok ==> LexChar(LIMBO, c).ok
  {
    var a := Ascii("{}[]:,\"-. ");
    assert a[0] == 0x7B && a[1] == 0x7D && a[2] == 0x5B && a[3] == 0x5D && a[4] == 0x3A && a[5] == 0x2C;
    assert a[6] == 0x22 && a[7] == 0x2D && a[8] == 0x2E && a[9] == 0x20;
    assert ([c] + rest)[1..] == rest;
  }
}
