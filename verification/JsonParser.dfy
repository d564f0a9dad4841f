/**
  The parser as a state transformer: lexer, parsing loop, output queue and
  error flag together; and what it returns for serialized documents.
 */
module JsonParser {
  import opened Common
  import opened Keys
  import opened JsonValue
  import opened JsonGrammar
  import opened JsonMachine
  import opened JsonBuild
  import opened JsonStacks
  import opened JsonHeight
  import opened JsonText
  import opened JsonLexer
  import opened JsonRoundTrip

  datatype Parser = Parser(out: seq<Json>, error: bool, multidoc: bool, conf: Conf, lexer: Lexer)

  function Fresh(multidoc: bool): Parser {
    Parser([], false, multidoc, START, LIMBO)
  }

  /** A whole document has been read: its value is put out. */
  function Cycle(p: Parser): Parser {
    var b := p.conf.build;
    p.(out := if b == [] then p.out else p.out + [AsJson(b[0])],
       conf := Conf(if p.multidoc then [Document] else [], if b == [] then b else b[1..]))
  }

  /** One token; nothing happens after an error. */
  function ParseToken(p: Parser, tok: Token): Parser {
    if p.error then p
    else
      var o := Consume(p.conf, tok);
      if o.Stuck? then p.(conf := o.conf, error := true)
      else if o.conf.stack == [] then Cycle(p.(conf := o.conf))
      else p.(conf := o.conf)
  }

  function ParseTokens(p: Parser, toks: seq<Token>): (q: Parser)
    ensures q.lexer == p.lexer && q.multidoc == p.multidoc
    ensures p.error ==> q == p
    decreases |toks|
  {
    if toks == [] then p else ParseTokens(ParseToken(p, toks[0]), toks[1..])
  }

  function ParseByte(p: Parser, c: Byte): (q: Parser)
    ensures q.multidoc == p.multidoc
  {
    var r := LexByte(p.lexer, c);
    var q := ParseTokens(p.(lexer := r.next), r.toks);
    q.(error := q.error || !r.ok)
  }

  /** A buffer of input, up to the first error. */
  function ParseData(p: Parser, data: Text): (q: Parser)
    decreases |data|
  {
    if data == [] || p.error then p else ParseData(ParseByte(p, data[0]), data[1..])
  }

  /** Input arriving in pieces. */
  function ParseChunks(p: Parser, chunks: seq<Text>): Parser
    decreases |chunks|
  {
    if chunks == [] then p else ParseChunks(ParseData(p, chunks[0]), chunks[1..])
  }

  function Joined(chunks: seq<Text>): Text {
    if chunks == [] then [] else chunks[0] + Joined(chunks[1..])
  }

  // How the text is split does not matter.

  lemma {:induction false} ParseSplit(p: Parser, a: Text, b: Text)
    ensures ParseData(p, a + b) == ParseData(ParseData(p, a), b)
    decreases |a|
  {
    if a == [] {
      assert a + b == b;
    } else if !p.error {
      assert (a + b)[1..] == a[1..] + b;
      ParseSplit(ParseByte(p, a[0]), a[1..], b);
    }
  }

  lemma {:induction false} SplitAnywhere(p: Parser, chunks: seq<Text>)
    ensures ParseChunks(p, chunks) == ParseData(p, Joined(chunks))
    decreases |chunks|
  {
    if chunks != [] {
      ParseSplit(p, chunks[0], Joined(chunks[1..]));
      SplitAnywhere(ParseData(p, chunks[0]), chunks[1..]);
    }
  }

  // Tokens: the parser agrees with the bare machine.

  lemma {:induction false} ParseTokensTwice(p: Parser, a: seq<Token>, b: seq<Token>)
    ensures ParseTokens(p, a + b) == ParseTokens(ParseTokens(p, a), b)
    decreases |a|
  {
    if a == [] {
      assert a + b == b;
    } else {
      assert (a + b)[1..] == a[1..] + b;
      ParseTokensTwice(ParseToken(p, a[0]), a[1..], b);
    }
  }

  /** Until the machine empties its stack, the parser is the machine. */
  lemma {:induction false} ParsesLikeRun(p: Parser, toks: seq<Token>)
    requires !p.error && p.conf.stack != [] && Run(p.conf, toks).Some?
    ensures var c := Run(p.conf, toks).value;
            ParseTokens(p, toks) == if c.stack == [] then Cycle(p.(conf := c)) else p.(conf := c)
    decreases |toks|
  {
    hide Consume;
    if toks != [] {
      var d := Consume(p.conf, toks[0]).conf;
      if d.stack == [] {
        assert toks[1..] == [] by { NothingAfter(d, toks[1..]); }
      } else {
        ParsesLikeRun(p.(conf := d), toks[1..]);
      }
    }
  }

  lemma NothingAfter(d: Conf, toks: seq<Token>)
    requires d.stack == [] && Run(d, toks).Some?
    ensures toks == []
  {
  }

  /** An error is raised exactly where the machine gets stuck. */
  lemma {:induction false} ErrorIsStuck(p: Parser, toks: seq<Token>)
    requires !p.error && !p.multidoc && (p.conf.stack == [] ==> p.conf.build == [])
    ensures ParseTokens(p, toks).error <==> Run(p.conf, toks).None?
    decreases |toks|
  {
    hide Consume;
    if toks != [] {
      var o := Consume(p.conf, toks[0]);
      if o.Matched? {
        if o.conf.stack == [] {
          var q := Cycle(p.(conf := o.conf));
          if toks[1..] != [] {
            StuckAtOnce(q, toks[1..]);
            StuckAtOnce(p.(conf := o.conf), toks[1..]);
          }
        } else {
          ErrorIsStuck(p.(conf := o.conf), toks[1..]);
        }
      }
    }
  }

  lemma StuckAtOnce(p: Parser, toks: seq<Token>)
    requires !p.error && p.conf.stack == [] && toks != []
    ensures ParseTokens(p, toks).error && Run(p.conf, toks).None?
  {
  }

  /** A document of the grammar yields its value, and the parser is ready for the next one if there may be one. */
  lemma DocumentDone(p: Parser, t: Tree)
    requires !p.error && p.conf == START && Derivation(t) && Root(t).Document?
    ensures ParseTokens(p, Yield(t)) ==
            p.(out := p.out + [ValueOf(t)], conf := if p.multidoc then START else Conf([], []))
  {
    AcceptsDerived(t, Yield(t));
    ParsesLikeRun(p, Yield(t));
    var v := [Val(ValueOf(t))];
    assert v[1..] == [];
  }

  /** Exactly the documents produce an output without an error. */
  lemma ParserIsExact(toks: seq<Token>)
    requires TokensOk(toks)
    ensures var p := ParseTokens(Fresh(false), toks);
            && (!p.error && p.out != [] <==> IsDocument(toks))
            && (!p.error <==>
              exists more {:trigger IsDocument(toks + more)} :: TokensOk(more) && IsDocument(toks + more))
  {
    hide IsDocument;
    var p := Fresh(false);
    ErrorIsStuck(p, toks);
    RefusesEarly(toks);
    AcceptsExactly(toks);
    if Run(p.conf, toks).Some? {
      ParsesLikeRun(p, toks);
      RunMirrors(START, toks);
    }
  }

  /** Every accepted run ends in coupled stacks. */
  lemma {:induction false} RunMirrors(c: Conf, toks: seq<Token>)
    requires Mirror(c.stack, c.build) && TokensOk(toks) && Run(c, toks).Some?
    ensures Mirror(Run(c, toks).value.stack, Run(c, toks).value.build)
    decreases |toks|
  {
    hide Consume, Mirror;
    if toks != [] {
      ConsumeMirrors(c, toks[0]);
      RunMirrors(Consume(c, toks[0]).conf, toks[1..]);
    }
  }

  // Text: lexing and parsing in step is parsing what the lexer reads.

  lemma {:induction false} ParsesWhatIsLexed(p: Parser, data: Text)
    requires LexAll(p.lexer, data).ok && !p.error
    requires !ParseTokens(p, LexAll(p.lexer, data).toks).error
    ensures ParseData(p, data) == ParseTokens(p, LexAll(p.lexer, data).toks).(lexer := LexAll(p.lexer, data).next)
    decreases |data|
  {
    hide LexByte, ParseToken;
    if data != [] {
      var r := LexByte(p.lexer, data[0]);
      var q := p.(lexer := r.next);
      var more := LexAll(r.next, data[1..]);
      ParseTokensTwice(p, r.toks, more.toks);
      LexerApart(p, r.next, r.toks);
      var s := ParseByte(p, data[0]);
      assert s == ParseTokens(p, r.toks).(lexer := r.next);
      LexerApart(ParseTokens(p, r.toks), r.next, more.toks);
      ParsesWhatIsLexed(s, data[1..]);
    }
  }

  /** Parsing tokens does not look at the lexer. */
  lemma {:induction false} LexerApart(p: Parser, l: Lexer, toks: seq<Token>)
    ensures ParseTokens(p.(lexer := l), toks) == ParseTokens(p, toks).(lexer := l)
    decreases |toks|
  {
    if toks != [] {
      LexerApart(ParseToken(p, toks[0]), l, toks[1..]);
    }
  }

  lemma LexDocument(n: Json, pretty: int)
    requires (n.JArray? || n.JObject?) && Printable(n) && NulFree(n)
    ensures LexAll(LIMBO, TextOf(n, pretty)) == Lexed(LIMBO, Yield(ContainerTree(n)), true)
  {
    LexContainer(n, pretty, []);
    assert TextOf(n, pretty) + [] == TextOf(n, pretty);
    assert Yield(ContainerTree(n)) + [] == Yield(ContainerTree(n));
  }

  lemma DocumentValue(n: Json)
    requires (n.JArray? || n.JObject?) && Printable(n)
    ensures var t := DocumentTree(n);
            Derivation(t) && Root(t).Document? && Yield(t) == Yield(ContainerTree(n)) && ValueOf(t) == n
  {
    hide ContainerTree, Roots, Derivations;
    ContainerValue(n);
    ContainerDerives(n);
    Forest1(ContainerTree(n));
    Yields1(ContainerTree(n));
    KidRoots(DocumentTree(n));
  }

  /**
    Parsing the text of an array or object without NUL bytes gives the document
    back, however it was laid out and split.
   */
  lemma RoundTrip(n: Json, pretty: int, chunks: seq<Text>, multidoc: bool)
    requires (n.JArray? || n.JObject?) && Printable(n) && NulFree(n)
    requires Joined(chunks) == TextOf(n, pretty)
    ensures ParseChunks(Fresh(multidoc), chunks) ==
            Fresh(multidoc).(out := [n], conf := if multidoc then START else Conf([], []))
  {
    hide TextOf, ContainerTree, Derivation, Yield, ValueOf;
    var p := Fresh(multidoc);
    SplitAnywhere(p, chunks);
    LexDocument(n, pretty);
    DocumentValue(n);
    DocumentDone(p, DocumentTree(n));
    ParsesWhatIsLexed(p, TextOf(n, pretty));
  }
}
