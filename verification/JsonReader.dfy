/**
  The parser object: output queue, error flag, build list, the fixed array of
  symbols with its top, and the lexer's string, all updated in place. Every
  method is proved against the state transformer, on all input for which the
  array is large enough.
 */
module JsonReader {
  import opened Common
  import opened Keys
  import opened JsonValue
  import opened JsonGrammar
  import opened JsonMachine
  import opened JsonBuild
  import opened JsonStacks
  import opened JsonHeight
  import opened JsonText
  import opened StringBuffer
  import opened JsonLexer
  import opened JsonRoundTrip
  import opened JsonParser
  import opened JsonDepth
  import opened JsonStream

  /** The symbols above and including position top - 1 downwards, as the array holds them. */
  ghost predicate Holds(slots: seq<Sym>, top: nat, view: seq<Sym>) {
    && top == |view| <= |slots|
    && (forall i {:trigger slots[i]} :: 0 <= i < top ==> slots[i] == view[top - 1 - i])
  }

  /** What holds of the two stacks between tokens, until an error. */
  predicate Ready(c: Conf) {
    && Slim(c.stack)
    && (if c.stack == [] then c.build == [] else Mirror(c.stack, c.build))
  }

  /** What is still to be scanned from position i on; nothing beyond the end. */
  function Unscanned(s: Text, i: nat): seq<Byte> {
    if i <= |s| then Scan(s[i..]) else []
  }

  lemma ScanFrom(s: Text, i: nat)
    requires i < |s|
    ensures s[i] != BACKSLASH ==> Unscanned(s, i) == [s[i]] + Unscanned(s, i + 1)
    ensures s[i] == BACKSLASH && i + 1 == |s| ==> Unscanned(s, i) == []
    ensures s[i] == BACKSLASH && i + 1 < |s| && s[i + 1] != LOWER_U ==>
      Unscanned(s, i) == Unescape(s[i + 1]) + Unscanned(s, i + 2)
    ensures s[i] == BACKSLASH && i + 1 < |s| && s[i + 1] == LOWER_U && i + 6 > |s| ==> Unscanned(s, i) == []
    ensures s[i] == BACKSLASH && i + 6 <= |s| && s[i + 1] == LOWER_U ==>
              Unscanned(s, i) == [Strtol(s[i + 2..i + 6], 16) % 256] + Unscanned(s, i + 6)
  {
    var t := s[i..];
    assert t[1..] == s[i + 1..];
    if i + 1 < |s| { assert t[2..] == s[i + 2..]; }
    if i + 6 <= |s| { assert t[2..6] == s[i + 2..i + 6] && t[6..] == s[i + 6..]; }
  }

  /** An escape sequence: the bytes it stands for and the position after it. */
  method ScanEscape(s: Text, start: nat) returns (bytes: seq<Byte>, i: nat)
    requires start < |s| && s[start] == BACKSLASH
    ensures i > start && Unscanned(s, start) == bytes + Unscanned(s, i) && |bytes| <= 1
  {
    ScanFrom(s, start);
    bytes, i := [], start + 1;
    if i < |s| {
      if s[i] == LOWER_U {
        i := i + 1;
        if |s| - i >= 4 {
          bytes := [Strtol(s[i..i + 4], 16) % 256];
        }
        i := i + 3;
      } else {
        bytes := Unescape(s[i]);
      }
    }
    i := i + 1;
  }

  lemma AppendPiece(b: Buffer, piece: seq<Byte>, rest: seq<Byte>)
    requires Roomy(b) && |piece| <= 1
    ensures AppendAll(b, piece + rest) == AppendAll(if piece == [] then b else AppendChar(b, piece[0]), rest)
  {
    if piece == [] {
      assert piece + rest == rest;
    } else {
      assert (piece + rest)[1..] == rest;
    }
  }

  /** The bytes of a string token, in a new string of their own. */
  method ScanString(s: Text) returns (str: seq<Byte>)
    ensures str == Stored(Scan(s))
  {
    hide Unscanned, Scan, AppendAll, AppendChar;
    var b := EMPTY;
    var i := 0;
    UnscannedAll(s);
    while i < |s|
      invariant Roomy(b) && AppendAll(b, Unscanned(s, i)) == AppendAll(EMPTY, Scan(s))
      decreases |s| - i
    {
      var piece, next := [s[i]], i + 1;
      if s[i] == BACKSLASH {
        piece, next := ScanEscape(s, i);
      } else {
        ScanFrom(s, i);
      }
      AppendPiece(b, piece, Unscanned(s, next));
      if piece != [] {
        b := AppendChar(b, piece[0]);
      }
      i := next;
    }
    UnscannedNone(s, i, b);
    str := b.str;
  }

  lemma UnscannedAll(s: Text)
    ensures Unscanned(s, 0) == Scan(s)
  {
    assert s[0..] == s;
  }

  lemma UnscannedNone(s: Text, i: nat, b: Buffer)
    requires i >= |s| && Roomy(b)
    ensures AppendAll(b, Unscanned(s, i)) == b
  {
  }

  class Parse {
    var out: seq<Json>
    var error: bool
    var multidoc: bool
    var build: seq<Item>
    const stack: array<Sym>
    var top: nat
    var buf: Text
    var size: nat
    var lex: Mode
    ghost var view: seq<Sym>

    ghost predicate Valid()
      reads this, stack
    {
      && stack.Length == LL_STACK_SIZE
      && Holds(stack[..], top, view)
      && (!error ==> Ready(Conf(view, build)))
      && Sized(Lexer(lex, buf), size)
    }

    ghost function State(): Parser
      reads this
    {
      Parser(out, error, multidoc, Conf(view, build), Lexer(lex, buf))
    }

    constructor (multi: bool)
      ensures Valid() && fresh(stack) && State() == Fresh(multi) && size == INITIAL_SIZE
    {
      out, error, multidoc, build := [], false, multi, [];
      stack := new Sym[LL_STACK_SIZE](_ => Document);
      top, buf, size, lex := 1, [], INITIAL_SIZE, Limbo;
      view := [Document];
      new;
      assert view[1..] == [];
    }

    method Reset(multi: bool)
      requires Valid()
      modifies this, stack
      ensures Valid() && State() == Fresh(multi) && size == old(size)
    {
      out, build, error, multidoc, top := [], [], false, multi, 0;
      view := [];
      buf, lex := [], Limbo;
      LlPush(Document);
      assert view == [Document] && view[1..] == [];
    }

    method LlPush(sym: Sym)
      requires stack.Length == LL_STACK_SIZE && Holds(stack[..], top, view) && top < LL_STACK_SIZE
      modifies this`top, this`view, stack
      ensures Holds(stack[..], top, view) && view == [sym] + old(view)
    {
      stack[top] := sym;
      top := top + 1;
      view := [sym] + view;
    }

    method LlPop() returns (sym: Sym)
      requires stack.Length == LL_STACK_SIZE && Holds(stack[..], top, view) && top > 0
      modifies this`top, this`view
      ensures Holds(stack[..], top, view) && view == old(view)[1..] && sym == old(view)[0]
    {
      top := top - 1;
      sym := stack[top];
      view := view[1..];
    }

    method BuildPush(v: Item)
      modifies this`build
      ensures build == [v] + old(build)
    {
      build := [v] + build;
    }

    method BuildPop() returns (v: Item)
      requires build != []
      modifies this`build
      ensures v == old(build)[0] && build == old(build)[1..]
    {
      v := build[0];
      build := build[1..];
    }

    /** Collect the members of an object from the build list, back to its marker. */
    method ActObjEnd()
      requires AfterObject(build).Some?
      modifies this`build
      ensures build == CloseObject(old(build), [])
    {
      var obj: seq<Member> := [];
      while true
        invariant AfterObject(build).Some?
        invariant CloseObject(build, obj) == CloseObject(old(build), [])
        decreases |build|
      {
        var val := BuildPop();
        if val.ObjMark? { break; }
        var key := BuildPop();
        obj := AddMember(obj, CString(key.v.s), val.v);
      }
      BuildPush(Val(JObject(obj)));
    }

    method ActArrEnd()
      requires AfterArray(build).Some?
      modifies this`build
      ensures build == CloseArray(old(build), [])
    {
      var arr: seq<Json> := [];
      while true
        invariant AfterArray(build).Some?
        invariant CloseArray(build, arr) == CloseArray(old(build), [])
        decreases |build|
      {
        var val := BuildPop();
        if val.ArrMark? { break; }
        arr := [val.v] + arr;
      }
      BuildPush(Val(JArray(arr)));
    }

    method Action(r: Rule, tok: Token)
      requires r == 9 || r == 13 ==> AfterObject(build).Some?
      requires r == 16 || r == 20 ==> AfterArray(build).Some?
      modifies this`build
      ensures build == Act(r, tok, old(build))
    {
      if r == 5 || r == 6 || r == 7 || r == 14 {
        BuildPush(Val(tok.val));
      } else if r == 8 {
        BuildPush(ObjMark);
      } else if r == 9 || r == 13 {
        ActObjEnd();
      } else if r == 15 {
        BuildPush(ArrMark);
      } else if r == 16 || r == 20 {
        ActArrEnd();
      }
    }

    /** Push a right-hand side, last symbol first. */
    method PushRhs(r: Rule)
      requires stack.Length == LL_STACK_SIZE && Holds(stack[..], top, view) && |Rhs(r)| + top <= LL_STACK_SIZE
      modifies this`top, this`view, stack
      ensures Holds(stack[..], top, view) && view == Rhs(r) + old(view)
    {
      var i := |Rhs(r)|;
      while i > 0
        invariant 0 <= i <= |Rhs(r)|
        invariant Holds(stack[..], top, view) && view == Rhs(r)[i..] + old(view)
      {
        i := i - 1;
        LlPush(Rhs(r)[i]);
        assert [Rhs(r)[i]] + Rhs(r)[i + 1..] == Rhs(r)[i..];
      }
    }

    method LlCycle()
      requires stack.Length == LL_STACK_SIZE && Holds(stack[..], top, view) && top == 0
      modifies this, stack
      ensures Holds(stack[..], top, view) && State() == Cycle(old(State())) && size == old(size)
    {
      if build != [] {
        var n := BuildPop();
        out := out + [AsJson(n)];
      }
      if multidoc {
        LlPush(Document);
      }
    }

    /** The table's answer to a symbol: its action, and its right-hand side instead of it. */
    method Expand(symbol: Sym, tok: Token)
      requires stack.Length == LL_STACK_SIZE && Holds(stack[..], top, view)
      requires symbol != tok.sym && Table(symbol, tok.sym) != 0 && TokenOk(tok)
      requires Ready(Conf([symbol] + view, build)) && Peak(Conf([symbol] + view, build), tok) <= LL_STACK_SIZE
      modifies this`build, this`top, this`view, stack
      ensures Holds(stack[..], top, view) && Ready(Conf(view, build)) && view != []
      ensures Peak(Conf(view, build), tok) <= LL_STACK_SIZE
      ensures Rank(view[0]) < Rank(symbol)
      ensures Consume(Conf(view, build), tok) == Consume(Conf([symbol] + old(view), old(build)), tok)
    {
      var rule := Table(symbol, tok.sym);
      Unfold(Conf([symbol] + view, build), symbol, view, tok);
      Action(rule, tok);
      PushRhs(rule);
    }

    /** The token has been reached: the last one of a document puts the value out. */
    method Match(tok: Token)
      requires stack.Length == LL_STACK_SIZE && Holds(stack[..], top, view)
      requires !error && Ready(Conf([tok.sym] + view, build)) && TokenOk(tok) && Sized(Lexer(lex, buf), size)
      modifies this, stack
      ensures Valid() && size == old(size)
      ensures State() == if old(view) == [] then Cycle(old(State())) else old(State())
    {
      ghost var c := Conf([tok.sym] + view, build);
      assert c.stack[1..] == view;
      MatchSlim(c.stack);
      TerminalMirrors(tok.sym, view, build);
      if top == 0 {
        LlCycle();
        assert view == [Document] ==> view[1..] == [];
      }
    }

    /** Process one token: expand the top symbol until it is the token. The array is large enough. */
    method LlParse(tok: Token)
      requires Valid() && !error && TokenOk(tok) && Peak(State().conf, tok) <= LL_STACK_SIZE
      modifies this, stack
      ensures Valid() && State() == ParseToken(old(State()), tok) && size == old(size)
    {
      hide Ready, Sized, Peak, Consume, Table, Rank;
      while true
        invariant stack.Length == LL_STACK_SIZE && Holds(stack[..], top, view)
        invariant !error && out == old(out) && multidoc == old(multidoc)
        invariant lex == old(lex) && buf == old(buf) && size == old(size)
        invariant Ready(Conf(view, build)) && Peak(Conf(view, build), tok) <= LL_STACK_SIZE
        invariant Consume(Conf(view, build), tok) == Consume(old(State()).conf, tok)
        decreases if view == [] then 0 else Rank(view[0])
      {
        ghost var c := Conf(view, build);
        if top == 0 {
          StuckOn(c, tok);
          error := true;
          break;
        }
        var symbol := LlPop();
        assert c.stack == [symbol] + view;
        StuckOn(c, tok);
        if symbol == tok.sym {
          Match(tok);
          break;
        }
        if Table(symbol, tok.sym) == 0 {
          error := true;
          break;
        }
        Expand(symbol, tok);
      }
    }

    /** Hand a token over; after an error the model ignores it. */
    method Deliver(tok: Token)
      requires Valid() && TokenOk(tok) && TokensFit(State(), [tok])
      modifies this, stack
      ensures Valid() && State() == ParseTokens(old(State()), [tok]) && size == old(size)
    {
      assert [tok][1..] == [];
      hide ParseToken, Peak, Ready, Sized;
      if !error {
        LlParse(tok);
      }
    }

    /** The token the lexer's string stands for. */
    method Buffered() returns (tok: Token)
      requires lex.InString? || lex.InNumber? || lex.InIdentifier?
      ensures tok == Tokenize(Lexer(lex, buf))
    {
      match lex {
        case InString =>
          var str := ScanString(buf);
          tok := Token(Str, JString(str));
        case InNumber =>
          if DOT in buf || 0x65 in buf {
            tok := Token(Num, JFloat(buf));
          } else {
            tok := Token(Num, JInt(ToInt(Strtol(buf, 0))));
          }
        case InIdentifier =>
          if buf == NULL_TEXT {
            tok := Token(Ident, JNull);
          } else if buf == TRUE_TEXT {
            tok := Token(Ident, JBool(true));
          } else if buf == FALSE_TEXT {
            tok := Token(Ident, JBool(false));
          } else {
            tok := Token(Ident, JNull);
          }
          assert NULL_TEXT[0] != TRUE_TEXT[0] && NULL_TEXT[0] != FALSE_TEXT[0];
      }
    }

    /** The buffered number, identifier or string becomes a token. */
    method LexTokenize()
      requires Valid() && TokensFit(State(), [Tokenize(Lexer(lex, buf))])
      requires lex.InString? || lex.InNumber? || lex.InIdentifier?
      modifies this, stack
      ensures Valid() && size == old(size)
      ensures State() == ParseTokens(old(State()).(lexer := LIMBO), [Tokenize(old(State()).lexer)])
    {
      hide TokensFit, ParseTokens, Tokenize, Ready, Holds;
      FitApart(State(), LIMBO, [Tokenize(Lexer(lex, buf))]);
      var tok := Buffered();
      buf, lex := [], Limbo;
      Deliver(tok);
    }

    /** Append a character to the lexer's string, which grows if it has to. */
    method LexAppend(c: Byte)
      requires Roomy(Buffer(buf, size))
      modifies this`buf, this`size
      ensures Buffer(buf, size) == AppendChar(old(Buffer(buf, size)), c)
    {
      var b := AppendChar(Buffer(buf, size), c);
      buf, size := b.str, b.size;
    }

    /** One character; the result says whether it is to be sent again. */
    method LexCharacter(c: Byte) returns (again: bool)
      requires Valid() && TokensFit(State(), LexChar(MakeRoom(State().lexer, size, c).0, c).toks)
      modifies this, stack
      ensures Valid()
      ensures var (l, room) := MakeRoom(old(State()).lexer, old(size), c);
              var s := LexChar(l, c);
              var q := ParseTokens(old(State()).(lexer := s.next), s.toks);
              again == s.again && size == room && State() == q.(error := q.error || !s.ok)
    {
      hide TokensFit, Tokenize, Ready, Holds;
      again := false;
      match lex {
        case Limbo =>
          again := LexLimbo(c);
        case InString =>
          if c == QUOTE {
            LexTokenize();
          } else {
            LexAppend(c);
            lex := if c == BACKSLASH then InEscape else InString;
          }
        case InEscape =>
          LexAppend(c);
          lex := if c == LOWER_U then InUnicode(0) else InString;
        case InUnicode(seen) =>
          LexAppend(c);
          lex := if seen + 1 >= 4 then InString else InUnicode(seen + 1);
        case InNumber =>
          if NumberPart(c) {
            LexAppend(c);
          } else {
            LexTokenize();
            again := true;
          }
        case InIdentifier =>
          if IsAlpha(c) {
            LexAppend(c);
          } else {
            LexTokenize();
            again := true;
          }
      }
    }

    /** A character between tokens. */
    method LexLimbo(c: Byte) returns (again: bool)
      requires Valid() && lex.Limbo? && TokensFit(State(), LexChar(State().lexer, c).toks)
      modifies this, stack
      ensures Valid() && size == old(size)
      ensures var s := LexChar(old(State()).lexer, c);
              var q := ParseTokens(old(State()).(lexer := s.next), s.toks);
              again == s.again && State() == q.(error := q.error || !s.ok)
    {
      hide TokensFit, Ready, Holds;
      again := false;
      if Punctuation(c).Some? {
        Deliver(Token(Punctuation(c).value, JNull));
      } else if NumberStart(c) {
        lex := InNumber;
        again := true;
      } else if IsAlpha(c) {
        lex := InIdentifier;
        again := true;
      } else if c == QUOTE {
        lex := InString;
      } else if !IsSpace(c) {
        error := true;
      }
    }

    /** One character of input, sent until the lexer has had enough of it. */
    method SendCharacter(c: Byte)
      requires Valid() && TokensFit(State(), LexByte(MakeRoom(State().lexer, size, c).0, c).toks)
      modifies this, stack
      ensures Valid() && Reader(State(), size) == ReadByte(old(Reader(State(), size)), c)
    {
      hide TokensFit, Ready, Holds, MakeRoom, LexByte, LexChar, ReadByte;
      var again := true;
      while again
        invariant Valid()
        invariant again ==> TokensFit(State(), LexByte(MakeRoom(State().lexer, size, c).0, c).toks)
        invariant old(Sized(State().lexer, size))
        invariant (if again then ReadByte(Reader(State(), size), c) else Reader(State(), size)) ==
                  ReadByte(old(Reader(State(), size)), c)
        decreases again, Turns(State().lexer, c)
      {
        SendAgain(Reader(State(), size), c);
        again := LexCharacter(c);
      }
    }

    /** Input up to the first error. */
    method ParseData(data: Text)
      requires Valid() && ReadFits(Reader(State(), size), data)
      modifies this, stack
      ensures Valid() && Reader(State(), size) == ReadData(old(Reader(State(), size)), data)
    {
      hide TokensFit, Ready, Holds, MakeRoom, LexByte, ReadByte, Sized;
      var i := 0;
      assert data[0..] == data;
      while i < |data|
        invariant i <= |data| && Valid() && ReadFits(Reader(State(), size), data[i..])
        invariant old(Sized(State().lexer, size))
        invariant ReadData(Reader(State(), size), data[i..]) == ReadData(old(Reader(State(), size)), data)
      {
        if error {
          return;
        }
        assert data[i..][0] == data[i] && data[i..][1..] == data[i + 1..];
        SendCharacter(data[i]);
        i := i + 1;
      }
    }

    method ParseMore() returns (more: bool)
      ensures more <==> out != []
    {
      more := out != [];
    }

    method ParseNext() returns (n: Option<Json>)
      modifies this`out
      ensures old(out) == [] ==> n == None && out == []
      ensures old(out) != [] ==> n == Some(old(out)[0]) && out == old(out)[1..]
    {
      if out == [] {
        n := None;
      } else {
        n := Some(out[0]);
        out := out[1..];
      }
    }

    /** The simple interface: one C string that should be exactly one document. */
    method ParseString(data: Text) returns (n: Option<Json>)
      requires Valid() && ReadFits(Reader(Fresh(false), size), CString(data))
      modifies this, stack
      ensures Valid()
      ensures var p := ReadData(Reader(Fresh(false), old(size)), CString(data)).p;
              n == if p.error || p.out == [] then None else Some(p.out[0])
    {
      hide ReadData, ReadFits;
      Reset(false);
      ParseData(CString(data));
      if error {
        n := None;
      } else {
        n := ParseNext();
      }
    }
  }

  /** What processing a token comes to at a symbol, if the symbol is not expanded. */
  lemma StuckOn(c: Conf, tok: Token)
    ensures c.stack == [] ==> Consume(c, tok) == Stuck(c)
    ensures c.stack != [] && c.stack[0] == tok.sym ==> Consume(c, tok) == Matched(Conf(c.stack[1..], c.build))
    ensures c.stack != [] && c.stack[0] != tok.sym && Table(c.stack[0], tok.sym) == 0 ==>
              Consume(c, tok) == Stuck(Conf(c.stack[1..], c.build))
  {
    hide Table, Act;
  }

  /** Sending a character again continues with the same character. */
  lemma SendAgain(r: Reader, c: Byte)
    requires Sized(r.p.lexer, r.size)
    ensures var (l, size) := MakeRoom(r.p.lexer, r.size, c);
            var s := LexChar(l, c);
            var q := ParseTokens(r.p.(lexer := s.next), s.toks);
            var q2 := q.(error := q.error || !s.ok);
            && Sized(s.next, size) && q2.lexer == s.next
            && ReadByte(r, c) == (if s.again then ReadByte(Reader(q2, size), c) else Reader(q2, size))
            && (TokensFit(r.p, LexByte(l, c).toks) ==> TokensFit(r.p, s.toks))
            && (s.again && TokensFit(r.p, LexByte(l, c).toks) ==>
                  TokensFit(q2, LexByte(MakeRoom(q2.lexer, size, c).0, c).toks))
            && (s.again ==> Turns(s.next, c) < Turns(r.p.lexer, c))
  {
    var (l, size) := MakeRoom(r.p.lexer, r.size, c);
    StepSized(l, size, c);
    ByteSplits(r.p.(lexer := l), c);
    hide *;
  }

  /** A character sent once, and what is left of it. */
  lemma ByteSplits(p: Parser, c: Byte)
    ensures var s := LexChar(p.lexer, c);
            var q := ParseTokens(p.(lexer := s.next), s.toks);
            var q2 := q.(error := q.error || !s.ok);
            && ParseByte(p, c) == (if s.again then ParseByte(q2, c) else q2)
            && (TokensFit(p, LexByte(p.lexer, c).toks) ==> TokensFit(p, s.toks))
            && (s.again && TokensFit(p, LexByte(p.lexer, c).toks) ==> TokensFit(q2, LexByte(s.next, c).toks))
  {
    hide LexChar, ParseToken, TokensFit;
    var s := LexChar(p.lexer, c);
    if s.again {
      AgainIsOk(p.lexer, c);
      var r := LexByte(s.next, c);
      ParseTokensTwice(p.(lexer := r.next), s.toks, r.toks);
      LexerApart(p, r.next, s.toks);
      LexerApart(p, s.next, s.toks);
      TokensFitTwice(p, s.toks, r.toks);
      FitApart(ParseTokens(p, s.toks), s.next, r.toks);
    }
  }

  lemma AgainIsOk(l: Lexer, c: Byte)
    ensures LexChar(l, c).again ==> LexChar(l, c).ok
  {
  }

  /** What an expansion needs and what it leaves, as values. */
  lemma Unfold(c: Conf, symbol: Sym, rest: seq<Sym>, tok: Token)
    requires c.stack == [symbol] + rest && Ready(c) && Peak(c, tok) <= LL_STACK_SIZE && TokenOk(tok)
    requires symbol != tok.sym && Table(symbol, tok.sym) != 0
    ensures var r := Table(symbol, tok.sym);
            var d := Conf(Rhs(r) + rest, Act(r, tok, c.build));
            && (r == 9 || r == 13 ==> AfterObject(c.build).Some?)
            && (r == 16 || r == 20 ==> AfterArray(c.build).Some?)
            && |d.stack| <= LL_STACK_SIZE && Ready(d) && Peak(d, tok) <= LL_STACK_SIZE
            && Consume(c, tok) == Consume(d, tok)
  {
    hide Slim, Open, Act, Consume, Peak;
    var r := Table(symbol, tok.sym);
    var d := Conf(Rhs(r) + rest, Act(r, tok, c.build));
    assert c.stack[1..] == rest;
    EndsOnPairs(c, rest, r);
    hide Mirror, Awaits;
    ExpansionMirrors(c.stack, c.build, tok);
    ExpansionSlim(r, rest);
    OneExpansion(symbol, rest, c.build, tok, d);
  }

  lemma EndsOnPairs(c: Conf, rest: seq<Sym>, r: Rule)
    requires c.stack == [Lhs(r)] + rest && Mirror(c.stack, c.build)
    ensures r == 9 || r == 13 ==> AfterObject(c.build).Some?
    ensures r == 16 || r == 20 ==> AfterArray(c.build).Some?
  {
  }
}
