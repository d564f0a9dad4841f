/**
  The parser with the string its lexer collects characters in: bytes after a
  NUL are lost when that string grows. Without NUL bytes it is the parser with
  an unlimited buffer, so serialized documents are read back.
 */
module JsonStream {
  import opened Common
  import opened Keys
  import opened JsonValue
  import opened JsonGrammar
  import opened JsonMachine
  import opened JsonBuild
  import opened JsonStacks
  import opened JsonText
  import opened StringBuffer
  import opened JsonLexer
  import opened JsonRoundTrip
  import opened JsonParser
  import opened JsonDepth

  /** A parser and the size of its lexer's string, which survives from token to token. */
  datatype Reader = Reader(p: Parser, size: nat)

  predicate Sized(l: Lexer, size: nat) {
    Roomy(Buffer(l.buf, size)) && (l.mode.Limbo? ==> l.buf == [])
  }

  /** The character goes into the buffer. */
  predicate Appends(l: Lexer, c: Byte) {
    match l.mode
    case Limbo => false
    case InString => c != QUOTE
    case InEscape => true
    case InUnicode(_) => true
    case InNumber => NumberPart(c)
    case InIdentifier => IsAlpha(c)
  }

  /** The lexer with its string grown, if the character goes into it and there is no room. */
  function MakeRoom(l: Lexer, size: nat, c: Byte): (r: (Lexer, nat))
    requires Sized(l, size)
    ensures Sized(r.0, r.1) && r.0.mode == l.mode
    ensures Appends(l, c) ==> |r.0.buf| + 1 < r.1
    ensures l.buf == [] ==> r == (l, size)
  {
    if Appends(l, c) then
      var w := WithRoom(Buffer(l.buf, size));
      (l.(buf := w.str), w.size)
    else (l, size)
  }

  /** A character sent with enough room leaves enough for the terminator, and starts anew if sent again. */
  lemma StepSized(l: Lexer, size: nat, c: Byte)
    requires Sized(l, size) && (Appends(l, c) ==> |l.buf| + 1 < size)
    ensures Sized(LexChar(l, c).next, size)
    ensures LexChar(l, c).again ==> LexChar(l, c).next.buf == []
  {
  }

  lemma {:induction false} ByteSized(l: Lexer, size: nat, c: Byte)
    requires Sized(l, size) && (Appends(l, c) ==> |l.buf| + 1 < size)
    ensures Sized(LexByte(l, c).next, size)
    decreases Turns(l, c)
  {
    hide LexChar, Appends;
    StepSized(l, size, c);
    var s := LexChar(l, c);
    if s.again { ByteSized(s.next, size, c); }
  }

  /** Room is made for the character once; when it is sent again the buffer is empty. */
  function ReadByte(r: Reader, c: Byte): (q: Reader)
    requires Sized(r.p.lexer, r.size)
    ensures Sized(q.p.lexer, q.size)
  {
    var (l, size) := MakeRoom(r.p.lexer, r.size, c);
    ByteSized(l, size, c);
    Reader(ParseByte(r.p.(lexer := l), c), size)
  }

  /** A piece of input, up to the first error. */
  function ReadData(r: Reader, data: Text): (q: Reader)
    requires Sized(r.p.lexer, r.size)
    ensures Sized(q.p.lexer, q.size)
    decreases |data|
  {
    if data == [] || r.p.error then r else ReadData(ReadByte(r, data[0]), data[1..])
  }

  /** Input arriving in pieces. */
  function ReadChunks(r: Reader, chunks: seq<Text>): Reader
    requires Sized(r.p.lexer, r.size)
    decreases |chunks|
  {
    if chunks == [] then r else ReadChunks(ReadData(r, chunks[0]), chunks[1..])
  }

  lemma {:induction false} ReadSplit(r: Reader, a: Text, b: Text)
    requires Sized(r.p.lexer, r.size)
    ensures ReadData(r, a + b) == ReadData(ReadData(r, a), b)
    decreases |a|
  {
    hide ReadByte;
    if a == [] {
      assert a + b == b;
    } else if !r.p.error {
      assert (a + b)[1..] == a[1..] + b;
      ReadSplit(ReadByte(r, a[0]), a[1..], b);
    }
  }

  lemma {:induction false} ReadAnywhere(r: Reader, chunks: seq<Text>)
    requires Sized(r.p.lexer, r.size)
    ensures ReadChunks(r, chunks) == ReadData(r, Joined(chunks))
    decreases |chunks|
  {
    if chunks != [] {
      ReadSplit(r, chunks[0], Joined(chunks[1..]));
      ReadAnywhere(ReadData(r, chunks[0]), chunks[1..]);
    }
  }

  /** No byte of the input makes the symbol stack higher than it may be. */
  predicate ReadFits(r: Reader, data: Text)
    requires Sized(r.p.lexer, r.size)
    decreases |data|
  {
    || r.p.error || data == []
    || (TokensFit(r.p, LexByte(MakeRoom(r.p.lexer, r.size, data[0]).0, data[0]).toks)
        && ReadFits(ReadByte(r, data[0]), data[1..]))
  }

  // Input without NUL bytes.

  lemma {:induction false} BufferKeeps(l: Lexer, c: Byte)
    requires 0 !in l.buf && c != 0
    ensures 0 !in LexByte(l, c).next.buf
    decreases Turns(l, c)
  {
    var s := LexChar(l, c);
    assert 0 !in s.next.buf;
    hide LexChar;
    if s.again { BufferKeeps(s.next, c); }
  }

  lemma ByteNulFree(r: Reader, c: Byte)
    requires Sized(r.p.lexer, r.size) && 0 !in r.p.lexer.buf && c != 0
    ensures MakeRoom(r.p.lexer, r.size, c).0 == r.p.lexer
    ensures ReadByte(r, c).p == ParseByte(r.p, c) && 0 !in ReadByte(r, c).p.lexer.buf
  {
    CopiedWhole(r.p.lexer.buf);
    BufferKeeps(r.p.lexer, c);
    hide LexByte, Copied;
    assert ParseByte(r.p, c).lexer == LexByte(r.p.lexer, c).next;
  }

  /** The string loses nothing, so reading is parsing. */
  lemma {:induction false} ReadNulFree(r: Reader, data: Text)
    requires Sized(r.p.lexer, r.size) && 0 !in r.p.lexer.buf && 0 !in data
    ensures ReadData(r, data).p == ParseData(r.p, data)
    ensures ReadFits(r, data) <==> Fits(r.p, data)
    decreases |data|
  {
    hide ReadByte, ParseByte, TokensFit, LexByte, MakeRoom, Sized;
    if data != [] && !r.p.error {
      ByteNulFree(r, data[0]);
      assert 0 !in data[1..];
      ReadNulFree(ReadByte(r, data[0]), data[1..]);
    }
  }

  // Which texts have NUL bytes.

  lemma {:induction false} EscapeNul(s: seq<Byte>)
    ensures 0 in Escape(s) <==> 0 in s
  {
    if s != [] {
      EscapeNul(s[1..]);
      assert s == [s[0]] + s[1..];
    }
  }

  lemma {:induction false} IndentNul(n: int)
    ensures 0 !in Indent(n)
    decreases if n <= 0 then 0 else n
  {
    if n > 0 { IndentNul(n - 1); }
  }

  lemma DecimalNul(i: int)
    ensures 0 !in Decimal(i)
  {
    DigitsRead(if i < 0 then -i else i);
  }

  /** The text of a document has a NUL byte exactly if the document has one. */
  lemma {:induction false} TextNul(n: Json, pretty: int)
    requires Printable(n)
    ensures 0 in TextOf(n, pretty) <==> !NulFree(n)
    decreases n
  {
    hide Indent, Escape, Decimal;
    IndentNul(pretty - 1);
    match n
    case JInt(i) => DecimalNul(i);
    case JString(s) => EscapeNul(s);
    case JArray(items) => ItemsNul(items, pretty);
    case JObject(ms) => MembersNul(ms, pretty);
    case _ =>
  }

  lemma {:induction false} ItemsNul(items: seq<Json>, pretty: int)
    requires PrintableItems(items)
    ensures 0 in ItemsText(items, pretty) <==> !NulFreeItems(items)
    decreases items
  {
    hide Indent, TextOf;
    IndentNul(pretty);
    if items != [] {
      TextNul(items[0], Increment(pretty));
      ItemsNul(items[1..], pretty);
    }
  }

  lemma {:induction false} MembersNul(ms: seq<Member>, pretty: int)
    requires PrintableMembers(ms)
    ensures 0 in MembersText(ms, pretty) <==> !NulFreeMembers(ms)
    decreases ms
  {
    hide Indent, TextOf, Escape;
    IndentNul(pretty);
    if ms != [] {
      EscapeNul(ms[0].key);
      TextNul(ms[0].value, Increment(pretty));
      MembersNul(ms[1..], pretty);
    }
  }

  /**
    Reading the text of an array or object without NUL bytes gives the document
    back, however it was laid out and split, and whatever was read before.
   */
  lemma RoundTrip(n: Json, pretty: int, chunks: seq<Text>, multidoc: bool, size: nat)
    requires (n.JArray? || n.JObject?) && Printable(n) && NulFree(n) && size >= INITIAL_SIZE
    requires Joined(chunks) == TextOf(n, pretty)
    ensures ReadChunks(Reader(Fresh(multidoc), size), chunks).p ==
            Fresh(multidoc).(out := [n], conf := if multidoc then START else Conf([], []))
  {
    hide TextOf;
    var r := Reader(Fresh(multidoc), size);
    ReadAnywhere(r, chunks);
    TextNul(n, pretty);
    ReadNulFree(r, TextOf(n, pretty));
    JsonParser.RoundTrip(n, pretty, chunks, multidoc);
    SplitAnywhere(Fresh(multidoc), chunks);
  }
}
