/** The serializer: recursion over the document that appends to an output sink. */
module JsonWriter {
  import opened Common
  import opened Keys
  import opened JsonValue
  import opened JsonText
  import opened JsonLexer
  import opened JsonRoundTrip
  import opened JsonParser
  import opened JsonDepth
  import opened StringBuffer
  import opened JsonStream
  import opened JsonCut
  import opened JsonReader

  /** Where the serializer's output goes. */
  class Sink {
    var text: Text

    constructor ()
      ensures text == []
    {
      text := [];
    }

    method Append(s: Text)
      modifies this
      ensures text == old(text) + s
    {
      text := text + s;
    }

    method AppendChar(c: Byte)
      modifies this
      ensures text == old(text) + [c]
    {
      text := text + [c];
    }
  }

  lemma {:induction false} IndentMore(n: nat)
    ensures Indent(n + 1) == Indent(n) + TAB_STRING
  {
    if n > 0 {
      IndentMore(n - 1);
      assert Indent(n) == TAB_STRING + Indent(n - 1);
      assert Indent(n + 1) == TAB_STRING + Indent(n);
    }
  }

  method SerializePrettyIndent(out: Sink, pretty: int)
    modifies out
    ensures out.text == old(out.text) + Indent(pretty)
  {
    var i := 0;
    while i < pretty
      invariant 0 <= i && (i <= pretty || i == 0)
      invariant out.text == old(out.text) + Indent(i)
    {
      IndentMore(i);
      out.Append(TAB_STRING);
      i := i + 1;
    }
  }

  method SerializePrettyBreak(out: Sink, pretty: int)
    modifies out
    ensures out.text == old(out.text) + Break(pretty)
  {
    if pretty >= 1 {
      out.AppendChar(NEWLINE);
    }
  }

  lemma {:induction false} EscapeConcat(a: seq<Byte>, b: seq<Byte>)
    ensures Escape(a + b) == Escape(a) + Escape(b)
  {
    if a == [] {
      assert a + b == b;
    } else {
      assert (a + b)[1..] == a[1..] + b;
      EscapeConcat(a[1..], b);
    }
  }

  lemma EscapeNext(s: seq<Byte>, i: nat)
    requires i < |s|
    ensures Escape(s[..i + 1]) == Escape(s[..i]) + EscapeByte(s[i])
  {
    assert s[..i + 1] == s[..i] + [s[i]];
    assert [s[i]][1..] == [];
    EscapeConcat(s[..i], [s[i]]);
  }

  /** One byte of a string, escaped where the escape table, or the range of its value, says so. */
  method SerializeByte(c: Byte, out: Sink)
    modifies out
    ensures out.text == old(out.text) + EscapeByte(c)
  {
    if c == 0 || ShortEscape(c).Some? {
      out.AppendChar(BACKSLASH);
      if ShortEscape(c).Some? {
        out.AppendChar(ShortEscape(c).value);
      } else {
        out.AppendChar(c);
      }
    } else if c < 0x20 || c > 0x7F {
      out.AppendChar(BACKSLASH);
      out.AppendChar(LOWER_U);
      out.AppendChar(ZERO);
      out.AppendChar(ZERO);
      out.AppendChar(HexDigit(c / 16));
      out.AppendChar(HexDigit(c % 16));
    } else {
      out.AppendChar(c);
    }
  }

  method SerializeStringData(s: seq<Byte>, out: Sink)
    modifies out
    ensures out.text == old(out.text) + Quoted(s)
  {
    out.AppendChar(QUOTE);
    var i := 0;
    while i < |s|
      invariant i <= |s|
      invariant out.text == old(out.text) + [QUOTE] + Escape(s[..i])
    {
      EscapeNext(s, i);
      SerializeByte(s[i], out);
      i := i + 1;
    }
    assert s[..i] == s;
    out.AppendChar(QUOTE);
  }

  method Serialize(n: Json, out: Sink, pretty: int)
    modifies out
    ensures out.text == old(out.text) + TextOf(n, pretty)
    decreases n, 1
  {
    match n {
      case JNull => out.Append(NULL_TEXT);
      case JBool(b) => out.Append(if b then TRUE_TEXT else FALSE_TEXT);
      case JInt(i) => out.Append(Decimal(i));
      case JFloat(t) => out.Append(t);
      case JString(s) => SerializeStringData(s, out);
      case JArray(items) => SerializeArray(n, out, pretty);
      case JObject(ms) => SerializeObject(n, out, pretty);
    }
  }

  /** One element with its indentation, separator and line break. */
  method SerializeItem(items: seq<Json>, i: nat, out: Sink, pretty: int)
    requires i < |items|
    modifies out
    ensures out.text + ItemsText(items[i + 1..], pretty) == old(out.text) + ItemsText(items[i..], pretty)
    decreases items, 0
  {
    ghost var start := out.text;
    ghost var rest := items[i..];
    assert rest[0] == items[i] && rest[1..] == items[i + 1..];
    SerializePrettyIndent(out, pretty);
    Serialize(items[i], out, Increment(pretty));
    if i + 1 < |items| {
      out.AppendChar(COMMA);
    }
    assert out.text == start + Indent(pretty) + TextOf(items[i], Increment(pretty)) + Separator(|rest|);
    SerializePrettyBreak(out, pretty);
    ItemsTextSplit(rest, pretty, []);
    RegroupAll(start, Indent(pretty), TextOf(items[i], Increment(pretty)), Separator(|rest|), Break(pretty),
      ItemsText(rest[1..], pretty));
    assert ItemsText(rest, pretty) + [] == ItemsText(rest, pretty);
    assert ItemsText(rest[1..], pretty) + [] == ItemsText(rest[1..], pretty);
  }

  method SerializeArray(n: Json, out: Sink, pretty: int)
    requires n.JArray?
    modifies out
    ensures out.text == old(out.text) + TextOf(n, pretty)
    decreases n, 0
  {
    ghost var start := out.text;
    out.AppendChar(LBRACKET);
    SerializePrettyBreak(out, pretty);
    var items := n.items;
    assert items[0..] == items;
    var i := 0;
    while i < |items|
      invariant i <= |items|
      invariant out.text + ItemsText(items[i..], pretty) ==
                start + [LBRACKET] + Break(pretty) + ItemsText(items, pretty)
    {
      SerializeItem(items, i, out, pretty);
      i := i + 1;
    }
    assert ItemsText(items[i..], pretty) == [];
    assert out.text == start + [LBRACKET] + Break(pretty) + ItemsText(items, pretty);
    SerializePrettyIndent(out, pretty - 1);
    out.AppendChar(RBRACKET);
    RegroupAll(start, [LBRACKET], Break(pretty), ItemsText(items, pretty), Indent(pretty - 1), [RBRACKET]);
    Regroup([LBRACKET], Break(pretty), ItemsText(items, pretty), Indent(pretty - 1), [RBRACKET]);
  }

  /** The callback for one member of the trie, with the number of members still to come. */
  method SerializeMember(ms: seq<Member>, i: nat, out: Sink, pretty: int)
    requires i < |ms|
    modifies out
    ensures out.text + MembersText(ms[i + 1..], pretty) == old(out.text) + MembersText(ms[i..], pretty)
    decreases ms, 0
  {
    ghost var start := out.text;
    ghost var rest := ms[i..];
    ghost var gap: Text := if pretty != 0 then [SPACE] else [];
    ghost var value := TextOf(ms[i].value, Increment(pretty));
    assert rest[0] == ms[i] && rest[1..] == ms[i + 1..];
    SerializePrettyIndent(out, pretty);
    SerializeStringData(ms[i].key, out);
    out.AppendChar(COLON);
    if pretty != 0 {
      out.AppendChar(SPACE);
    }
    assert out.text == start + Indent(pretty) + Quoted(ms[i].key) + [COLON] + gap;
    ghost var head := out.text;
    Serialize(ms[i].value, out, Increment(pretty));
    if i + 1 < |ms| {
      out.AppendChar(COMMA);
    }
    assert out.text == head + value + Separator(|rest|);
    SerializePrettyBreak(out, pretty);
    MemberWritten(start, rest, pretty, head, out.text);
  }

  lemma MemberWritten(start: Text, rest: seq<Member>, pretty: int, head: Text, end: Text)
    requires rest != []
    requires head == start + Indent(pretty) + Quoted(rest[0].key) + [COLON] + (if pretty != 0 then [SPACE] else [])
    requires end == head + TextOf(rest[0].value, Increment(pretty)) + Separator(|rest|) + Break(pretty)
    ensures end + MembersText(rest[1..], pretty) == start + MembersText(rest, pretty)
  {
    hide TextOf, Indent, Break, Separator, Quoted, MembersText, Increment;
    var gap: Text := if pretty != 0 then [SPACE] else [];
    var value, sep, more := TextOf(rest[0].value, Increment(pretty)), Separator(|rest|), MembersText(rest[1..], pretty);
    MembersTextSplit(rest, pretty, []);
    assert MembersText(rest, pretty) + [] == MembersText(rest, pretty) && more + [] == more;
    var tail := value + (sep + (Break(pretty) + more));
    RegroupHead(head, value, sep, Break(pretty), more);
    RegroupAll(start, Indent(pretty), Quoted(rest[0].key), [COLON], gap, tail);
  }

  method SerializeObject(n: Json, out: Sink, pretty: int)
    requires n.JObject?
    modifies out
    ensures out.text == old(out.text) + TextOf(n, pretty)
    decreases n, 0
  {
    ghost var start := out.text;
    out.AppendChar(LBRACE);
    SerializePrettyBreak(out, pretty);
    var ms := n.members;
    assert ms[0..] == ms;
    var i := 0;
    while i < |ms|
      invariant i <= |ms|
      invariant out.text + MembersText(ms[i..], pretty) == start + [LBRACE] + Break(pretty) + MembersText(ms, pretty)
    {
      SerializeMember(ms, i, out, pretty);
      i := i + 1;
    }
    assert MembersText(ms[i..], pretty) == [];
    assert out.text == start + [LBRACE] + Break(pretty) + MembersText(ms, pretty);
    SerializePrettyIndent(out, pretty - 1);
    out.AppendChar(RBRACE);
    RegroupAll(start, [LBRACE], Break(pretty), MembersText(ms, pretty), Indent(pretty - 1), [RBRACE]);
    Regroup([LBRACE], Break(pretty), MembersText(ms, pretty), Indent(pretty - 1), [RBRACE]);
  }

  /**
    Serializing a document and parsing the text as a C string gives the document
    back, or nothing if one of its strings has a NUL byte.
   */
  method PrintAndParse(n: Json, pretty: int) returns (r: Option<Json>)
    requires (n.JArray? || n.JObject?) && Printable(n) && Depth(n) <= MAX_DEPTH && KeyDepth(n) <= MAX_KEY_DEPTH
    ensures r == if NulFree(n) then Some(n) else None
  {
    hide Depth, KeyDepth, Printable, NulFree, Fits, ReadFits, CString;
    var out := new Sink();
    Serialize(n, out, pretty);
    assert out.text == TextOf(n, pretty);
    var parse := new Parse(false);
    WhatIsRead(n, pretty);
    r := parse.ParseString(out.text);
  }

  lemma WhatIsRead(n: Json, pretty: int)
    requires (n.JArray? || n.JObject?) && Printable(n) && Depth(n) <= MAX_DEPTH && KeyDepth(n) <= MAX_KEY_DEPTH
    ensures var r := Reader(Fresh(false), INITIAL_SIZE);
            && ReadFits(r, CString(TextOf(n, pretty)))
            && (var p := ReadData(r, CString(TextOf(n, pretty))).p; !p.error && p.out == if NulFree(n) then [n] else [])
  {
    var text := TextOf(n, pretty);
    assert Joined([text]) == text + Joined([text][1..]) == text;
    NewReader();
    hide *;
    CStringIs(text);
    TextNul(n, pretty);
    ReadNulFree(Reader(Fresh(false), INITIAL_SIZE), CString(text));
    if NulFree(n) {
      DocumentFits(n, pretty, false);
      JsonParser.RoundTrip(n, pretty, [text], false);
      SplitAnywhere(Fresh(false), [text]);
    } else {
      CutDocument(n, pretty);
    }
  }

  lemma NewReader()
    ensures Sized(LIMBO, INITIAL_SIZE) && Fresh(false).lexer == LIMBO && LIMBO.buf == []
    ensures !Fresh(false).error
  {
  }
}
