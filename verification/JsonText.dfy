/**
  Text of JSON documents: what the serializer writes, and how the C library
  and the string scanner read it back.
 */
module JsonText {
  import opened Common
  import opened Keys
  import opened JsonValue

  type Text = seq<Byte>

  const QUOTE: Byte := 0x22
  const BACKSLASH: Byte := 0x5C
  const SPACE: Byte := 0x20
  const NEWLINE: Byte := 0x0A
  const MINUS: Byte := 0x2D
  const DOT: Byte := 0x2E
  const ZERO: Byte := 0x30
  const COMMA: Byte := 0x2C
  const COLON: Byte := 0x3A
  const LBRACKET: Byte := 0x5B
  const RBRACKET: Byte := 0x5D
  const LBRACE: Byte := 0x7B
  const RBRACE: Byte := 0x7D
  const LOWER_U: Byte := 0x75

  const TAB_STRING: Text := [SPACE, SPACE, SPACE, SPACE]
  const NULL_TEXT: Text := [0x6E, 0x75, 0x6C, 0x6C]
  const TRUE_TEXT: Text := [0x74, 0x72, 0x75, 0x65]
  const FALSE_TEXT: Text := [0x66, 0x61, 0x6C, 0x73, 0x65]

  // Writing.

  function Indent(n: int): Text {
    if n <= 0 then [] else TAB_STRING + Indent(n - 1)
  }

  function Break(pretty: int): Text {
    if pretty < 1 then [] else [NEWLINE]
  }

  function Increment(pretty: int): int {
    if pretty > 0 then pretty + 1 else 0
  }

  /** The letter after the backslash for the seven characters that have one. */
  function ShortEscape(c: Byte): Option<Byte> {
    if c == QUOTE then Some(QUOTE)
    else if c == BACKSLASH then Some(BACKSLASH)
    else if c == 0x08 then Some(0x62)
    else if c == 0x0C then Some(0x66)
    else if c == 0x0A then Some(0x6E)
    else if c == 0x0D then Some(0x72)
    else if c == 0x09 then Some(0x74)
    else None
  }

  function HexDigit(n: int): Byte
    requires 0 <= n < 16
  {
    if n < 10 then ZERO + n else 0x61 + (n - 10)
  }

  /** NUL is found in the escape table, whose own terminator it matches, and is written raw after a backslash. */
  function EscapeByte(c: Byte): (t: Text) {
    if c == 0 then [BACKSLASH, 0]
    else if ShortEscape(c).Some? then [BACKSLASH, ShortEscape(c).value]
    else if c < 0x20 || c > 0x7F then [BACKSLASH, LOWER_U, ZERO, ZERO, HexDigit(c / 16), HexDigit(c % 16)]
    else [c]
  }

  function Escape(s: seq<Byte>): Text {
    if s == [] then [] else EscapeByte(s[0]) + Escape(s[1..])
  }

  function Quoted(s: seq<Byte>): Text {
    [QUOTE] + Escape(s) + [QUOTE]
  }

  function Digits(n: nat): (t: Text)
    ensures |t| > 0
  {
    if n < 10 then [ZERO + n] else Digits(n / 10) + [ZERO + n % 10]
  }

  function Decimal(i: int): Text {
    if i < 0 then [MINUS] + Digits(-i) else Digits(i)
  }

  function TextOf(n: Json, pretty: int): Text
    decreases n
  {
    match n
    case JNull => NULL_TEXT
    case JBool(b) => if b then TRUE_TEXT else FALSE_TEXT
    case JInt(i) => Decimal(i)
    case JFloat(t) => t
    case JString(s) => Quoted(s)
    case JArray(items) => [LBRACKET] + Break(pretty) + ItemsText(items, pretty) + Indent(pretty - 1) + [RBRACKET]
    case JObject(ms) => [LBRACE] + Break(pretty) + MembersText(ms, pretty) + Indent(pretty - 1) + [RBRACE]
  }

  function ItemsText(items: seq<Json>, pretty: int): Text
    decreases items
  {
    if items == [] then []
    else
      Indent(pretty) + TextOf(items[0], Increment(pretty)) + Separator(|items|) + Break(pretty)
        + ItemsText(items[1..], pretty)
  }

  function MembersText(ms: seq<Member>, pretty: int): Text
    decreases ms
  {
    if ms == [] then []
    else
      Indent(pretty) + Quoted(ms[0].key) + [COLON] + (if pretty != 0 then [SPACE] else []) +
      TextOf(ms[0].value, Increment(pretty)) + Separator(|ms|) + Break(pretty) + MembersText(ms[1..], pretty)
  }

  /** A comma after every element that has a successor. */
  function Separator(remaining: nat): Text {
    if remaining > 1 then [COMMA] else []
  }

  // Reading: character classes of the C locale and strtol.

  predicate IsDigit(c: Byte) {
    0x30 <= c <= 0x39
  }

  predicate IsAlpha(c: Byte) {
    0x41 <= c <= 0x5A || 0x61 <= c <= 0x7A
  }

  predicate IsSpace(c: Byte) {
    c == SPACE || 0x09 <= c <= 0x0D
  }

  function DigitValue(c: Byte): nat {
    if IsDigit(c) then c - 0x30
    else if 0x61 <= c <= 0x7A then c - 0x61 + 10
    else if 0x41 <= c <= 0x5A then c - 0x41 + 10
    else 36
  }

  function SkipSpaces(s: Text): Text {
    if s != [] && IsSpace(s[0]) then SkipSpaces(s[1..]) else s
  }

  function Accumulate(s: Text, base: nat, acc: nat): nat {
    if s == [] || DigitValue(s[0]) >= base then acc else Accumulate(s[1..], base, acc * base + DigitValue(s[0]))
  }

  predicate HasHexPrefix(s: Text) {
    |s| >= 3 && s[0] == ZERO && (s[1] == 0x78 || s[1] == 0x58) && DigitValue(s[2]) < 16
  }

  function Magnitude(s: Text, base: nat): nat {
    if (base == 0 || base == 16) && HasHexPrefix(s) then Accumulate(s[2..], 16, 0)
    else if base != 0 then Accumulate(s, base, 0)
    else if s != [] && s[0] == ZERO then Accumulate(s, 8, 0)
    else Accumulate(s, 10, 0)
  }

  const LONG_MAX: int := 0x7FFF_FFFF_FFFF_FFFF

  function Strtol(text: Text, base: nat): (v: int)
    ensures -LONG_MAX - 1 <= v <= LONG_MAX
  {
    var s := SkipSpaces(text);
    var negative := s != [] && s[0] == MINUS;
    var signed := negative || (s != [] && s[0] == 0x2B);
    var m: int := Magnitude(if signed then s[1..] else s, base);
    if negative then (if m > LONG_MAX + 1 then -LONG_MAX - 1 else -m) else if m > LONG_MAX then LONG_MAX else m
  }

  /** The bytes a string token stands for. */
  function Scan(s: Text): seq<Byte>
    decreases |s|
  {
    if s == [] then []
    else if s[0] != BACKSLASH then [s[0]] + Scan(s[1..])
    else if |s| == 1 then []
    else if s[1] == LOWER_U then
      if |s| < 6 then [] else [Strtol(s[2..6], 16) % 256] + Scan(s[6..])
    else Unescape(s[1]) + Scan(s[2..])
  }

  function Unescape(c: Byte): seq<Byte> {
    if c == QUOTE || c == BACKSLASH || c == 0x2F then [c]
    else if c == 0x62 then [0x08]
    else if c == 0x66 then [0x0C]
    else if c == 0x6E then [0x0A]
    else if c == 0x72 then [0x0D]
    else if c == 0x74 then [0x09]
    else []
  }

  // Reading back what was written.

  lemma HexReads(c: Byte)
    ensures Strtol([ZERO, ZERO, HexDigit(c / 16), HexDigit(c % 16)], 16) == c
  {
    var h, l := HexDigit(c / 16), HexDigit(c % 16);
    var s := [ZERO, ZERO, h, l];
    assert DigitValue(h) == c / 16 && DigitValue(l) == c % 16;
    assert s[1..] == [ZERO, h, l] && s[1..][1..] == [h, l] && s[1..][1..][1..] == [l] && s[1..][1..][1..][1..] == [];
    calc {
      Accumulate(s, 16, 0);
      Accumulate([ZERO, h, l], 16, 0);
      Accumulate([h, l], 16, 0);
      Accumulate([l], 16, c / 16);
      Accumulate([], 16, c / 16 * 16 + c % 16);
      c;
    }
  }

  /** Scanning one escaped byte gives it back, and nothing for a NUL. */
  lemma ScanEscapedByte(c: Byte, rest: Text)
    ensures Scan(EscapeByte(c) + rest) == (if c == 0 then [] else [c]) + Scan(rest)
  {
    var e := EscapeByte(c);
    var s := e + rest;
    if |e| == 1 {
      assert s[1..] == rest;
    } else if |e| == 2 {
      assert s[0] == e[0] && s[1] == e[1] && s[2..] == rest;
    } else {
      assert s[0] == e[0] && s[1] == e[1];
      assert s[2..6] == [ZERO, ZERO, HexDigit(c / 16), HexDigit(c % 16)] && s[6..] == rest;
      HexReads(c);
    }
  }

  /** Escaping and scanning gives a string without NUL bytes back. */
  lemma {:induction false} ScanEscaped(s: seq<Byte>)
    requires 0 !in s
    ensures Scan(Escape(s)) == s
  {
    if s != [] {
      ScanEscapedByte(s[0], Escape(s[1..]));
      ScanEscaped(s[1..]);
      assert s == [s[0]] + s[1..];
    }
  }

  predicate AllDigits(s: Text) {
    forall i :: 0 <= i < |s| ==> IsDigit(s[i])
  }

  lemma {:induction false} AccumulateMore(s: Text, d: Byte, acc: nat)
    requires AllDigits(s) && IsDigit(d)
    ensures Accumulate(s + [d], 10, acc) == Accumulate(s, 10, acc) * 10 + (d - ZERO)
  {
    if s == [] {
      assert (s + [d])[1..] == [];
    } else {
      assert (s + [d])[1..] == s[1..] + [d];
      AccumulateMore(s[1..], d, acc * 10 + DigitValue(s[0]));
    }
  }

  lemma {:induction false} DigitsRead(n: nat)
    ensures AllDigits(Digits(n)) && Accumulate(Digits(n), 10, 0) == n
    ensures n > 0 ==> Digits(n)[0] != ZERO
  {
    if n < 10 {
      assert Digits(n)[1..] == [];
    } else {
      DigitsRead(n / 10);
      AccumulateMore(Digits(n / 10), ZERO + n % 10, 0);
    }
  }

  lemma MagnitudeReads(m: nat)
    ensures Magnitude(Digits(m), 0) == m
  {
    DigitsRead(m);
    var d := Digits(m);
    assert !HasHexPrefix(d) by {
      assert |d| >= 2 ==> IsDigit(d[1]);
    }
    if m == 0 {
      assert d == [ZERO] && d[1..] == [];
      assert Accumulate(d, 8, 0) == Accumulate([], 8, 0) == 0;
    } else {
      assert d[0] != ZERO;
      assert Magnitude(d, 0) == Accumulate(d, 10, 0);
    }
  }

  /** The decimal text of an int is read back as that int. */
  lemma DecimalReads(i: int)
    requires -0x8000_0000 <= i < 0x8000_0000
    ensures ToInt(Strtol(Decimal(i), 0)) == i
  {
    var m: nat := if i < 0 then -i else i;
    MagnitudeReads(m);
    DigitsRead(m);
    var t := Decimal(i);
    assert IsDigit(Digits(m)[0]);
    assert SkipSpaces(t) == t;
    if i < 0 {
      assert t[1..] == Digits(m);
    }
  }
}
