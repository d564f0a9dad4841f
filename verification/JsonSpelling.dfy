/**
  How JSON texts may be written (RFC 4627), said without the scanner, the
  lexer or the serializer: strings, numbers, names, white space, brackets.
 */
module JsonSpelling {
  import opened Common
  import opened JsonValue
  import opened JsonGrammar
  import opened JsonText
  import opened StringBuffer
  import opened JsonPhrase

  // ----- strings (section 2.5) -----

  /** A hexadecimal digit, in either case. */
  ghost predicate HexValue(c: Byte, v: int) {
    || ('0' as int <= c <= '9' as int && v == c - '0' as int)
    || ('a' as int <= c <= 'f' as int && v == c - 'a' as int + 10)
    || ('A' as int <= c <= 'F' as int && v == c - 'A' as int + 10)
  }

  /** The eight escapes of two characters. */
  ghost predicate ShortSpelling(letter: Byte, code: nat) {
    || (letter == '"' as int && code == '"' as int)
    || (letter == '\\' as int && code == '\\' as int)
    || (letter == '/' as int && code == '/' as int)
    || (letter == 'b' as int && code == 0x08)
    || (letter == 'f' as int && code == 0x0C)
    || (letter == 'n' as int && code == 0x0A)
    || (letter == 'r' as int && code == 0x0D)
    || (letter == 't' as int && code == 0x09)
  }

  /** One character: itself, a short escape, or a backslash, a u and four hexadecimal digits. */
  ghost predicate SpellsOne(u: Text, code: nat) {
    || (|u| == 1 && u[0] == code && code != '"' as int && code != '\\' as int)
    || (|u| == 2 && u[0] == '\\' as int && ShortSpelling(u[1], code))
    || (|u| == 6 && u[0] == '\\' as int && u[1] == 'u' as int
        && exists a, b, c, d :: HexValue(u[2], a) && HexValue(u[3], b) && HexValue(u[4], c) && HexValue(u[5], d)
                                && code == 4096 * a + 256 * b + 16 * c + d)
  }

  /** The text between the quotation marks of a string, and the codes of its characters. */
  ghost predicate Spells(t: Text, codes: seq<nat>) {
    if codes == [] then t == []
    else exists n {:trigger t[..n]} :: 0 < n <= |t| && SpellsOne(t[..n], codes[0]) && Spells(t[n..], codes[1..])
  }

  /** The lowest eight bits of each code. */
  function LowBytes(codes: seq<nat>): (s: seq<Byte>)
    ensures |s| == |codes|
    ensures forall i {:trigger s[i]} :: 0 <= i < |s| ==> s[i] == codes[i] % 256
  {
    if codes == [] then [] else [codes[0] % 256] + LowBytes(codes[1..])
  }

  lemma HexDigitIs(c: Byte, v: int)
    requires HexValue(c, v)
    ensures DigitValue(c) == v < 16 && v >= 0 && !IsSpace(c) && c != MINUS && c != 0x2B && c != 0x78 && c != 0x58
  {
  }

  lemma FourDigits(h: Text, a: int, b: int, c: int, d: int)
    requires |h| == 4 && HexValue(h[0], a) && HexValue(h[1], b) && HexValue(h[2], c) && HexValue(h[3], d)
    ensures Strtol(h, 16) == 4096 * a + 256 * b + 16 * c + d
  {
    hide *;
    OneDigit(h, a, 0);
    OneDigit(h[1..], b, a);
    OneDigit(h[2..], c, 16 * a + b);
    OneDigit(h[3..], d, 16 * (16 * a + b) + c);
    assert h[1..][1..] == h[2..] && h[2..][1..] == h[3..] && h[3..][1..] == [];
    NoDigits(16 * (16 * (16 * a + b) + c) + d);
    Unsigned(h, a, b);
  }

  lemma Unsigned(h: Text, a: int, b: int)
    requires |h| == 4 && HexValue(h[0], a) && HexValue(h[1], b) && Accumulate(h, 16, 0) <= 0xFFFF
    ensures Strtol(h, 16) == Accumulate(h, 16, 0)
  {
    HexDigitIs(h[0], a);
    HexDigitIs(h[1], b);
    hide Accumulate;
  }

  lemma OneDigit(h: Text, v: int, acc: nat)
    requires h != [] && HexValue(h[0], v)
    ensures 0 <= v < 16 && Accumulate(h, 16, acc) == Accumulate(h[1..], 16, 16 * acc + v)
  {
    HexDigitIs(h[0], v);
  }

  lemma NoDigits(acc: nat)
    ensures Accumulate([], 16, acc) == acc
  {
  }

  lemma ScanShort(u: Text, code: nat, rest: Text)
    requires |u| == 2 && u[0] == BACKSLASH && ShortSpelling(u[1], code)
    ensures Scan(u + rest) == [code % 256] + Scan(rest)
  {
    var t := u + rest;
    assert t[0] == u[0] && t[1] == u[1] && t[2..] == rest;
    assert Unescape(u[1]) == [code];
  }

  lemma ScanOne(u: Text, code: nat, rest: Text)
    requires SpellsOne(u, code)
    ensures Scan(u + rest) == [code % 256] + Scan(rest)
  {
    var t := u + rest;
    if |u| == 1 {
      assert t[1..] == rest;
    } else if |u| == 2 {
      ScanShort(u, code, rest);
    } else {
      hide ShortSpelling;
      var a, b, c, d :| HexValue(u[2], a) && HexValue(u[3], b) && HexValue(u[4], c) && HexValue(u[5], d)
                        && code == 4096 * a + 256 * b + 16 * c + d;
      assert t[0] == u[0] && t[1] == u[1] && t[2..6] == u[2..6] && t[6..] == rest;
      FourDigits(u[2..6], a, b, c, d);
    }
  }

  /** A spelled string is scanned to the lowest eight bits of its characters. */
  lemma {:induction false} SpelledScans(t: Text, codes: seq<nat>)
    requires Spells(t, codes)
    ensures Scan(t) == LowBytes(codes)
    decreases |codes|
  {
    hide SpellsOne, Scan;
    if codes == [] {
      NothingScanned();
    } else {
      var n :| 0 < n <= |t| && SpellsOne(t[..n], codes[0]) && Spells(t[n..], codes[1..]);
      assert t == t[..n] + t[n..];
      ScanOne(t[..n], codes[0], t[n..]);
      SpelledScans(t[n..], codes[1..]);
    }
  }

  lemma NothingScanned()
    ensures Scan([]) == []
  {
  }

  /** So it is scanned as it is meant exactly if no character is beyond 255. */
  lemma SpelledExactly(t: Text, codes: seq<nat>)
    requires Spells(t, codes)
    ensures Scan(t) == codes <==> forall i {:trigger codes[i]} :: 0 <= i < |codes| ==> codes[i] < 256
  {
    hide *;
    SpelledScans(t, codes);
    var s := LowBytes(codes);
    if s == codes {
      forall i {:trigger codes[i]} | 0 <= i < |codes| ensures codes[i] < 256 {
        assert s[i] == codes[i];
      }
    }
  }

  /** The failing input: an L with a stroke is read as an A. */
  lemma BeyondAByte()
    ensures Spells(Ascii("\\u0141"), [0x141]) && Scan(Ascii("\\u0141")) == Ascii("A")
  {
    var t := Ascii("\\u0141");
    assert t == ['\\' as int, 'u' as int, '0' as int, '1' as int, '4' as int, '1' as int];
    assert HexValue(t[2], 0) && HexValue(t[3], 1) && HexValue(t[4], 4) && HexValue(t[5], 1);
    assert t[..6] == t && t[6..] == [];
    assert SpellsOne(t[..6], 0x141) && Spells(t[6..], []);
    SpelledScans(t, [0x141]);
    assert LowBytes([0x141]) == [0x41];
  }

  // ----- numbers (section 2.4) -----

  predicate Decimals(t: Text) {
    t != [] && forall i {:trigger t[i]} :: 0 <= i < |t| ==> '0' as int <= t[i] <= '9' as int
  }

  function Numeral(t: Text): nat
    requires forall i {:trigger t[i]} :: 0 <= i < |t| ==> '0' as int <= t[i] <= '9' as int
  {
    if t == [] then 0 else 10 * Numeral(t[..|t| - 1]) + (t[|t| - 1] - '0' as int)
  }

  /** Without leading zeros. */
  predicate WholeNumber(t: Text) {
    Decimals(t) && (|t| == 1 || t[0] != '0' as int)
  }

  predicate Fraction(t: Text) {
    t != [] && t[0] == '.' as int && Decimals(t[1..])
  }

  predicate Exponent(t: Text) {
    && |t| >= 2 && (t[0] == 'e' as int || t[0] == 'E' as int)
    && (Decimals(t[1..]) || ((t[1] == '+' as int || t[1] == '-' as int) && Decimals(t[2..])))
  }

  /** Sign, whole number, fraction and exponent. */
  predicate NumberParts(t: Text, minus: Text, whole: Text, frac: Text, exp: Text) {
    && t == minus + whole + frac + exp
    && (minus == [] || minus == Ascii("-")) && WholeNumber(whole)
    && (frac == [] || Fraction(frac)) && (exp == [] || Exponent(exp))
  }

  /** Whole numbers that fit an int have a value; other numbers are carried as their text. */
  ghost predicate NumberSpelled(t: Text, v: Json) {
    exists minus, whole, frac, exp :: NumberParts(t, minus, whole, frac, exp) &&
      if frac == [] && exp == [] then
        v.JInt? && v.i == if minus == [] then Numeral(whole) else 0 - Numeral(whole) as int
      else v == JFloat(t)
  }

  // ----- values (sections 2 to 2.3) -----

  /** White space. */
  predicate Blank(t: Text) {
    forall i {:trigger t[i]} :: 0 <= i < |t| ==>
      t[i] == ' ' as int || t[i] == 0x09 || t[i] == 0x0A || t[i] == 0x0D
  }

  /** Between quotation marks; without NUL characters. */
  ghost predicate StringSpelled(t: Text, s: seq<Byte>) {
    |t| >= 2 && t[0] == '"' as int && t[|t| - 1] == '"' as int && Spells(t[1..|t| - 1], s) && 0 !in s
  }

  ghost predicate WordSpelled(t: Text, tok: Token) {
    || (tok.sym == Str && tok.val.JString? && StringSpelled(t, tok.val.s))
    || (tok.sym == Num && NumberSpelled(t, tok.val))
    || (tok == Token(Ident, JNull) && t == Ascii("null"))
    || (tok == Token(Ident, JBool(true)) && t == Ascii("true"))
    || (tok == Token(Ident, JBool(false)) && t == Ascii("false"))
  }

  ghost predicate ValueSpelled(t: Text, p: Phrase)
    decreases p, 0
  {
    match p
    case Word(tok) => WordSpelled(t, tok)
    case List(items) =>
      && |t| >= 2 && t[0] == '[' as int && t[|t| - 1] == ']' as int
      && if items == [] then Blank(t[1..|t| - 1]) else ItemsSpelled(t[1..|t| - 1], items)
    case Record(entries) =>
      && |t| >= 2 && t[0] == '{' as int && t[|t| - 1] == '}' as int
      && if entries == [] then Blank(t[1..|t| - 1]) else EntriesSpelled(t[1..|t| - 1], entries)
  }

  /** A value with white space around it. */
  ghost predicate Padded(t: Text, p: Phrase)
    decreases p, 1
  {
    exists a, b {:trigger t[a..b]} ::
      0 <= a <= b <= |t| && Blank(t[..a]) && ValueSpelled(t[a..b], p) && Blank(t[b..])
  }

  ghost predicate ItemsSpelled(t: Text, items: seq<Phrase>)
    requires items != []
    decreases items, 0
  {
    if |items| == 1 then Padded(t, items[0])
    else
      exists n {:trigger t[..n]} ::
        0 <= n < |t| && t[n] == ',' as int && Padded(t[..n], items[0]) && ItemsSpelled(t[n + 1..], items[1..])
  }

  /** A key, a colon and a value. */
  ghost predicate EntrySpelled(t: Text, entry: Entry)
    decreases entry, 0
  {
    exists a, b, c {:trigger t[a..b], t[b..c]} ::
      && 0 <= a <= b <= c < |t| && Blank(t[..a]) && StringSpelled(t[a..b], entry.key) && Blank(t[b..c])
      && t[c] == ':' as int && Padded(t[c + 1..], entry.value)
  }

  ghost predicate EntriesSpelled(t: Text, entries: seq<Entry>)
    requires entries != []
    decreases entries, 0
  {
    if |entries| == 1 then EntrySpelled(t, entries[0])
    else
      exists n {:trigger t[..n]} ::
        0 <= n < |t| && t[n] == ',' as int && EntrySpelled(t[..n], entries[0])
        && EntriesSpelled(t[n + 1..], entries[1..])
  }

  /** A text: an array or an object with white space around it. */
  ghost predicate DocumentSpelled(t: Text, p: Phrase) {
    !p.Word? && Padded(t, p)
  }
}
