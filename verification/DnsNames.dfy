/**
  Domain names: their wire form as counted labels, their text form, printing
  and parsing (section 5.1 of RFC 1035).
 */
module DnsNames {

  type Octet = o: int | 0 <= o < 256

  type Label = seq<Octet>

  const MAXCDNAME: nat := 255
  const DOT: Octet := 0x2E
  const BACKSLASH: Octet := 0x5C

  /** A label of 1 to 63 arbitrary octets. */
  predicate LabelOk(l: Label) {
    1 <= |l| <= 63
  }

  predicate LabelsOk(ls: seq<Label>) {
    forall i {:trigger ls[i]} :: 0 <= i < |ls| ==> LabelOk(ls[i])
  }

  /** Counted labels, ended by the root label. */
  function Wire(ls: seq<Label>): (w: seq<Octet>)
    requires LabelsOk(ls)
    ensures |w| >= 1
  {
    if ls == [] then [0] else [|ls[0]| as Octet] + ls[0] + Wire(ls[1..])
  }

  /** A legal name: at most 255 octets on the wire. */
  predicate NameOk(ls: seq<Label>) {
    LabelsOk(ls) && |Wire(ls)| <= MAXCDNAME
  }

  // Printing.

  predicate IsSpecial(c: Octet) {
    c == 0x22 || c == DOT || c == 0x3B || c == BACKSLASH || c == 0x28 || c == 0x29 || c == 0x40 || c == 0x24
  }

  predicate IsPrintable(c: Octet) {
    0x20 < c < 0x7F
  }

  function Escape(c: Octet): (t: seq<Octet>)
    ensures 1 <= |t| <= 4
  {
    if IsSpecial(c) then [BACKSLASH, c]
    else if !IsPrintable(c) then [BACKSLASH, 0x30 + c / 100, 0x30 + c % 100 / 10, 0x30 + c % 10]
    else [c]
  }

  function LabelText(l: Label): (t: seq<Octet>)
    ensures |l| <= |t| <= 4 * |l|
  {
    if l == [] then [] else Escape(l[0]) + LabelText(l[1..])
  }

  function Dotted(ls: seq<Label>): seq<Octet> {
    if ls == [] then []
    else if |ls| == 1 then LabelText(ls[0])
    else LabelText(ls[0]) + [DOT] + Dotted(ls[1..])
  }

  /** The text of a name; the root is a single dot, other names have no final dot. */
  function Text(ls: seq<Label>): seq<Octet> {
    if ls == [] then [DOT] else Dotted(ls)
  }

  // Parsing.

  datatype Parsed = Refused | Parsed(qualified: bool, wire: seq<Octet>)

  predicate IsDigit(c: Octet) {
    0x30 <= c <= 0x39
  }

  /** The value of three digits. */
  function Decimal(a: int, b: int, c: int): int {
    (a - 0x30) * 100 + (b - 0x30) * 10 + (c - 0x30)
  }

  /** The text has been read; cur is the last label, out the labels before it. */
  function Finish(out: seq<Octet>, cur: Label, size: nat, qualified: bool): Parsed {
    if |cur| > 63 || |out| >= size then Refused
    else if cur == [] then (if |out| + 1 > MAXCDNAME then Refused else Parsed(qualified, out + [0]))
    else if |out| + 1 + |cur| >= size || |out| + 1 + |cur| + 1 > MAXCDNAME then Refused
    else Parsed(qualified, out + [|cur| as Octet] + cur + [0])
  }

  /** Parsing the rest of a text into a buffer of the given size. Bit-string labels are refused. */
  function Pton(t: seq<Octet>, out: seq<Octet>, cur: Label, size: nat): Parsed
    decreases |t|
  {
    if t == [] then Finish(out, cur, size, false)
    else if t[0] == BACKSLASH then
      if |t| == 1 then Finish(out, cur, size, false)
      else if t[1] == 0x5B then Refused
      else if IsDigit(t[1]) then
        if |t| < 4 || !IsDigit(t[2]) || !IsDigit(t[3]) then Refused
        else
          var n := Decimal(t[1], t[2], t[3]);
          if n > 255 || |out| + 1 + |cur| >= size then Refused else Pton(t[4..], out, cur + [n], size)
      else if |out| + 1 + |cur| >= size then Refused
      else Pton(t[2..], out, cur + [t[1]], size)
    else if t[0] == DOT then
      if |cur| > 63 || |out| >= size then Refused
      else if |t| == 1 then Finish(out, cur, size, true)
      else if cur == [] || t[1] == DOT then Refused
      else Pton(t[1..], out + [|cur| as Octet] + cur, [], size)
    else if |out| + 1 + |cur| >= size then Refused
    else Pton(t[1..], out, cur + [t[0]], size)
  }

  // What is printed is parsed back.

  lemma ParseEscaped(c: Octet, rest: seq<Octet>, out: seq<Octet>, cur: Label, size: nat)
    requires |out| + 1 + |cur| < size
    ensures Pton(Escape(c) + rest, out, cur, size) == Pton(rest, out, cur + [c], size)
  {
    var t := Escape(c) + rest;
    if IsSpecial(c) {
      assert t[0] == BACKSLASH && t[1] == c && t[2..] == rest;
    } else if !IsPrintable(c) {
      assert t[0] == BACKSLASH && t[1] == 0x30 + c / 100 && t[2] == 0x30 + c % 100 / 10 && t[3] == 0x30 + c % 10
             && t[4..] == rest;
    } else {
      assert t[0] == c && t[1..] == rest;
    }
  }

  lemma {:induction false} ParseLabel(l: Label, rest: seq<Octet>, out: seq<Octet>, cur: Label, size: nat)
    requires |out| + 1 + |cur| + |l| <= size
    ensures Pton(LabelText(l) + rest, out, cur, size) == Pton(rest, out, cur + l, size)
    decreases |l|
  {
    hide Pton, Escape;
    if l == [] {
      assert LabelText(l) + rest == rest && cur + l == cur;
    } else {
      assert LabelText(l) + rest == Escape(l[0]) + (LabelText(l[1..]) + rest);
      ParseEscaped(l[0], LabelText(l[1..]) + rest, out, cur, size);
      ParseLabel(l[1..], rest, out, cur + [l[0]], size);
      assert cur + [l[0]] + l[1..] == cur + l;
    }
  }

  /** The text of a label does not begin with an unescaped dot. */
  lemma LabelTextStart(l: Label)
    requires l != []
    ensures LabelText(l) != [] && LabelText(l)[0] != DOT
  {
  }

  lemma {:induction false} ParseDotted(ls: seq<Label>, out: seq<Octet>, size: nat)
    requires ls != [] && LabelsOk(ls) && |out| + |Wire(ls)| <= size <= MAXCDNAME
    ensures Pton(Dotted(ls), out, [], size) == Parsed(false, out + Wire(ls))
    decreases |ls|
  {
    hide Pton, LabelText, Dotted, Wire;
    var l := ls[0];
    WireCons(out, ls);
    DottedCons(ls);
    assert [] + l == l;
    if |ls| == 1 {
      ParseLabel(l, [], out, [], size);
      PtonEnd(out, l, size);
    } else {
      var rest := Dotted(ls[1..]);
      ParseLabel(l, [DOT] + rest, out, [], size);
      DottedStart(ls[1..]);
      PtonDot(rest, out, l, size);
      ParseDotted(ls[1..], out + [|l| as Octet] + l, size);
    }
  }

  lemma WireCons(out: seq<Octet>, ls: seq<Label>)
    requires ls != [] && LabelsOk(ls)
    ensures |Wire(ls)| == 1 + |ls[0]| + |Wire(ls[1..])| && Wire(ls)[0] == |ls[0]|
    ensures out + [|ls[0]| as Octet] + ls[0] + Wire(ls[1..]) == out + Wire(ls)
    ensures |ls| == 1 ==> Wire(ls[1..]) == [0]
  {
    var w := Wire(ls[1..]);
    hide LabelsOk;
    assert Wire(ls) == [|ls[0]| as Octet] + ls[0] + w;
    Regroup(out, [|ls[0]| as Octet], ls[0], w);
  }

  lemma Regroup(a: seq<Octet>, b: seq<Octet>, c: seq<Octet>, d: seq<Octet>)
    ensures a + b + c + d == a + (b + c + d)
  {
  }

  lemma DottedCons(ls: seq<Label>)
    requires ls != []
    ensures Dotted(ls) == LabelText(ls[0]) + (if |ls| == 1 then [] else [DOT] + Dotted(ls[1..]))
  {
    hide LabelText;
  }

  lemma PtonEnd(out: seq<Octet>, cur: Label, size: nat)
    ensures Pton([], out, cur, size) == Finish(out, cur, size, false)
  {
  }

  lemma PtonDot(rest: seq<Octet>, out: seq<Octet>, cur: Label, size: nat)
    requires rest != [] && rest[0] != DOT && LabelOk(cur) && |out| < size
    ensures Pton([DOT] + rest, out, cur, size) == Pton(rest, out + [|cur| as Octet] + cur, [], size)
  {
    var t := [DOT] + rest;
    assert t[1..] == rest && t[1] == rest[0];
  }

  lemma DottedStart(ls: seq<Label>)
    requires ls != [] && LabelsOk(ls)
    ensures Dotted(ls) != [] && Dotted(ls)[0] != DOT
  {
    LabelTextStart(ls[0]);
  }

  /** Every legal name, the root included, is parsed back from its text, into a buffer of 255 octets. */
  lemma RoundTrip(ls: seq<Label>)
    requires NameOk(ls)
    ensures Pton(Text(ls), [], [], MAXCDNAME) == Parsed(ls == [], Wire(ls))
  {
    if ls == [] {
      assert [DOT][1..] == [] && [] + [0] == [0];
    } else {
      ParseDotted(ls, [], MAXCDNAME);
      assert [] + Wire(ls) == Wire(ls);
    }
  }

  /** The text of a legal name, with its terminator, fits into 1025 bytes. */
  lemma {:induction false} TextFits(ls: seq<Label>)
    requires LabelsOk(ls)
    ensures |Dotted(ls)| <= 4 * |Wire(ls)|
    ensures NameOk(ls) ==> |Text(ls)| + 1 <= 1025
    decreases |ls|
  {
    if |ls| > 0 {
      TextFits(ls[1..]);
    }
  }
}
