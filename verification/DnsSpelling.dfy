/**
  How names may be written (section 5.1 of RFC 1035), and that exactly such
  texts are parsed, to the names they spell.
 */
module DnsSpelling {
  import opened DnsNames
  import opened DnsPack
  import opened DnsComp

  ghost predicate Digit(c: Octet, value: int) {
    '0' as int <= c <= '9' as int && value == c - '0' as int
  }

  /**
    A character stands for itself, unless it is a dot or a backslash; a
    backslash and a character that is no digit for that character; a backslash
    and three digits for the octet of that number. A backslash and an opening
    bracket would begin a bit string.
   */
  ghost predicate OctetText(u: seq<Octet>, c: Octet) {
    || (|u| == 1 && u[0] == c && c != '.' as int && c != '\\' as int)
    || (|u| == 2 && u[0] == '\\' as int && u[1] == c && !('0' as int <= c <= '9' as int) && c != '[' as int)
    || (|u| == 4 && u[0] == '\\' as int
        && exists x, y, z :: Digit(u[1], x) && Digit(u[2], y) && Digit(u[3], z) && c == 100 * x + 10 * y + z)
  }

  ghost predicate LabelSpelled(t: seq<Octet>, l: Label) {
    if l == [] then t == []
    else exists n {:trigger t[..n]} :: 0 < n <= |t| && OctetText(t[..n], l[0]) && LabelSpelled(t[n..], l[1..])
  }

  /** Labels separated by dots. */
  ghost predicate NameSpelled(t: seq<Octet>, ls: seq<Label>)
    requires ls != []
  {
    if |ls| == 1 then LabelSpelled(t, ls[0])
    else
      exists n {:trigger t[..n]} ::
        0 <= n < |t| && t[n] == '.' as int && LabelSpelled(t[..n], ls[0]) && NameSpelled(t[n + 1..], ls[1..])
  }

  // What is spelled is parsed.

  lemma SpelledOctet(u: seq<Octet>, c: Octet, rest: seq<Octet>, out: seq<Octet>, cur: Label, size: nat)
    requires OctetText(u, c) && |out| + 1 + |cur| < size
    ensures Pton(u + rest, out, cur, size) == Pton(rest, out, cur + [c], size)
    ensures u != [] && u[0] != DOT
  {
    var t := u + rest;
    assert t[|u|..] == rest;
    if |u| == 4 {
      var x, y, z :| Digit(u[1], x) && Digit(u[2], y) && Digit(u[3], z) && c == 100 * x + 10 * y + z;
      assert t[1] == u[1] && t[2] == u[2] && t[3] == u[3];
      assert c == Decimal(t[1], t[2], t[3]);
    } else if |u| == 2 {
      assert t[1] == u[1];
    }
  }

  lemma {:induction false} SpelledLabel(t: seq<Octet>, l: Label, rest: seq<Octet>, out: seq<Octet>, cur: Label,
                                        size: nat)
    requires LabelSpelled(t, l) && |out| + 1 + |cur| + |l| <= size
    ensures Pton(t + rest, out, cur, size) == Pton(rest, out, cur + l, size)
    ensures l != [] ==> t != [] && t[0] != DOT
    decreases |l|
  {
    hide Pton, OctetText;
    if l == [] {
      assert t + rest == rest && cur + l == cur;
    } else {
      var n :| 0 < n <= |t| && OctetText(t[..n], l[0]) && LabelSpelled(t[n..], l[1..]);
      assert t + rest == t[..n] + (t[n..] + rest);
      SpelledOctet(t[..n], l[0], t[n..] + rest, out, cur, size);
      SpelledLabel(t[n..], l[1..], rest, out, cur + [l[0]], size);
      assert cur + [l[0]] + l[1..] == cur + l;
    }
  }

  lemma PtonLast(out: seq<Octet>, cur: Label, size: nat, dot: bool)
    requires LabelOk(cur) && |out| + |cur| + 2 <= size <= MAXCDNAME
    ensures Pton(if dot then [DOT] else [], out, cur, size) == Parsed(dot, out + [|cur| as Octet] + cur + [0])
  {
  }

  lemma {:induction false} SpelledParses(t: seq<Octet>, ls: seq<Label>, out: seq<Octet>, size: nat, dot: bool)
    requires ls != [] && NameSpelled(t, ls) && LabelsOk(ls) && |out| + |Wire(ls)| <= size <= MAXCDNAME
    ensures Pton(t + (if dot then [DOT] else []), out, [], size) == Parsed(dot, out + Wire(ls))
    ensures t != [] && t[0] != DOT
    decreases |ls|
  {
    hide Pton, Wire, LabelSpelled;
    var l, tail := ls[0], if dot then [DOT] else [];
    WireCons(out, ls);
    assert LabelOk(l) && [] + l == l;
    if |ls| == 1 {
      SpelledLabel(t, l, tail, out, [], size);
      PtonLast(out, l, size, dot);
    } else {
      var n :| 0 <= n < |t| && t[n] == DOT && LabelSpelled(t[..n], l) && NameSpelled(t[n + 1..], ls[1..]);
      var rest := t[n + 1..] + tail;
      assert t + tail == t[..n] + ([DOT] + rest);
      SpelledLabel(t[..n], l, [DOT] + rest, out, [], size);
      SpelledParses(t[n + 1..], ls[1..], out + [|l| as Octet] + l, size, dot);
      PtonDot(rest, out, l, size);
    }
  }

  /** Every spelling of a legal name is parsed to that name, with a final dot to the same name, fully qualified. */
  lemma EverySpelling(t: seq<Octet>, ls: seq<Label>)
    requires ls != [] && NameOk(ls) && NameSpelled(t, ls)
    ensures Pton(t, [], [], MAXCDNAME) == Parsed(false, Wire(ls))
    ensures Pton(t + [DOT], [], [], MAXCDNAME) == Parsed(true, Wire(ls))
  {
    SpelledParses(t, ls, [], MAXCDNAME, false);
    SpelledParses(t, ls, [], MAXCDNAME, true);
    assert t + [] == t && [] + Wire(ls) == Wire(ls);
  }

  // What is printed is such a spelling.

  lemma EscapeSpells(c: Octet)
    ensures OctetText(Escape(c), c)
  {
    var u := Escape(c);
    if |u| == 4 {
      assert Digit(u[1], c / 100) && Digit(u[2], c % 100 / 10) && Digit(u[3], c % 10);
    }
  }

  /** Visible characters are printed as they are, but for eight that are special in master files. */
  lemma PrintedAs(c: Octet)
    ensures Escape(c) == [c] <==>
            '!' as int <= c <= '~' as int && c as char !in {'"', '.', ';', '\\', '(', ')', '@', '$'}
    ensures |Escape(c)| == 4 <==> !('!' as int <= c <= '~' as int)
  {
  }

  lemma {:induction false} LabelTextSpells(l: Label)
    ensures LabelSpelled(LabelText(l), l)
  {
    if l != [] {
      var t, e := LabelText(l), Escape(l[0]);
      EscapeSpells(l[0]);
      LabelTextSpells(l[1..]);
      assert t[..|e|] == e && t[|e|..] == LabelText(l[1..]);
    }
  }

  lemma {:induction false} DottedSpells(ls: seq<Label>)
    requires ls != []
    ensures NameSpelled(Dotted(ls), ls)
    decreases |ls|
  {
    hide LabelText, LabelSpelled;
    LabelTextSpells(ls[0]);
    if |ls| > 1 {
      var t, n := Dotted(ls), |LabelText(ls[0])|;
      DottedSpells(ls[1..]);
      assert t[..n] == LabelText(ls[0]) && t[n] == DOT && t[n + 1..] == Dotted(ls[1..]);
    }
  }

  /** The text of a legal name with a final dot is the same name, fully qualified. */
  lemma QualifiedText(ls: seq<Label>)
    requires ls != [] && NameOk(ls)
    ensures Pton(Text(ls) + [DOT], [], [], MAXCDNAME) == Parsed(true, Wire(ls))
  {
    DottedSpells(ls);
    EverySpelling(Text(ls), ls);
  }

  // What is parsed was spelled.

  lemma {:induction false} LabelSnoc(t: seq<Octet>, l: Label, u: seq<Octet>, c: Octet)
    requires LabelSpelled(t, l) && OctetText(u, c)
    ensures LabelSpelled(t + u, l + [c])
    decreases |l|
  {
    hide OctetText;
    var s := t + u;
    if l == [] {
      assert u != [] by { OctetTextSome(u, c); }
      assert s[..|u|] == u && s[|u|..] == [] && (l + [c])[1..] == [];
      assert LabelSpelled(s[|u|..], (l + [c])[1..]);
    } else {
      var n :| 0 < n <= |t| && OctetText(t[..n], l[0]) && LabelSpelled(t[n..], l[1..]);
      LabelSnoc(t[n..], l[1..], u, c);
      assert s[..n] == t[..n] && s[n..] == t[n..] + u && (l + [c])[1..] == l[1..] + [c];
    }
  }

  lemma OctetTextSome(u: seq<Octet>, c: Octet)
    requires OctetText(u, c)
    ensures u != []
  {
  }

  lemma LabelApart(t: seq<Octet>, ls: seq<Label>) returns (n: nat)
    requires |ls| > 1 && NameSpelled(t, ls)
    ensures n < |t| && t == t[..n] + [DOT] + t[n + 1..] && LabelSpelled(t[..n], ls[0])
    ensures NameSpelled(t[n + 1..], ls[1..])
  {
    hide LabelSpelled;
    n :| 0 <= n < |t| && t[n] == DOT && LabelSpelled(t[..n], ls[0]) && NameSpelled(t[n + 1..], ls[1..]);
  }

  lemma LabelBefore(t: seq<Octet>, l: Label, rest: seq<Octet>, ls: seq<Label>)
    requires ls != [] && LabelSpelled(t, l) && NameSpelled(rest, ls)
    ensures NameSpelled(t + [DOT] + rest, [l] + ls)
  {
    hide LabelSpelled;
    var s, all, n := t + [DOT] + rest, [l] + ls, |t|;
    assert s[n] == DOT && s[..n] == t && s[n + 1..] == rest && all[1..] == ls;
  }

  lemma OneLabel(t: seq<Octet>, l: Label)
    ensures NameSpelled(t, [l]) <==> LabelSpelled(t, l)
  {
  }

  /** One character more in the last label. */
  lemma {:induction false} NameSnoc(t: seq<Octet>, pre: seq<Label>, cur: Label, u: seq<Octet>, c: Octet)
    requires NameSpelled(t, pre + [cur]) && OctetText(u, c)
    ensures NameSpelled(t + u, pre + [cur + [c]])
    decreases |pre|
  {
    hide *;
    if pre == [] {
      assert pre + [cur] == [cur] && pre + [cur + [c]] == [cur + [c]];
      OneLabel(t, cur);
      LabelSnoc(t, cur, u, c);
      OneLabel(t + u, cur + [c]);
    } else {
      var more, more', l := pre[1..] + [cur], pre[1..] + [cur + [c]], pre[0];
      assert pre + [cur] == [l] + more && pre + [cur + [c]] == [l] + more';
      assert ([l] + more)[1..] == more;
      var n := LabelApart(t, [l] + more);
      NameSnoc(t[n + 1..], pre[1..], cur, u, c);
      LabelBefore(t[..n], l, t[n + 1..] + u, more');
      assert t + u == t[..n] + [DOT] + (t[n + 1..] + u);
    }
  }

  /** A dot begins another label. */
  lemma {:induction false} NameDot(t: seq<Octet>, ls: seq<Label>)
    requires ls != [] && NameSpelled(t, ls)
    ensures NameSpelled(t + [DOT], ls + [[]])
    decreases |ls|
  {
    hide *;
    if |ls| == 1 {
      assert ls == [ls[0]] && t + [DOT] == t + [DOT] + [];
      OneLabel(t, ls[0]);
      NothingSpelled();
      OneLabel([], []);
      LabelBefore(t, ls[0], [], [[]]);
    } else {
      var n := LabelApart(t, ls);
      NameDot(t[n + 1..], ls[1..]);
      LabelBefore(t[..n], ls[0], t[n + 1..] + [DOT], ls[1..] + [[]]);
      assert ls + [[]] == [ls[0]] + (ls[1..] + [[]]);
      assert t + [DOT] == t[..n] + [DOT] + (t[n + 1..] + [DOT]);
    }
  }

  lemma NothingSpelled()
    ensures LabelSpelled([], [])
  {
  }

  /** A text for a name: the root is a dot or nothing, other names may have a final dot. */
  ghost predicate Accepted(t: seq<Octet>, ls: seq<Label>) {
    if ls == [] then t == [] || t == [DOT]
    else NameSpelled(t, ls) || (t != [] && t[|t| - 1] == DOT && NameSpelled(t[..|t| - 1], ls))
  }

  /** t is such a text, perhaps with a backslash left over at its end. */
  ghost predicate Understood(t: seq<Octet>, ls: seq<Label>) {
    Accepted(t, ls) || (t != [] && t[|t| - 1] == BACKSLASH && Accepted(t[..|t| - 1], ls))
  }

  lemma {:induction false} OnlySpellings(d: seq<Octet>, t: seq<Octet>, pre: seq<Label>, cur: Label, size: nat)
    returns (ls: seq<Label>)
    requires LabelsOk(pre) && NameSpelled(d, pre + [cur]) && Pton(t, Counted(pre), cur, size).Parsed?
    requires cur == [] && pre != [] ==>
      t != [] && t[0] != DOT && d != [] && d[|d| - 1] == DOT && NameSpelled(d[..|d| - 1], pre)
    ensures NameOk(ls) && Pton(t, Counted(pre), cur, size).wire == Wire(ls) && Understood(d + t, ls)
    decreases |t|
  {
    hide Counted, NameSpelled, Wire, LabelsOk, NameOk, OctetText;
    if t == [] || t == [DOT] || t == [BACKSLASH] {
      ls := LastLabel(d, t, pre, cur, size);
    } else if t[0] == DOT {
      OneLabelMore(pre, cur);
      NameDot(d, pre + [cur]);
      assert (d + [DOT])[..|d|] == d && d + [DOT] + t[1..] == d + t;
      ls := OnlySpellings(d + [DOT], t[1..], pre + [cur], [], size);
    } else {
      var n, c := OneOctet(t, Counted(pre), cur, size);
      NameSnoc(d, pre, cur, t[..n], c);
      assert d + t[..n] + t[n..] == d + t;
      ls := OnlySpellings(d + t[..n], t[n..], pre, cur + [c], size);
    }
  }

  /** A character that is no separator is one octet of the label. */
  lemma OneOctet(t: seq<Octet>, out: seq<Octet>, cur: Label, size: nat) returns (n: nat, c: Octet)
    requires Pton(t, out, cur, size).Parsed? && t != [] && t[0] != DOT && t != [BACKSLASH]
    ensures 0 < n <= |t| && OctetText(t[..n], c) && Pton(t, out, cur, size) == Pton(t[n..], out, cur + [c], size)
  {
    if t[0] != BACKSLASH {
      n, c := 1, t[0];
    } else if IsDigit(t[1]) {
      n, c := 4, Decimal(t[1], t[2], t[3]);
      var u := t[..4];
      assert Digit(u[1], t[1] - 48) && Digit(u[2], t[2] - 48) && Digit(u[3], t[3] - 48);
    } else {
      n, c := 2, t[1];
    }
  }

  lemma LastLabel(d: seq<Octet>, t: seq<Octet>, pre: seq<Label>, cur: Label, size: nat) returns (ls: seq<Label>)
    requires LabelsOk(pre) && NameSpelled(d, pre + [cur]) && Pton(t, Counted(pre), cur, size).Parsed?
    requires t == [] || t == [DOT] || t == [BACKSLASH]
    requires cur == [] && pre != [] ==>
      t == [BACKSLASH] && d != [] && d[|d| - 1] == DOT && NameSpelled(d[..|d| - 1], pre)
    ensures NameOk(ls) && Pton(t, Counted(pre), cur, size).wire == Wire(ls) && Understood(d + t, ls)
  {
    ls := FinishIsName(pre, cur, size, t == [DOT]);
    NameOfFinish(pre, cur, size, t == [DOT], ls);
    var s := d + t;
    if t != [] { assert s[..|s| - 1] == d && s[|s| - 1] == t[0]; } else { assert s == d; }
    if cur == [] && pre == [] {
      assert LabelSpelled(d, (pre + [cur])[0]);
      assert d == [];
    } else if t == [BACKSLASH] {
      assert Accepted(d, ls);
    }
  }

  lemma NameOfFinish(pre: seq<Label>, cur: Label, size: nat, qualified: bool, ls: seq<Label>)
    requires LabelsOk(pre) && Finish(Counted(pre), cur, size, qualified).Parsed?
    requires NameOk(ls) && Finish(Counted(pre), cur, size, qualified).wire == Wire(ls)
    ensures ls == if cur == [] then pre else pre + [cur]
  {
    CountedRoot(pre);
    if cur == [] {
      WireOfOne(ls, pre);
    } else {
      OneLabelMore(pre, cur);
      WireOfOne(ls, pre + [cur]);
    }
  }

  /** Whatever is parsed is a spelling of the name it is parsed to, but for a backslash that may be left over. */
  lemma NothingElse(t: seq<Octet>) returns (ls: seq<Label>)
    requires Pton(t, [], [], MAXCDNAME).Parsed?
    ensures NameOk(ls) && Pton(t, [], [], MAXCDNAME).wire == Wire(ls) && Understood(t, ls)
  {
    NothingSpelled();
    var none: seq<Label> := [];
    assert Counted(none) == [] && none + [[]] == [[]] && [] + t == t;
    ls := OnlySpellings([], t, [], [], MAXCDNAME);
  }
}
