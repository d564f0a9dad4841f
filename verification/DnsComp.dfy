/**
  Names as the resolver handles them: compression takes a text, expansion
  gives one. What is compressed into a message is expanded to the same name
  up to ASCII case, however the text was written.
 */
module DnsComp {
  import opened DnsNames
  import opened DnsText
  import opened DnsExpand
  import opened DnsPack

  // What the parser and the expansion produce is the wire form of a name.

  lemma {:induction false} CountedRoot(ls: seq<Label>)
    requires LabelsOk(ls)
    ensures Counted(ls) + [0] == Wire(ls)
  {
    if ls != [] {
      CountedRoot(ls[1..]);
      assert Counted(ls) + [0] == [|ls[0]| as Octet] + ls[0] + (Counted(ls[1..]) + [0]);
    }
  }

  lemma OneLabelMore(pre: seq<Label>, l: Label)
    requires LabelsOk(pre) && LabelOk(l)
    ensures LabelsOk(pre + [l]) && Counted(pre + [l]) == Counted(pre) + [|l| as Octet] + l
    ensures Wire(pre + [l]) == Counted(pre) + [|l| as Octet] + l + [0]
  {
    CountedSnoc(pre, l);
    CountedRoot(pre + [l]);
  }

  lemma FinishIsName(pre: seq<Label>, cur: Label, size: nat, qualified: bool) returns (ls: seq<Label>)
    requires LabelsOk(pre) && Finish(Counted(pre), cur, size, qualified).Parsed?
    ensures NameOk(ls) && Finish(Counted(pre), cur, size, qualified).wire == Wire(ls)
  {
    CountedRoot(pre);
    if cur == [] {
      ls := pre;
    } else {
      OneLabelMore(pre, cur);
      ls := pre + [cur];
    }
  }

  /** Every text that is accepted is parsed to the wire form of a legal name. */
  lemma {:induction false} PtonIsName(t: seq<Octet>, pre: seq<Label>, cur: Label, size: nat) returns (ls: seq<Label>)
    requires LabelsOk(pre) && Pton(t, Counted(pre), cur, size).Parsed?
    ensures NameOk(ls) && Pton(t, Counted(pre), cur, size).wire == Wire(ls)
    decreases |t|
  {
    hide Counted, Finish, LabelsOk, NameOk, Wire;
    if t == [] || t == [BACKSLASH] {
      ls := FinishIsName(pre, cur, size, false);
    } else if t == [DOT] {
      ls := FinishIsName(pre, cur, size, true);
    } else if t[0] == DOT {
      OneLabelMore(pre, cur);
      ls := PtonIsName(t[1..], pre + [cur], [], size);
    } else if t[0] != BACKSLASH {
      ls := PtonIsName(t[1..], pre, cur + [t[0]], size);
    } else if IsDigit(t[1]) {
      var c: Octet := Decimal(t[1], t[2], t[3]);
      ls := PtonIsName(t[4..], pre, cur + [c], size);
    } else {
      ls := PtonIsName(t[2..], pre, cur + [t[1]], size);
    }
  }

  /** Whatever is expanded is the wire form of a name. */
  lemma {:induction false} ExpandIsName(msg: seq<Octet>, p: nat, room: nat, checked: nat, pre: seq<Label>, len: int,
                                        src: nat)
    returns (ls: seq<Label>)
    requires LabelsOk(pre) && p < |msg| && |Counted(pre)| < room
    requires Expand(msg, p, room, checked, Counted(pre), len, src).Expanded?
    ensures LabelsOk(ls) && Expand(msg, p, room, checked, Counted(pre), len, src).wire == Wire(ls)
    decreases room - |Counted(pre)| + Left(|msg|, checked)
  {
    hide Counted, LabelsOk, Wire;
    var n := msg[p];
    if n == 0 {
      CountedRoot(pre);
      ls := pre;
    } else if IsPlain(n) {
      var l := msg[p + 1..p + 1 + n];
      assert msg[p..p + 1 + n] == [n] + l;
      OneLabelMore(pre, l);
      assert Counted(pre) + [n] + l == Counted(pre) + msg[p..p + 1 + n];
      ls := ExpandIsName(msg, p + 1 + n, room, checked + n + 1, pre + [l], len, src);
    } else {
      ls := ExpandIsName(msg, Target(n, msg[p + 1]), room, checked + 2, pre, if len < 0 then p + 2 - src else len, src);
    }
  }

  lemma {:induction false} TakesSome(msg: seq<Octet>, p: nat, room: nat, checked: nat, wire: seq<Octet>, src: nat)
    requires src <= p < |msg| && |wire| < room && Expand(msg, p, room, checked, wire, -1, src).Expanded?
    ensures Expand(msg, p, room, checked, wire, -1, src).consumed > 0
    decreases |msg| - p
  {
    var n := msg[p];
    if n != 0 && IsPlain(n) {
      TakesSome(msg, p + 1 + n, room, checked + n + 1, wire + msg[p..p + 1 + n], src);
    } else if n != 0 {
      LenIsKept(msg, Target(n, msg[p + 1]), room, checked + 2, wire, p + 2 - src, src);
    }
  }

  /** A wire form belongs to one name. */
  lemma {:induction false} WireOfOne(a: seq<Label>, b: seq<Label>)
    requires LabelsOk(a) && LabelsOk(b) && Wire(a) == Wire(b)
    ensures a == b
  {
    assert a != [] ==> LabelOk(a[0]) && Wire(a)[0] == |a[0]|;
    assert b != [] ==> LabelOk(b[0]) && Wire(b)[0] == |b[0]|;
    if a != [] && b != [] {
      var v, w, n := Wire(a), Wire(b), |a[0]|;
      assert a[0] == v[1..1 + n] && b[0] == w[1..1 + n];
      assert Wire(a[1..]) == v[1 + n..] && Wire(b[1..]) == w[1 + n..];
      WireOfOne(a[1..], b[1..]);
    }
  }

  // ----- expansion to text -----

  /** The text expansion gives: the root is empty. */
  function ExpandedText(ls: seq<Label>): seq<Octet> {
    if ls == [] then [] else Dotted(ls)
  }

  /** What expansion at a position comes to: refused, or a name and how many octets it took. */
  datatype Outcome = NoName | Name(ls: seq<Label>, consumed: int)

  ghost predicate Expands(msg: seq<Octet>, src: nat, o: Outcome) {
    if src >= |msg| then o == NoName
    else
      match Expand(msg, src, MAXCDNAME, 0, [], -1, src)
      case Failed => o == NoName
      case Expanded(consumed, wire) => o.Name? && NameOk(o.ls) && wire == Wire(o.ls) && consumed == o.consumed > 0
  }

  lemma Outcomes(msg: seq<Octet>, src: nat) returns (o: Outcome)
    ensures Expands(msg, src, o) && forall o' :: Expands(msg, src, o') ==> o' == o
  {
    if src >= |msg| || Expand(msg, src, MAXCDNAME, 0, [], -1, src).Failed? {
      o := NoName;
    } else {
      assert Counted([]) == [];
      var ls := ExpandIsName(msg, src, MAXCDNAME, 0, [], -1, src);
      TakesSome(msg, src, MAXCDNAME, 0, [], src);
      o := Name(ls, Expand(msg, src, MAXCDNAME, 0, [], -1, src).consumed);
      forall o' | Expands(msg, src, o') ensures o' == o {
        WireOfOne(o'.ls, ls);
      }
    }
  }

  /** Expand the name at a position of a message into a text, if the text fits. */
  method DnExpand(msg: seq<Octet>, src: nat, dst: array<Octet>) returns (n: int, ghost o: Outcome)
    modifies dst
    ensures Expands(msg, src, o)
    ensures n == if o.Name? && |Text(o.ls)| + 1 <= dst.Length then o.consumed else -1
    ensures n != -1 ==>
      |ExpandedText(o.ls)| + 1 <= dst.Length && dst[..|ExpandedText(o.ls)| + 1] == ExpandedText(o.ls) + [0]
  {
    hide Expand, Wire, Dotted, LabelsOk;
    o := Outcomes(msg, src);
    var tmp := new Octet[MAXCDNAME];
    n := Unpack(msg, src, tmp);
    if n == -1 {
      return;
    }
    var printed := Ntop(tmp[..], dst, o.ls);
    if printed == -1 {
      n := -1;
      return;
    }
    TextStart(o.ls);
    assert dst[..printed][0] == dst[0];
    if n > 0 && dst[0] == DOT {
      dst[0] := 0;
    }
  }

  lemma TextStart(ls: seq<Label>)
    requires LabelsOk(ls)
    ensures Text(ls) != [] && (Text(ls)[0] == DOT <==> ls == [])
    ensures ls != [] ==> ExpandedText(ls) == Text(ls)
  {
    if ls != [] { DottedStart(ls); }
  }

  // ----- compression from text -----

  /** Parse a text and pack the name; refused as the parser or the message refuses. */
  method DnComp(m: Message, text: seq<Octet>, dstsiz: nat) returns (n: int, ghost ls: seq<Label>, ghost k: nat)
    requires m.Valid() && m.used + dstsiz <= m.buf.Length
    modifies m, m.buf
    ensures m.Valid() && m.buf[..old(m.used)] == old(m.buf[..m.used])
    ensures Pton(text, [], [], MAXCDNAME).Refused? ==> n == -1
    ensures Pton(text, [], [], MAXCDNAME).Parsed? ==> NameOk(ls) && Pton(text, [], [], MAXCDNAME).wire == Wire(ls)
    ensures Pton(text, [], [], MAXCDNAME).Parsed? ==>
      && k <= |ls| && AllMissed(old(m.buf[..m.used]), old(m.saved), ls, k)
      && (n == -1 <==> PackedSize(ls, k) + (if k < |ls| then 0 else 1) > dstsiz)
    ensures n == -1 ==> m.used == old(m.used) && m.packed == old(m.packed)
    ensures n != -1 ==> Pton(text, [], [], MAXCDNAME).Parsed? && m.used == old(m.used) + n
    ensures n != -1 ==> exists read :: m.packed == old(m.packed) + [(Stretch(old(m.used), m.used, read), ls)]
  {
    var tmp := new Octet[MAXCDNAME];
    var r := ParseText(text, tmp);
    if r == -1 {
      return -1, [], 0;
    }
    assert Counted([]) == [];
    ls := PtonIsName(text, [], [], MAXCDNAME);
    n, k := m.Pack(tmp[..], dstsiz, ls);
  }

  // ----- there and back -----

  lemma {:induction false} SameLabelText(a: Label, b: Label)
    requires SameLabel(a, b)
    ensures SameLabel(LabelText(a), LabelText(b))
  {
    if a != [] {
      SameLabelText(a[1..], b[1..]);
      assert Alike(a[0], b[0]);
      SameEscape(a[0], b[0]);
      SameConcat(Escape(a[0]), Escape(b[0]), LabelText(a[1..]), LabelText(b[1..]));
    }
  }

  lemma SameEscape(c: Octet, d: Octet)
    requires Alike(c, d)
    ensures SameLabel(Escape(c), Escape(d))
  {
  }

  lemma SameConcat(a: Label, b: Label, c: Label, d: Label)
    requires SameLabel(a, b) && SameLabel(c, d)
    ensures SameLabel(a + c, b + d)
  {
  }

  /** Names that are equal up to ASCII case have texts that are. */
  lemma {:induction false} SameText(a: seq<Label>, b: seq<Label>)
    requires Same(a, b)
    ensures SameLabel(ExpandedText(a), ExpandedText(b))
  {
    if a != [] {
      SameStep(a, b);
      SameLabelText(a[0], b[0]);
      if |a| > 1 {
        SameText(a[1..], b[1..]);
        SameConcat(LabelText(a[0]), LabelText(b[0]), [DOT], [DOT]);
        SameConcat(LabelText(a[0]) + [DOT], LabelText(b[0]) + [DOT], Dotted(a[1..]), Dotted(b[1..]));
      } else {
        assert a[1..] == [] && b[1..] == [];
      }
    }
  }

  /** Every name packed so far is expanded to the text of the name that was asked for, up to ASCII case. */
  lemma ComesBack(m: Message, i: nat, eom: nat, o: Outcome)
    requires m.Valid() && i < |m.packed| && m.used <= eom <= m.buf.Length
    requires Expands(m.buf[..eom], m.packed[i].0.start, o)
    ensures var (s, name) := m.packed[i];
      o.Name? && o.consumed == s.lim - s.start && SameLabel(ExpandedText(name), ExpandedText(o.ls))
        && |Text(o.ls)| + 1 <= 1025
    ensures Letterless(ExpandedText(m.packed[i].1)) ==> ExpandedText(o.ls) == ExpandedText(m.packed[i].1)
  {
    m.PackedExpands(i, eom);
    var (s, name) := m.packed[i];
    WireOfOne(o.ls, s.read);
    SameText(name, s.read);
    TextFits(o.ls);
  }

  /**
    The name of a text, compressed into a message and expanded from it again:
    the text of that name, up to ASCII case, and as many octets as it took.
   */
  method CompressAndExpand(m: Message, text: seq<Octet>, dstsiz: nat, dst: array<Octet>)
    returns (n: int, back: int, ghost ls: seq<Label>, ghost now: Label)
    requires m.Valid() && m.used + dstsiz <= m.buf.Length && dst.Length >= 1025 && dst != m.buf
    modifies m, m.buf, dst
    ensures m.Valid()
    ensures n != -1 ==>
      NameOk(ls) && Pton(text, [], [], MAXCDNAME).Parsed? && Pton(text, [], [], MAXCDNAME).wire == Wire(ls)
    ensures n != -1 ==>
      back == n && |now| < dst.Length && dst[..|now| + 1] == now + [0] && SameLabel(ExpandedText(ls), now)
    ensures n != -1 ==>
      forall name {:trigger NameOk(name)} :: NameOk(name) && text == ExpandedText(name) ==> SameLabel(text, now)
  {
    var start := m.used;
    ghost var k;
    n, ls, k := DnComp(m, text, dstsiz);
    back, now := -1, [];
    if n != -1 {
      ghost var i := |m.packed| - 1;
      ghost var o;
      back, o := DnExpand(m.buf[..m.used], start, dst);
      ComesBack(m, i, m.used, o);
      now := ExpandedText(o.ls);
      forall name {:trigger NameOk(name)} | NameOk(name) && text == ExpandedText(name) ensures SameLabel(text, now) {
        PrintedIsItself(name, ls);
      }
    }
  }

  /** A text as printing gives it stands for the name it was printed from. */
  lemma PrintedIsItself(name: seq<Label>, ls: seq<Label>)
    requires NameOk(name) && NameOk(ls)
    ensures Pton(ExpandedText(name), [], [], MAXCDNAME).Parsed?
    ensures Pton(ExpandedText(name), [], [], MAXCDNAME).wire == Wire(ls) <==> ls == name
  {
    RoundTrip(name);
    assert Pton([], [], [], MAXCDNAME) == Parsed(false, [0]);
    if Wire(name) == Wire(ls) { WireOfOne(name, ls); }
  }
}
