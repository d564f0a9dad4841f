/** Printing and parsing names in fixed buffers. */
module DnsText {
  import opened DnsNames

  lemma {:induction false} DottedSnoc(ls: seq<Label>, l: Label)
    ensures Dotted(ls + [l]) == Dotted(ls) + (if ls == [] then [] else [DOT]) + LabelText(l)
    decreases |ls|
  {
    hide LabelText;
    if ls == [] {
      assert ls + [l] == [l];
    } else {
      assert (ls + [l])[1..] == ls[1..] + [l];
      DottedCons(ls);
      DottedCons(ls + [l]);
      hide Dotted;
      DottedSnoc(ls[1..], l);
    }
  }

  lemma {:induction false} DottedPrefix(ls: seq<Label>, k: nat)
    requires k <= |ls|
    ensures |Dotted(ls[..k])| <= |Dotted(ls)|
    decreases |ls| - k
  {
    if k == |ls| {
      assert ls[..k] == ls;
    } else {
      assert ls[..k + 1] == ls[..k] + [ls[k]];
      DottedSnoc(ls[..k], ls[k]);
      DottedPrefix(ls, k + 1);
    }
  }

  lemma {:induction false} LabelTextSnoc(l: Label, c: Octet)
    ensures LabelText(l + [c]) == LabelText(l) + Escape(c)
  {
    hide Escape;
    if l == [] {
      assert (l + [c])[1..] == [];
      assert Escape(c) + [] == Escape(c);
    } else {
      assert (l + [c])[1..] == l[1..] + [c];
      LabelTextSnoc(l[1..], c);
    }
  }

  lemma {:induction false} LabelTextPrefix(l: Label, k: nat)
    requires k <= |l|
    ensures |LabelText(l[..k])| <= |LabelText(l)|
    decreases |l| - k
  {
    if k == |l| {
      assert l[..k] == l;
    } else {
      assert l[..k + 1] == l[..k] + [l[k]];
      LabelTextSnoc(l[..k], l[k]);
      LabelTextPrefix(l, k + 1);
    }
  }

  /** One octet, escaped as its class asks for; refused when it does not fit. */
  method PutOctet(c: Octet, dst: array<Octet>, dn: nat) returns (ok: bool, end: nat)
    requires dn <= dst.Length
    modifies dst
    ensures ok <==> dn + |Escape(c)| <= dst.Length
    ensures ok ==> end == dn + |Escape(c)| && dst[..end] == old(dst[..dn]) + Escape(c)
  {
    end := dn;
    if IsSpecial(c) {
      if dn + 1 >= dst.Length {
        return false, end;
      }
      dst[dn] := BACKSLASH;
      dst[dn + 1] := c;
      end := dn + 2;
    } else if !IsPrintable(c) {
      if dn + 3 >= dst.Length {
        return false, end;
      }
      dst[dn] := BACKSLASH;
      dst[dn + 1] := 0x30 + c / 100;
      dst[dn + 2] := 0x30 + c % 100 / 10;
      dst[dn + 3] := 0x30 + c % 10;
      end := dn + 4;
    } else {
      if dn >= dst.Length {
        return false, end;
      }
      dst[dn] := c;
      end := dn + 1;
    }
    ok := true;
  }

  /** The octets of one label. */
  method PutLabel(octets: Label, dst: array<Octet>, dn: nat) returns (ok: bool, end: nat)
    requires dn <= dst.Length
    modifies dst
    ensures ok <==> dn + |LabelText(octets)| <= dst.Length
    ensures ok ==> end == dn + |LabelText(octets)| && dst[..end] == old(dst[..dn]) + LabelText(octets)
  {
    hide Escape, LabelText;
    end := dn;
    var i := 0;
    EmptyText(octets);
    while i < |octets|
      invariant i <= |octets| && dn <= end <= dst.Length
      invariant end == dn + |LabelText(octets[..i])|
      invariant dst[..end] == old(dst[..dn]) + LabelText(octets[..i])
    {
      NextText(octets, i);
      ok, end := PutOctet(octets[i], dst, end);
      if !ok {
        return;
      }
      i := i + 1;
    }
    assert octets[..i] == octets;
    ok := true;
  }

  lemma EmptyText(l: Label)
    ensures LabelText(l[..0]) == []
  {
  }

  lemma NextText(l: Label, i: nat)
    requires i < |l|
    ensures LabelText(l[..i + 1]) == LabelText(l[..i]) + Escape(l[i])
    ensures |LabelText(l[..i + 1])| <= |LabelText(l)|
  {
    hide Escape, LabelText;
    assert l[..i + 1] == l[..i] + [l[i]];
    LabelTextSnoc(l[..i], l[i]);
    LabelTextPrefix(l, i + 1);
  }

  /** The wire form of a name is at this position. */
  ghost predicate WireAt(src: seq<Octet>, cp: nat, ls: seq<Label>) {
    LabelsOk(ls) && cp + |Wire(ls)| <= |src| && src[cp..cp + |Wire(ls)|] == Wire(ls)
  }

  /** Its length octet, then its octets, then the rest of the name. */
  lemma LabelAt(src: seq<Octet>, cp: nat, ls: seq<Label>)
    requires WireAt(src, cp, ls)
    ensures cp < |src| && (ls == [] <==> src[cp] == 0)
    ensures ls != [] ==> src[cp] == |ls[0]| && cp + 1 + |ls[0]| <= |src| && src[cp + 1..cp + 1 + |ls[0]|] == ls[0]
    ensures ls != [] ==> WireAt(src, cp + 1 + |ls[0]|, ls[1..])
  {
    var w := Wire(ls);
    var end := cp + |w|;
    assert src[cp] == src[cp..end][0];
    if ls != [] {
      assert LabelOk(ls[0]);
      WireCons([], ls);
      var n, more := |ls[0]|, Wire(ls[1..]);
      assert src[cp..end] == w && |w| == 1 + n + |more|;
      hide LabelsOk, Wire;
      assert [] + [n as Octet] + ls[0] + more == [n as Octet] + ls[0] + more;
      assert w == [n as Octet] + ls[0] + more;
      SubSlice(src, cp, end, 1, 1 + n);
      SubSlice(src, cp, end, 1 + n, |w|);
      assert w[1..1 + n] == ls[0] && w[1 + n..|w|] == more;
    }
  }

  lemma SubSlice(s: seq<Octet>, a: nat, b: nat, i: nat, j: nat)
    requires a <= b <= |s| && i <= j <= b - a
    ensures s[a..b][i..j] == s[a + i..a + j]
  {
    var x, y := s[a..b][i..j], s[a + i..a + j];
    assert |x| == |y|;
    forall k | 0 <= k < |x| ensures x[k] == y[k] {
      assert x[k] == s[a..b][i + k];
    }
  }

  /** Print a name; it succeeds exactly when the text and its terminator fit. */
  method Ntop(src: seq<Octet>, dst: array<Octet>, ghost ls: seq<Label>) returns (n: int)
    requires WireAt(src, 0, ls)
    modifies dst
    ensures n == if |Text(ls)| + 1 <= dst.Length then |Text(ls)| + 1 else -1
    ensures n >= 0 ==> dst[..n] == Text(ls) + [0]
  {
    hide Dotted, LabelText, LabelsOk, WireAt;
    var cp: nat, dn: nat := 0, 0;
    ghost var k: nat := 0;
    Whole(ls);
    LabelAt(src, 0, ls);
    while src[cp] != 0
      invariant k <= |ls| && cp < |src| && WireAt(src, cp, ls[k..]) && (k == |ls| <==> src[cp] == 0)
      invariant dn == |Dotted(ls[..k])| <= dst.Length && dst[..dn] == Dotted(ls[..k])
      invariant (dn == 0) == (k == 0)
      decreases |ls| - k
    {
      LabelAt(src, cp, ls[k..]);
      Extend(src, cp, ls, k);
      var len := src[cp];
      cp := cp + 1;
      if dn != 0 {
        if dn >= dst.Length {
          return -1;
        }
        dst[dn] := DOT;
        dn := dn + 1;
      }
      if dn + len >= dst.Length {
        return -1;
      }
      var ok;
      ok, dn := PutLabel(src[cp..cp + len], dst, dn);
      if !ok {
        return -1;
      }
      cp := cp + len;
      k := k + 1;
      LabelAt(src, cp, ls[k..]);
    }
    assert ls[..k] == ls;
    if dn == 0 {
      if dn >= dst.Length {
        return -1;
      }
      dst[dn] := DOT;
      dn := dn + 1;
    }
    if dn >= dst.Length {
      return -1;
    }
    dst[dn] := 0;
    n := dn + 1;
  }

  lemma Whole(ls: seq<Label>)
    ensures ls[0..] == ls && Dotted(ls[..0]) == []
  {
  }

  /** The next label of a text that is being printed. */
  lemma Extend(src: seq<Octet>, cp: nat, ls: seq<Label>, k: nat)
    requires k <= |ls| && WireAt(src, cp, ls[k..])
    ensures k < |ls| ==> ls[k..][0] == ls[k] && ls[k..][1..] == ls[k + 1..]
    ensures k < |ls| ==> Dotted(ls[..k + 1]) == Dotted(ls[..k]) + (if k == 0 then [] else [DOT]) + LabelText(ls[k])
    ensures k < |ls| ==> |Dotted(ls[..k + 1])| <= |Text(ls)| && 1 <= |ls[k]| <= |LabelText(ls[k])|
  {
    if k < |ls| {
      assert ls[k..][0] == ls[k] && ls[k..][1..] == ls[k + 1..];
      assert LabelOk(ls[k..][0]);
      assert ls[..k + 1] == ls[..k] + [ls[k]];
      DottedSnoc(ls[..k], ls[k]);
      DottedPrefix(ls, k + 1);
    }
  }

  /** What the parser has put into its buffer: finished labels, a slot for a length, the label being read. */
  ghost predicate Filled(dst: seq<Octet>, slot: nat, bp: nat, out: seq<Octet>, cur: Label) {
    && slot == |out| <= |dst| && bp == slot + 1 + |cur| && (bp <= |dst| || cur == [])
    && dst[..slot] == out
    && (bp <= |dst| ==> dst[slot + 1..bp] == cur)
  }

  lemma FilledNext(dst: seq<Octet>, slot: nat, bp: nat, out: seq<Octet>, cur: Label, c: Octet)
    requires Filled(dst, slot, bp, out, cur) && bp < |dst|
    ensures Filled(dst[bp := c], slot, bp + 1, out, cur + [c])
  {
    var d := dst[bp := c];
    assert d[slot + 1..bp + 1] == dst[slot + 1..bp] + [c];
  }

  lemma FilledLabel(dst: seq<Octet>, slot: nat, bp: nat, out: seq<Octet>, cur: Label)
    requires Filled(dst, slot, bp, out, cur) && slot < |dst| && |cur| < 256
    ensures Filled(dst[slot := |cur|], slot, bp, out, cur)
    ensures dst[slot := |cur|][..bp] == out + [|cur|] + cur
    ensures Filled(dst[slot := |cur|], bp, bp + 1, out + [|cur|] + cur, [])
  {
    var d: seq<Octet> := dst[slot := |cur|];
    assert d[..bp] == d[..slot] + [d[slot]] + d[slot + 1..bp];
  }

  /** One escaped or plain character of the text: how many it takes, and the octet it means. */
  function Unescape(t: seq<Octet>, i: nat): (r: (nat, int))
    requires i < |t|
    ensures r.0 > 0 ==> 0 <= r.1 < 256 && i + r.0 <= |t|
  {
    if t[i] != BACKSLASH then (1, t[i])
    else if i + 1 == |t| || t[i + 1] == 0x5B then (0, -1)
    else if !IsDigit(t[i + 1]) then (2, t[i + 1])
    else if i + 3 >= |t| || !IsDigit(t[i + 2]) || !IsDigit(t[i + 3]) then (0, -1)
    else
      var n := Decimal(t[i + 1], t[i + 2], t[i + 3]);
      if n > 255 then (0, -1) else (4, n)
  }

  /** How the parsing function goes on at a character that is not a separating dot. */
  lemma PtonChar(t: seq<Octet>, i: nat, out: seq<Octet>, cur: Label, size: nat)
    requires i < |t| && t[i] != DOT && !(t[i] == BACKSLASH && i + 1 == |t|)
    ensures var (k, c) := Unescape(t, i);
            Pton(t[i..], out, cur, size) ==
            if k == 0 || |out| + 1 + |cur| >= size then Refused else Pton(t[i + k..], out, cur + [c], size)
  {
    var s := t[i..];
    var (k, c) := Unescape(t, i);
    assert forall j {:trigger s[j]} :: 0 <= j < |s| ==> s[j] == t[i + j];
    if k > 0 { assert s[k..] == t[i + k..]; }
  }

  lemma PtonSeparator(t: seq<Octet>, i: nat, out: seq<Octet>, cur: Label, size: nat)
    requires i < |t| && t[i] == DOT
    ensures Pton(t[i..], out, cur, size) ==
            if |cur| > 63 || |out| >= size then Refused
            else if i + 1 == |t| then Finish(out, cur, size, true)
            else if cur == [] || t[i + 1] == DOT then Refused
            else Pton(t[i + 1..], out + [|cur| as Octet] + cur, [], size)
  {
    var s := t[i..];
    if i + 1 < |t| { assert s[1] == t[i + 1] && s[1..] == t[i + 1..]; }
  }

  lemma PtonStop(t: seq<Octet>, i: nat, out: seq<Octet>, cur: Label, size: nat)
    requires i == |t| || (i + 1 == |t| && t[i] == BACKSLASH)
    ensures Pton(t[i..], out, cur, size) == Finish(out, cur, size, false)
  {
    assert i < |t| ==> t[i..][0] == t[i];
  }

  /** The last label gets its length and, unless it is the root, a root label after it. */
  method FinishLabel(dst: array<Octet>, slot: nat, bp0: nat, ghost out: seq<Octet>, ghost cur: Label, qualified: bool)
    returns (r: int)
    requires Filled(dst[..], slot, bp0, out, cur)
    modifies dst
    ensures (r == -1) == Finish(out, cur, dst.Length, qualified).Refused?
    ensures r != -1 ==>
      r == (if qualified then 1 else 0) && Finish(out, cur, dst.Length, qualified).qualified == qualified
    ensures r != -1 ==> var w := Finish(out, cur, dst.Length, qualified).wire; |w| <= dst.Length && dst[..|w|] == w
  {
    var bp := bp0;
    var c := bp - slot - 1;
    if c > 63 || slot >= dst.Length {
      return -1;
    }
    FilledLabel(dst[..], slot, bp, out, cur);
    dst[slot] := c;
    if c != 0 {
      if bp >= dst.Length {
        return -1;
      }
      dst[bp] := 0;
      bp := bp + 1;
    }
    if bp > MAXCDNAME {
      return -1;
    }
    r := if qualified then 1 else 0;
  }

  /** Parse a text into a buffer: -1, or whether the text was fully qualified. */
  method ParseText(t: seq<Octet>, dst: array<Octet>) returns (r: int)
    modifies dst
    ensures var p := Pton(t, [], [], dst.Length);
            && (r == -1) == p.Refused?
            && (p.Parsed? ==>
              r == (if p.qualified then 1 else 0) && |p.wire| <= dst.Length && dst[..|p.wire|] == p.wire)
  {
    hide Pton, Finish, Unescape;
    var slot, bp, i := 0, 1, 0;
    ghost var out, cur: Label := [], [];
    assert t[0..] == t && dst[..0] == [];
    while i < |t|
      invariant 0 <= i <= |t| && 0 <= slot < bp && Filled(dst[..], slot, bp, out, cur)
      invariant Pton(t[i..], out, cur, dst.Length) == Pton(t, [], [], dst.Length)
      decreases |t| - i
    {
      if t[i] == DOT {
        PtonSeparator(t, i, out, cur, dst.Length);
        if bp - slot - 1 > 63 || slot >= dst.Length {
          return -1;
        }
        if i + 1 == |t| {
          r := FinishLabel(dst, slot, bp, out, cur, true);
          return;
        }
        FilledLabel(dst[..], slot, bp, out, cur);
        dst[slot] := bp - slot - 1;
        if bp - slot - 1 == 0 || t[i + 1] == DOT {
          return -1;
        }
        out, cur := out + [|cur| as Octet] + cur, [];
        slot := bp;
        bp := bp + 1;
        i := i + 1;
      } else if t[i] == BACKSLASH && i + 1 == |t| {
        break;
      } else {
        PtonChar(t, i, out, cur, dst.Length);
        var (k, c) := Unescape(t, i);
        if k == 0 || bp >= dst.Length {
          return -1;
        }
        FilledNext(dst[..], slot, bp, out, cur, c);
        dst[bp] := c;
        cur := cur + [c];
        bp := bp + 1;
        i := i + k;
      }
    }
    PtonStop(t, i, out, cur, dst.Length);
    r := FinishLabel(dst, slot, bp, out, cur, false);
  }

  /** A legal name always fits a buffer of 1025 bytes, and its text is parsed back. */
  method PrintAndParse(ls: seq<Label>, text: array<Octet>, wire: array<Octet>) returns (n: int)
    requires NameOk(ls) && text.Length == 1025 && wire.Length == MAXCDNAME && text != wire
    modifies text, wire
    ensures 0 < n <= 1025 && text[..n] == Text(ls) + [0]
    ensures wire[..|Wire(ls)|] == Wire(ls)
  {
    hide Pton;
    TextFits(ls);
    RoundTrip(ls);
    var w := Wire(ls);
    assert w[0..|w|] == w;
    n := Ntop(w, text, ls);
    ghost var s := text[..n];
    assert s[..n - 1] == Text(ls);
    assert text[..n - 1] == s[..n - 1];
    var r := ParseText(text[..n - 1], wire);
  }
}
