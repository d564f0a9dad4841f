/**
  Packing names into a message with compression: the search for a suffix that
  is there already, and what every message built this way keeps.
 */
module DnsPack {
  import opened DnsNames
  import opened DnsText
  import opened DnsExpand

  /** ASCII letters in lower case. */
  function Lower(c: Octet): Octet {
    if 0x41 <= c <= 0x5A then c + 0x20 else c
  }

  predicate UpperCase(c: Octet) {
    0x41 <= c <= 0x5A
  }

  /** The same octet, or the two cases of one ASCII letter (section 2.3.3 of RFC 1035). */
  predicate Alike(c: Octet, d: Octet) {
    c == d || (UpperCase(c) && d == c + 0x20) || (UpperCase(d) && c == d + 0x20)
  }

  lemma LowerIsAlike(c: Octet, d: Octet)
    ensures Lower(c) == Lower(d) <==> Alike(c, d)
  {
  }

  /** Octet by octet alike. */
  predicate SameLabel(a: Label, b: Label) {
    |a| == |b| && forall i {:trigger a[i]} :: 0 <= i < |a| ==> Alike(a[i], b[i])
  }

  /** Equal up to ASCII case. */
  predicate Same(a: seq<Label>, b: seq<Label>) {
    if a == [] || b == [] then a == b else SameLabel(a[0], b[0]) && Same(a[1..], b[1..])
  }

  /** Label by label, and octet by octet. */
  lemma {:induction false} SameIs(a: seq<Label>, b: seq<Label>)
    ensures Same(a, b) <==>
            |a| == |b| && forall i {:trigger a[i]} :: 0 <= i < |a| ==> SameLabel(a[i], b[i])
  {
    if a != [] && b != [] {
      SameIs(a[1..], b[1..]);
      if |a| == |b| {
        var v, w := a[1..], b[1..];
        assert forall i :: 0 < i < |a| ==> a[i] == v[i - 1] && b[i] == w[i - 1];
        assert forall i {:trigger v[i]} :: 0 <= i < |v| ==> v[i] == a[i + 1] && w[i] == b[i + 1];
      }
    }
  }

  predicate Letterless(l: Label) {
    forall i {:trigger l[i]} :: 0 <= i < |l| ==> !UpperCase(l[i]) && !(l[i] >= 0x20 && UpperCase(l[i] - 0x20))
  }

  /** Names without letters are the same only if they are equal. */
  lemma {:induction false} LetterlessSame(a: seq<Label>, b: seq<Label>)
    requires Same(a, b) && forall i {:trigger a[i]} :: 0 <= i < |a| ==> Letterless(a[i])
    ensures a == b
  {
    if a != [] {
      assert Letterless(a[0]);
      assert a[0] == b[0];
      LetterlessSame(a[1..], b[1..]);
      assert a == [a[0]] + a[1..] && b == [b[0]] + b[1..];
    }
  }

  lemma {:induction false} SameReflexive(a: seq<Label>)
    ensures Same(a, a)
  {
    if a != [] { SameReflexive(a[1..]); }
  }

  lemma {:induction false} SameLength(a: seq<Label>, b: seq<Label>)
    requires Same(a, b) && LabelsOk(a)
    ensures LabelsOk(b) && |Wire(a)| == |Wire(b)|
  {
    if a != [] {
      assert LabelOk(a[0]);
      assert LabelsOk(a[1..]);
      SameLength(a[1..], b[1..]);
      forall i {:trigger b[i]} | 0 <= i < |b| ensures LabelOk(b[i]) {
        if i > 0 { assert b[i] == b[1..][i - 1]; }
      }
    }
  }

  /** A stretch of the message that can be read as a name. */
  datatype Stretch = Stretch(start: nat, lim: nat, read: seq<Label>)

  ghost predicate StretchOk(msg: seq<Octet>, used: nat, s: Stretch) {
    && s.start < s.lim <= used <= |msg| && LabelsOk(s.read)
    && NameAt(msg, s.start, s.lim, s.start, s.read)
  }

  lemma StretchFrame(a: seq<Octet>, b: seq<Octet>, used: nat, used2: nat, s: Stretch)
    requires StretchOk(a, used, s) && used <= used2 <= |b| && a[..used] == b[..used]
    ensures StretchOk(b, used2, s)
    ensures OwnEnd(b, s.start, s.lim, s.start, s.read) == OwnEnd(a, s.start, s.lim, s.start, s.read)
  {
    assert a[..s.lim] == a[..used][..s.lim] == b[..s.lim];
    NameAtFrame(a, b, s.start, s.lim, s.start, s.read);
  }

  method SameOctets(src: seq<Octet>, dn: nat, buf: array<Octet>, cp: nat, n: nat) returns (same: bool)
    requires dn + n <= |src| && cp + n <= buf.Length
    ensures same <==> SameLabel(src[dn..dn + n], buf[cp..cp + n])
  {
    ghost var a, b := src[dn..dn + n], buf[cp..cp + n];
    var i := 0;
    while i < n
      invariant i <= n && forall j {:trigger a[j]} :: 0 <= j < i ==> Alike(a[j], b[j])
    {
      LowerIsAlike(src[dn + i], buf[cp + i]);
      if Lower(src[dn + i]) != Lower(buf[cp + i]) {
        assert !Alike(a[i], b[i]);
        return false;
      }
      i := i + 1;
    }
    same := true;
  }

  /** What can stand at a position of a name with labels left. */
  lemma NameStep(msg: seq<Octet>, base: nat, lim: nat, p: nat, ls: seq<Label>)
    requires NameAt(msg, base, lim, p, ls)
    ensures p < lim <= |msg| && (ls == [] <==> msg[p] == 0)
    ensures ls != [] && IsPointer(msg[p]) ==> p + 1 < lim && Target(msg[p], msg[p + 1]) < base
    ensures ls != [] && IsPointer(msg[p]) ==>
      NameAt(msg, Target(msg[p], msg[p + 1]), base, Target(msg[p], msg[p + 1]), ls)
    ensures ls != [] && !IsPointer(msg[p]) ==> IsPlain(msg[p]) && msg[p] == |ls[0]| && p + 1 + |ls[0]| <= |msg|
    ensures ls != [] && !IsPointer(msg[p]) ==>
      msg[p + 1..p + 1 + |ls[0]|] == ls[0] && NameAt(msg, base, lim, p + 1 + |ls[0]|, ls[1..])
  {
  }

  /** Compare a wire name with the name at a position of the message, following its pointers. */
  method SameNameAt(buf: array<Octet>, src: seq<Octet>, domain: nat, sp: nat, ghost s: Stretch, ghost ls: seq<Label>)
    returns (same: bool)
    requires WireAt(src, domain, ls) && ls != [] && s.read != [] && NameAt(buf[..], s.start, s.lim, sp, s.read)
    ensures same <==> Same(ls, s.read)
  {
    hide NameAt, WireAt, Same, SameLabel, IsPointer;
    ghost var msg, base, lim, la, lb := buf[..], s.start, s.lim, ls, s.read;
    var dn: nat, cp: nat := domain, sp;
    LabelAt(src, dn, la);
    NameStep(msg, base, lim, cp, lb);
    while true
      invariant WireAt(src, dn, la) && la != [] && lb != [] && NameAt(msg, base, lim, cp, lb)
      invariant Same(ls, s.read) <==> Same(la, lb)
      decreases base, |lb|
    {
      LabelAt(src, dn, la);
      NameStep(msg, base, lim, cp, lb);
      var n := buf[cp];
      if IsPointer(n) {
        base, lim := Target(n, buf[cp + 1]), base;
        cp := Target(n, buf[cp + 1]);
      } else {
        SameStep(la, lb);
        if n != src[dn] {
          return false;
        }
        var octets := SameOctets(src, dn + 1, buf, cp + 1, n);
        if !octets {
          return false;
        }
        var len: nat := n;
        dn, cp := dn + 1 + len, cp + 1 + len;
        la, lb := la[1..], lb[1..];
        LabelAt(src, dn, la);
        NameStep(msg, base, lim, cp, lb);
        SameEnd(la, lb);
        if src[dn] == 0 && buf[cp] == 0 {
          return true;
        }
        if src[dn] == 0 || buf[cp] == 0 {
          return false;
        }
      }
    }
  }

  lemma SameStep(a: seq<Label>, b: seq<Label>)
    requires a != [] && b != []
    ensures Same(a, b) <==> SameLabel(a[0], b[0]) && Same(a[1..], b[1..])
    ensures |a[0]| != |b[0]| ==> !Same(a, b)
  {
  }

  lemma SameEnd(a: seq<Label>, b: seq<Label>)
    ensures a == [] || b == [] ==> (Same(a, b) <==> a == [] && b == [])
  {
  }

  /** No usable suffix that is spelled out in a stretch from position p on is the name. */
  ghost predicate Unmatched(msg: seq<Octet>, p: nat, read: seq<Label>, ls: seq<Label>)
    decreases |read|
  {
    read == [] || p >= |msg| || IsPointer(msg[p]) || p >= 0x4000
    || (!Same(ls, read) && Unmatched(msg, p + 1 + |read[0]|, read[1..], ls))
  }

  /** Nor can it be matched when only the used octets are looked at. */
  lemma {:induction false} UnmatchedPrefix(msg: seq<Octet>, used: nat, p: nat, read: seq<Label>, ls: seq<Label>)
    requires Unmatched(msg, p, read, ls) && used <= |msg|
    ensures Unmatched(msg[..used], p, read, ls)
    decreases |read|
  {
    if read != [] && p < used && !IsPointer(msg[p]) && p < 0x4000 {
      UnmatchedPrefix(msg, used, p + 1 + |read[0]|, read[1..], ls);
    }
  }

  /** The name ls without its first j labels is not to be found through any of the saved stretches. */
  ghost predicate Missed(msg: seq<Octet>, saved: seq<Stretch>, ls: seq<Label>, j: nat)
    requires j <= |ls|
  {
    forall i {:trigger saved[i]} :: 0 <= i < |saved| ==> Unmatched(msg, saved[i].start, saved[i].read, ls[j..])
  }

  /** The first k labels of ls have to be written out. */
  ghost predicate AllMissed(msg: seq<Octet>, saved: seq<Stretch>, ls: seq<Label>, k: nat) {
    k <= |ls| && forall j: nat {:trigger Missed(msg, saved, ls, j)} :: j < k ==> Missed(msg, saved, ls, j)
  }

  /** Octets for the first k labels and for what ends the name. */
  function PackedSize(ls: seq<Label>, k: nat): nat
    requires LabelsOk(ls) && k <= |ls|
  {
    |Counted(ls[..k])| + if k < |ls| then 2 else 1
  }

  lemma MissedNext(msg: seq<Octet>, saved: seq<Stretch>, ls: seq<Label>, pre: seq<Label>, la: seq<Label>)
    requires AllMissed(msg, saved, ls, |pre|) && pre + la == ls && la != []
    requires forall i {:trigger saved[i]} :: 0 <= i < |saved| ==> Unmatched(msg, saved[i].start, saved[i].read, la)
    ensures AllMissed(msg, saved, ls, |pre| + 1)
  {
    hide Unmatched;
    assert ls[|pre|..] == la;
    assert Missed(msg, saved, ls, |pre|);
  }

  lemma NoneMissed(msg: seq<Octet>, saved: seq<Stretch>, ls: seq<Label>)
    ensures AllMissed(msg, saved, ls, 0)
  {
  }

  lemma SizeIs(pre: seq<Label>, la: seq<Label>, ls: seq<Label>)
    requires LabelsOk(ls) && LabelsOk(pre) && pre + la == ls
    ensures PackedSize(ls, |pre|) == |Counted(pre)| + if la == [] then 1 else 2
    ensures la != [] && LabelOk(la[0]) ==>
      PackedSize(ls, |pre| + 1) == |Counted(pre)| + 1 + |la[0]| + if |la| == 1 then 1 else 2
  {
    assert ls[..|pre|] == pre;
    if la != [] && LabelOk(la[0]) {
      assert ls[..|pre| + 1] == pre + [la[0]];
      CountedSnoc(pre, la[0]);
    }
  }

  /** Counted labels without a root. */
  function Counted(ls: seq<Label>): seq<Octet>
    requires LabelsOk(ls)
  {
    if ls == [] then [] else [|ls[0]| as Octet] + ls[0] + Counted(ls[1..])
  }

  lemma {:induction false} CountedSnoc(ls: seq<Label>, l: Label)
    requires LabelsOk(ls) && LabelOk(l)
    ensures LabelsOk(ls + [l]) && Counted(ls + [l]) == Counted(ls) + [|l| as Octet] + l
  {
    if ls == [] {
      assert (ls + [l])[1..] == [];
    } else {
      assert (ls + [l])[1..] == ls[1..] + [l];
      CountedSnoc(ls[1..], l);
    }
  }

  /** One label before a name. */
  lemma NameCons(msg: seq<Octet>, base: nat, lim: nat, p: nat, l: Label, rest: seq<Label>)
    requires LabelOk(l) && base <= p && NameAt(msg, base, lim, p + 1 + |l|, rest)
    requires p + 1 + |l| <= |msg| && msg[p] == |l| && msg[p + 1..p + 1 + |l|] == l
    ensures NameAt(msg, base, lim, p, [l] + rest)
    ensures OwnEnd(msg, base, lim, p, [l] + rest) == OwnEnd(msg, base, lim, p + 1 + |l|, rest)
  {
    var ls := [l] + rest;
    assert ls[0] == l && ls[1..] == rest;
  }

  /** Labels written out before a name make a longer name. */
  lemma {:induction false} LabelsBefore(msg: seq<Octet>, base: nat, lim: nat, p: nat, pre: seq<Label>, end: nat,
                                        rest: seq<Label>)
    requires LabelsOk(pre) && base <= p && NameAt(msg, base, lim, end, rest)
    requires p <= end <= |msg| && msg[p..end] == Counted(pre)
    ensures NameAt(msg, base, lim, p, pre + rest)
    ensures OwnEnd(msg, base, lim, p, pre + rest) == OwnEnd(msg, base, lim, end, rest)
    decreases |pre|
  {
    hide *;
    if pre == [] {
      NoneCounted(pre);
      assert p == end && pre + rest == rest;
    } else {
      var l, n := pre[0], |pre[0]|;
      CountedAt(msg, p, end, pre);
      HeadApart(pre, rest);
      LabelsBefore(msg, base, lim, p + 1 + n, pre[1..], end, rest);
      NameCons(msg, base, lim, p, l, pre[1..] + rest);
    }
  }

  lemma NoneCounted(ls: seq<Label>)
    requires LabelsOk(ls) && ls == []
    ensures Counted(ls) == []
  {
  }

  lemma HeadApart(pre: seq<Label>, rest: seq<Label>)
    requires pre != []
    ensures pre + rest == [pre[0]] + (pre[1..] + rest)
  {
  }

  lemma CountedAt(msg: seq<Octet>, p: nat, end: nat, pre: seq<Label>)
    requires LabelsOk(pre) && pre != [] && p <= end <= |msg| && msg[p..end] == Counted(pre)
    ensures LabelOk(pre[0]) && LabelsOk(pre[1..]) && p + 1 + |pre[0]| <= end && msg[p] == |pre[0]|
    ensures msg[p + 1..p + 1 + |pre[0]|] == pre[0] && msg[p + 1 + |pre[0]|..end] == Counted(pre[1..])
  {
    var l, more := pre[0], Counted(pre[1..]);
    var n, c := |l|, Counted(pre);
    assert LabelOk(l);
    assert c == [n as Octet] + l + more;
    hide Counted, LabelsOk;
    assert |c| == end - p && msg[p] == msg[p..end][0];
    SubSlice(msg, p, end, 1, 1 + n);
    SubSlice(msg, p, end, 1 + n, |c|);
    assert c[1..1 + n] == l && c[1 + n..|c|] == more;
  }

  /** How a pointer can end a name, or leave it open. */
  datatype End = Open | NoRoom | Done

  /** A message under construction: the buffer, and where names were saved for pointers. */
  class Message {
    const buf: array<Octet>
    // slots of the pointer array, counting the start of the message and the terminator
    const slots: nat
    var dnptrs: seq<nat>
    var used: nat
    ghost var saved: seq<Stretch>
    // every name packed so far: what stands in the message, and what was asked for
    ghost var packed: seq<(Stretch, seq<Label>)>

    ghost predicate SavedAt(i: int)
      requires 0 <= i < |saved| <= |dnptrs|
      reads this, buf
    {
      dnptrs[i] == saved[i].start && StretchOk(buf[..], used, saved[i])
    }

    /** The entries up to the end of the list as it was found describe names in the message. */
    ghost predicate Listed()
      reads this, buf
    {
      && used <= buf.Length && |saved| <= |dnptrs|
      && (forall i {:trigger SavedAt(i)} :: 0 <= i < |saved| ==> SavedAt(i))
      && (forall i {:trigger PackedAt(i)} :: 0 <= i < |packed| ==> PackedAt(i))
    }

    ghost predicate PackedAt(i: int)
      requires 0 <= i < |packed|
      reads this, buf
    {
      PackedOk(buf[..], used, packed[i])
    }

    ghost predicate Valid()
      reads this, buf
    {
      Listed() && |saved| == |dnptrs|
    }

    /** Find a name that is spelled out, or whose end is, in a saved stretch. */
    method Find(src: seq<Octet>, domain: nat, lpp: nat, ghost ls: seq<Label>) returns (r: int, ghost hit: Stretch)
      requires Listed() && lpp == |saved| && WireAt(src, domain, ls) && ls != []
      ensures r >= 0 ==> r == hit.start < 0x4000 && StretchOk(buf[..], used, hit) && Same(ls, hit.read)
      ensures r < 0 ==>
        r == -1 && forall i {:trigger saved[i]} :: 0 <= i < |saved| ==>
        Unmatched(buf[..used], saved[i].start, saved[i].read, ls)
    {
      hide WireAt, Same, Unmatched, NameAt;
      var cpp := 0;
      hit := Stretch(0, 0, []);
      while cpp < lpp
        invariant 0 <= cpp <= lpp
        invariant forall i {:trigger saved[i]} :: 0 <= i < cpp ==>
                  Unmatched(buf[..used], saved[i].start, saved[i].read, ls)
      {
        assert SavedAt(cpp);
        r, hit := FindIn(buf, used, src, domain, ls, dnptrs[cpp], saved[cpp]);
        if r >= 0 {
          return;
        }
        UnmatchedPrefix(buf[..], used, saved[cpp].start, saved[cpp].read, ls);
        assert buf[..][..used] == buf[..used];
        cpp := cpp + 1;
      }
      r := -1;
    }

    constructor (b: array<Octet>, n: nat)
      ensures Valid() && buf == b && slots == n && used == 0 && packed == [] && dnptrs == []
    {
      buf, slots, used := b, n, 0;
      dnptrs, saved, packed := [], [], [];
    }

    /** The entries survive writes behind the used part. */
    lemma StillListed(was: seq<Octet>)
      requires used <= buf.Length == |was| && was[..used] == buf[..used] && |saved| <= |dnptrs|
      requires forall i {:trigger saved[i]} :: 0 <= i < |saved| ==>
               dnptrs[i] == saved[i].start && StretchOk(was, used, saved[i])
      requires forall i {:trigger packed[i]} :: 0 <= i < |packed| ==> PackedOk(was, used, packed[i])
      ensures Listed()
    {
      hide StretchOk;
      forall i {:trigger SavedAt(i)} | 0 <= i < |saved| ensures SavedAt(i) {
        StretchFrame(was, buf[..], used, used, saved[i]);
      }
      forall i {:trigger PackedAt(i)} | 0 <= i < |packed| ensures PackedAt(i) {
        PackedFrame(was, buf[..], used, used, packed[i]);
      }
    }

    /** Other content, behind the names packed so far. */
    method Put(octets: seq<Octet>)
      requires Valid() && used + |octets| <= buf.Length
      modifies this`used, buf
      ensures Valid() && used == old(used) + |octets|
      ensures buf[..used] == old(buf[..used]) + octets
    {
      ghost var was := buf[..];
      Remember();
      CopyOctets(buf, used, octets, 0, |octets|);
      assert octets[0..|octets|] == octets;
      assert was[..used] == buf[..used] by { assert buf[..used] == buf[..used + |octets|][..used]; }
      StillListed(was);
      Advance(|octets|);
      used := used + |octets|;
    }

    lemma Remember()
      requires Listed()
      ensures forall i {:trigger saved[i]} :: 0 <= i < |saved| ==>
              dnptrs[i] == saved[i].start && StretchOk(buf[..], used, saved[i])
      ensures forall i {:trigger packed[i]} :: 0 <= i < |packed| ==> PackedOk(buf[..], used, packed[i])
    {
      hide StretchOk;
      forall i {:trigger saved[i]} | 0 <= i < |saved|
        ensures dnptrs[i] == saved[i].start && StretchOk(buf[..], used, saved[i]) {
        assert SavedAt(i);
      }
      forall i {:trigger packed[i]} | 0 <= i < |packed| ensures PackedOk(buf[..], used, packed[i]) {
        assert PackedAt(i);
      }
    }

    lemma Advance(n: nat)
      requires Listed() && used + n <= buf.Length
      ensures forall i {:trigger saved[i]} :: 0 <= i < |saved| ==> StretchOk(buf[..], used + n, saved[i])
      ensures forall i {:trigger packed[i]} :: 0 <= i < |packed| ==> PackedOk(buf[..], used + n, packed[i])
    {
      Remember();
      forall i {:trigger saved[i]} | 0 <= i < |saved| ensures StretchOk(buf[..], used + n, saved[i]) {
        StretchFrame(buf[..], buf[..], used, used + n, saved[i]);
      }
      forall i {:trigger packed[i]} | 0 <= i < |packed| ensures PackedOk(buf[..], used + n, packed[i]) {
        PackedFrame(buf[..], buf[..], used, used + n, packed[i]);
      }
    }

    /** The name now standing behind the used part becomes part of the message. */
    method Commit(end: nat, ghost read: seq<Label>, ghost ls: seq<Label>)
      requires Listed() && used < end <= buf.Length
      requires |dnptrs| == |saved| || (|dnptrs| == |saved| + 1 && dnptrs[|saved|] == used)
      requires PackedOk(buf[..], end, (Stretch(used, end, read), ls))
      modifies this`used, this`saved, this`packed
      ensures Valid() && used == end && packed == old(packed) + [(Stretch(old(used), end, read), ls)]
      ensures saved == if |dnptrs| == |old(saved)| then old(saved) else old(saved) + [Stretch(old(used), end, read)]
    {
      hide StretchOk, PackedOk;
      ghost var s := Stretch(used, end, read);
      Remember();
      Advance(end - used);
      CommittedIsOk(buf[..], end, s, ls);
      used := end;
      packed := packed + [(s, ls)];
      if |dnptrs| > |saved| {
        saved := saved + [s];
      }
      assert forall i {:trigger SavedAt(i)} :: 0 <= i < |saved| ==> SavedAt(i);
      assert forall i {:trigger PackedAt(i)} :: 0 <= i < |packed| ==> PackedAt(i);
    }

    /**
      Every name packed so far, expanded where it starts, comes out as that
      name up to ASCII case and consumes exactly the octets it was packed into,
      whatever follows in the message; the loop check never refuses it.
     */
    lemma PackedExpands(i: nat, eom: nat)
      requires Valid() && i < |packed| && used <= eom <= buf.Length
      ensures var (s, name) := packed[i];
              && s.start < s.lim <= eom && NameOk(s.read) && NameOk(name) && Same(name, s.read)
              && Expand(buf[..eom], s.start, MAXCDNAME, 0, [], -1, s.start) == Expanded(s.lim - s.start, Wire(s.read))
      ensures var (s, name) := packed[i];
              && |name| == |s.read|
                && (forall j {:trigger name[j]} :: 0 <= j < |name| ==> SameLabel(name[j], s.read[j]))
              && ((forall j {:trigger name[j]} :: 0 <= j < |name| ==> Letterless(name[j])) ==> s.read == name)
    {
      hide Expand, Wire, NameAt, OwnEnd, Same;
      assert PackedAt(i);
      var (s, name) := packed[i];
      var msg := buf[..eom];
      assert buf[..][..used] == msg[..used];
      StretchFrame(buf[..], msg, used, used, s);
      SameLength(name, s.read);
      SameIs(name, s.read);
      if forall j {:trigger name[j]} :: 0 <= j < |name| ==> Letterless(name[j]) { LetterlessSame(name, s.read); }
      assert [] + Wire(s.read) == Wire(s.read);
      ExpandReads(msg, s.start, s.lim, s.start, s.read, MAXCDNAME, 0, [], -1, s.start, s.lim);
    }

    /** Forget the pointer that was saved for a name that does not fit. */
    method Cleanup(lpp: nat)
      requires Listed() && lpp == |saved|
      modifies this`dnptrs
      ensures Valid() && dnptrs == old(dnptrs)[..lpp]
    {
      hide StretchOk;
      Remember();
      dnptrs := dnptrs[..lpp];
      assert forall i {:trigger SavedAt(i)} :: 0 <= i < |saved| ==> SavedAt(i);
      assert forall i {:trigger PackedAt(i)} :: 0 <= i < |packed| ==> old(PackedAt(i));
    }

    method Save(dstp: nat)
      requires Listed()
      modifies this`dnptrs
      ensures Listed() && dnptrs == old(dnptrs) + [dstp]
    {
      hide StretchOk;
      Remember();
      dnptrs := dnptrs + [dstp];
      assert forall i {:trigger SavedAt(i)} :: 0 <= i < |saved| ==> SavedAt(i);
      assert forall i {:trigger PackedAt(i)} :: 0 <= i < |packed| ==> old(PackedAt(i));
    }

    /** End a name with a pointer to a stretch that reads like the rest of it. */
    method PutPointer(dstp: nat, l: nat, ghost pre: seq<Label>, ghost la: seq<Label>, ghost hit: Stretch)
      requires Listed() && used <= dstp && dstp + 2 <= buf.Length
      requires |dnptrs| == |saved| || (|dnptrs| == |saved| + 1 && dnptrs[|saved|] == used)
      requires LabelsOk(pre) && LabelsOk(la) && la != [] && NameOk(pre + la) && buf[used..dstp] == Counted(pre)
      requires l == hit.start < 0x4000 && StretchOk(buf[..], used, hit) && Same(la, hit.read)
      modifies this`used, this`saved, this`packed, buf
      ensures Valid() && buf[..old(used)] == old(buf[..used]) && used == dstp + 2
      ensures exists read :: packed == old(packed) + [(Stretch(old(used), used, read), pre + la)]
      ensures |packed| > |old(packed)|
      ensures saved == if |dnptrs| == |old(saved)| then old(saved) else old(saved) + [packed[|old(packed)|].0]
    {
      hide LabelsOk, Counted, Same, StretchOk, PackedOk;
      ghost var was := buf[..];
      var pair := [0xC0 + l / 256, l % 256];
      Write(dstp, pair, 0, 2);
      StretchFrame(was, buf[..], used, used, hit);
      PointerEnds(buf[..], used, dstp, pre, la, hit, pair);
      Commit(dstp + 2, pre + hit.read, pre + la);
    }

    /** End a name with its root label. */
    method PutRoot(dstp: nat, src: seq<Octet>, srcp: nat, ghost pre: seq<Label>, ghost la: seq<Label>)
      requires Listed() && used <= dstp < buf.Length && srcp < |src| && src[srcp] == 0
      requires |dnptrs| == |saved| || (|dnptrs| == |saved| + 1 && dnptrs[|saved|] == used)
      requires LabelsOk(pre) && la == [] && NameOk(pre + la) && buf[used..dstp] == Counted(pre)
      modifies this`used, this`saved, this`packed, buf
      ensures Valid() && buf[..old(used)] == old(buf[..used]) && used == dstp + 1
      ensures exists read :: packed == old(packed) + [(Stretch(old(used), used, read), pre + la)]
      ensures |packed| > |old(packed)|
      ensures saved == if |dnptrs| == |old(saved)| then old(saved) else old(saved) + [packed[|old(packed)|].0]
    {
      hide LabelsOk, Counted, Same, StretchOk, PackedOk;
      assert pre + la == pre;
      Write(dstp, src, srcp, 1);
      RootEnds(buf[..], used, dstp, pre, src, srcp);
      Commit(dstp + 1, pre, pre + la);
    }

    /** Octets written behind the used part leave the entries alone. */
    method Write(at: nat, src: seq<Octet>, start: nat, n: nat)
      requires Listed() && used <= at && at + n <= buf.Length && start + n <= |src|
      modifies buf
      ensures Listed()
      ensures buf[..used] == old(buf[..used]) && buf[used..at + n] == old(buf[used..at]) + src[start..start + n]
    {
      hide StretchOk, PackedOk;
      ghost var was := buf[..];
      Remember();
      CopyOctets(buf, at, src, start, n);
      WrittenBehind(was, buf[..], used, at, src[start..start + n]);
      StillListed(was);
    }

    /** If the rest of a name is found in the message, end the name with a pointer, or report that there is no room. */
    method TryPointer(src: seq<Octet>, srcp: nat, dstp: nat, eob: nat, lpp: nat, ghost pre: seq<Label>,
                      ghost la: seq<Label>) returns (end: End)
      requires Listed() && lpp == |saved| && WireAt(src, srcp, la) && la != []
      requires |dnptrs| == |saved| || (|dnptrs| == |saved| + 1 && dnptrs[|saved|] == used)
      requires LabelsOk(pre) && LabelsOk(la) && NameOk(pre + la)
      requires used <= dstp <= eob <= buf.Length && buf[used..dstp] == Counted(pre)
      modifies this, buf
      ensures end == Open ==> Listed() && buf[..] == old(buf[..]) && dnptrs == old(dnptrs)
      ensures end == Open ==>
        forall i {:trigger saved[i]} :: 0 <= i < |saved| ==> Unmatched(buf[..used], saved[i].start, saved[i].read, la)
      ensures end == NoRoom ==> dstp + 2 > eob && Valid() && buf[..] == old(buf[..]) && dnptrs == old(dnptrs)[..lpp]
      ensures end != Done ==> used == old(used) && saved == old(saved) && packed == old(packed)
      ensures end == Done ==>
        Valid() && used == dstp + 2 <= eob && buf[..old(used)] == old(buf[..used]) && |packed| > |old(packed)|
      ensures end == Done ==> exists read :: packed == old(packed) + [(Stretch(old(used), used, read), pre + la)]
      ensures end == Done ==>
        saved == if |old(dnptrs)| == |old(saved)| then old(saved) else old(saved) + [packed[|old(packed)|].0]
    {
      hide WireAt, Wire, Counted, LabelsOk, StretchOk, PackedOk, Same, Unmatched;
      var l;
      ghost var hit;
      l, hit := Find(src, srcp, lpp, la);
      if l < 0 {
        return Open;
      }
      if dstp + 1 >= eob {
        Cleanup(lpp);
        return NoRoom;
      }
      PutPointer(dstp, l, pre, la, hit);
      return Done;
    }

    /**
      Pack a name: labels until the rest of the name is found in the message, then a
      pointer; or a root. The k labels written out could not be found, and packing
      fails exactly when the name is too long or these labels, with what ends the
      name, do not fit; a root label needs one octet more than it fills. The place is
      saved for later names unless nothing was written out or it cannot be saved.
     */
    method Pack(src: seq<Octet>, dstsiz: nat, ghost ls: seq<Label>) returns (n: int, ghost k: nat)
      requires Valid() && WireAt(src, 0, ls) && used + dstsiz <= buf.Length
      modifies this, buf
      ensures Valid() && buf[..old(used)] == old(buf[..used])
      ensures AllMissed(old(buf[..used]), old(saved), ls, k) && k <= |ls| && LabelsOk(ls)
      ensures n == -1 <==> |Wire(ls)| > MAXCDNAME || PackedSize(ls, k) + (if k < |ls| then 0 else 1) > dstsiz
      ensures n == -1 ==> used == old(used) && packed == old(packed) && dnptrs == old(dnptrs)
      ensures n != -1 ==> n == PackedSize(ls, k) <= |Wire(ls)| && used == old(used) + n
      ensures n != -1 ==> exists read :: packed == old(packed) + [(Stretch(old(used), used, read), ls)]
      ensures n == -1 ==> saved == old(saved)
      ensures n != -1 ==> |packed| > |old(packed)|
      ensures n != -1 ==>
                var remembered := k > 0 && |old(dnptrs)| + 2 < slots && old(used) < 0x4000;
                saved == if remembered then old(saved) + [packed[|old(packed)|].0] else old(saved)
    {
      hide WireAt, Wire, Counted, LabelsOk, StretchOk, PackedOk, SameLabel, Same, Unmatched, Missed, AllMissed,
           PackedSize, Listed;
      WireOk(src, 0, ls);
      k := 0;
      NoneMissed(buf[..used], saved, ls);
      var legal := LegalLength(src, ls);
      if !legal {
        return -1, k;
      }
      var lpp, dst := |dnptrs|, used;
      var srcp: nat, dstp: nat, first := 0, used, true;
      var eob := used + dstsiz;
      ghost var pre: seq<Label>, la := [], ls;
      StartPacking(buf[..], used, ls);
      while true
        invariant Listed() && lpp == |saved| <= |dnptrs| && dnptrs[..lpp] == old(dnptrs)
        invariant used == old(used) && packed == old(packed) && saved == old(saved)
        invariant WireAt(src, srcp, la) && LabelsOk(pre) && LabelsOk(la) && pre + la == ls
        invariant used <= dstp <= eob <= buf.Length
        invariant buf[..used] == old(buf[..used]) && buf[used..dstp] == Counted(pre)
        invariant dstp - used + |Wire(la)| == |Wire(ls)|
        invariant first ==> |dnptrs| == lpp && (pre == [] || |dnptrs| + 2 >= slots || used >= 0x4000)
        invariant !first ==> |dnptrs| == lpp + 1 && dnptrs[lpp] == used && pre != [] && lpp + 2 < slots && used < 0x4000
        invariant k == |pre| && AllMissed(old(buf[..used]), old(saved), ls, k)
        decreases |la|
      {
        LabelAt(src, srcp, la);
        RestFits(la);
        SizeIs(pre, la, ls);
        if src[srcp] != 0 {
          var end := TryPointer(src, srcp, dstp, eob, lpp, pre, la);
          if end != Open {
            return if end == Done then used - dst else -1, k;
          }
          MissedNext(buf[..used], saved, ls, pre, la);
          k := k + 1;
          if |dnptrs| + 2 < slots && dstp < 0x4000 && first {
            FirstIsStart(buf[..], used, dstp, pre);
            Save(dstp);
            first := false;
          }
        }
        var len: nat := src[srcp];
        if dstp + 1 + len >= eob {
          Cleanup(lpp);
          return -1, k;
        }
        if len == 0 {
          PutRoot(dstp, src, srcp, pre, la);
          return used - dst, k;
        }
        Write(dstp, src, srcp, len + 1);
        LabelWritten(src, srcp, pre, la);
        srcp, dstp := srcp + len + 1, dstp + len + 1;
        pre, la := pre + [la[0]], la[1..];
      }
    }
  }

  /** Add up the counted labels and refuse more than 255 octets. */
  method LegalLength(src: seq<Octet>, ghost ls: seq<Label>) returns (legal: bool)
    requires WireAt(src, 0, ls)
    ensures legal <==> |Wire(ls)| <= MAXCDNAME
  {
    hide WireAt, Wire, LabelsOk;
    WireOk(src, 0, ls);
    var l: nat, srcp: nat := 0, 0;
    ghost var la := ls;
    while true
      invariant WireAt(src, srcp, la) && LabelsOk(la) && l + |Wire(la)| == |Wire(ls)| && l <= MAXCDNAME
      decreases |la|
    {
      LabelAt(src, srcp, la);
      RestFits(la);
      var n: nat := src[srcp];
      l := l + n + 1;
      if l > MAXCDNAME {
        return false;
      }
      srcp := srcp + n + 1;
      if n == 0 {
        return true;
      }
      la := la[1..];
    }
  }

  lemma WireOk(src: seq<Octet>, cp: nat, ls: seq<Label>)
    requires WireAt(src, cp, ls)
    ensures LabelsOk(ls)
  {
  }

  lemma RestFits(la: seq<Label>)
    requires LabelsOk(la)
    ensures la == [] ==> |Wire(la)| == 1
    ensures la != [] ==> LabelOk(la[0]) && LabelsOk(la[1..]) && |Wire(la)| == |la[0]| + 1 + |Wire(la[1..])| >= 3
  {
    if la != [] { WireCons([], la); }
  }

  lemma StartPacking(msg: seq<Octet>, used: nat, ls: seq<Label>)
    requires used <= |msg|
    ensures [] + ls == ls && LabelsOk([]) && msg[used..used] == Counted([])
  {
  }

  lemma FirstIsStart(msg: seq<Octet>, used: nat, dstp: nat, pre: seq<Label>)
    requires LabelsOk(pre) && used <= dstp <= |msg| && msg[used..dstp] == Counted(pre) && pre == []
    ensures dstp == used
  {
  }

  /** Copying a counted label extends the labels written. */
  lemma LabelWritten(src: seq<Octet>, srcp: nat, pre: seq<Label>, la: seq<Label>)
    requires WireAt(src, srcp, la) && la != [] && LabelsOk(pre)
    ensures LabelOk(la[0]) && srcp + 1 + |la[0]| <= |src| && LabelsOk(pre + [la[0]])
    ensures Counted(pre + [la[0]]) == Counted(pre) + src[srcp..srcp + (|la[0]| + 1)]
    ensures pre + [la[0]] + la[1..] == pre + la && LabelsOk(la[1..])
  {
    LabelAt(src, srcp, la);
    var l := la[0];
    assert LabelOk(l);
    CountedSnoc(pre, l);
    hide WireAt;
    assert src[srcp..srcp + (|l| + 1)] == [|l| as Octet] + l;
  }

  lemma {:induction false} SamePrepend(pre: seq<Label>, a: seq<Label>, b: seq<Label>)
    requires Same(a, b)
    ensures Same(pre + a, pre + b)
  {
    if pre == [] {
      assert pre + a == a && pre + b == b;
    } else {
      assert (pre + a)[1..] == pre[1..] + a && (pre + b)[1..] == pre[1..] + b;
      SamePrepend(pre[1..], a, b);
    }
  }

  lemma ConcatOk(a: seq<Label>, b: seq<Label>)
    requires LabelsOk(a) && LabelsOk(b)
    ensures LabelsOk(a + b)
  {
  }

  /** The labels written and a pointer to a stretch that reads like the rest make the name. */
  lemma PointerEnds(msg: seq<Octet>, used: nat, dstp: nat, pre: seq<Label>, la: seq<Label>, hit: Stretch,
                    pair: seq<Octet>)
    requires StretchOk(msg, used, hit) && hit.start < 0x4000 && Same(la, hit.read) && la != []
    requires pair == [0xC0 + hit.start / 256, hit.start % 256]
    requires LabelsOk(pre) && LabelsOk(la) && NameOk(pre + la) && used <= dstp && dstp + 2 <= |msg|
    requires msg[used..dstp + 2] == Counted(pre) + pair[0..2] && |Counted(pre)| == dstp - used
    ensures PackedOk(msg, dstp + 2, (Stretch(used, dstp + 2, pre + hit.read), pre + la))
  {
    hide Counted, Same, StretchOk, LabelsOk, NameAt, OwnEnd, PackedOk;
    PointerWritten(msg, used, dstp, Counted(pre), pair);
    PointsTo(msg, used, dstp, hit, la);
    StretchRead(msg, used, hit);
    LabelsBefore(msg, used, dstp + 2, used, pre, dstp, hit.read);
    SamePrepend(pre, la, hit.read);
    ConcatOk(pre, hit.read);
    ConcatOk(pre, la);
    Assemble(msg, used, dstp + 2, pre + hit.read, pre + la);
  }

  lemma StretchRead(msg: seq<Octet>, used: nat, s: Stretch)
    requires StretchOk(msg, used, s)
    ensures LabelsOk(s.read)
  {
  }

  lemma Assemble(msg: seq<Octet>, start: nat, end: nat, read: seq<Label>, name: seq<Label>)
    requires start < end <= |msg| && LabelsOk(read) && NameOk(name) && Same(name, read)
    requires NameAt(msg, start, end, start, read) && OwnEnd(msg, start, end, start, read) == end
    ensures PackedOk(msg, end, (Stretch(start, end, read), name))
  {
  }

  lemma PointerWritten(msg: seq<Octet>, used: nat, dstp: nat, before: seq<Octet>, pair: seq<Octet>)
    requires used <= dstp && dstp + 2 <= |msg| && |before| == dstp - used && |pair| == 2
    requires msg[used..dstp + 2] == before + pair[0..2]
    ensures msg[dstp] == pair[0] && msg[dstp + 1] == pair[1] && msg[used..dstp] == before
  {
    assert msg[dstp] == msg[used..dstp + 2][dstp - used];
    assert msg[dstp + 1] == msg[used..dstp + 2][dstp + 1 - used];
    assert msg[used..dstp] == msg[used..dstp + 2][..dstp - used];
  }

  lemma PointsTo(msg: seq<Octet>, used: nat, dstp: nat, hit: Stretch, la: seq<Label>)
    requires StretchOk(msg, used, hit) && hit.start < 0x4000 && Same(la, hit.read) && la != []
    requires used <= dstp && dstp + 2 <= |msg|
    requires msg[dstp] == 0xC0 + hit.start / 256 && msg[dstp + 1] == hit.start % 256
    ensures NameAt(msg, used, dstp + 2, dstp, hit.read) && OwnEnd(msg, used, dstp + 2, dstp, hit.read) == dstp + 2
  {
    var t := hit.start;
    assert Target(msg[dstp], msg[dstp + 1]) == t;
    Widen(msg, t, hit.lim, used, t, hit.read);
  }

  /** The labels written and a root make the name. */
  lemma RootEnds(msg: seq<Octet>, used: nat, dstp: nat, pre: seq<Label>, src: seq<Octet>, srcp: nat)
    requires srcp < |src| && src[srcp] == 0 && NameOk(pre) && used <= dstp < |msg|
    requires msg[used..dstp + 1] == Counted(pre) + src[srcp..srcp + 1] && |Counted(pre)| == dstp - used
    ensures PackedOk(msg, dstp + 1, (Stretch(used, dstp + 1, pre), pre))
  {
    assert msg[dstp] == msg[used..dstp + 1][dstp - used] == src[srcp];
    assert msg[used..dstp] == msg[used..dstp + 1][..dstp - used] == Counted(pre);
    assert NameAt(msg, used, dstp + 1, dstp, []);
    LabelsBefore(msg, used, dstp + 1, used, pre, dstp, []);
    assert pre + [] == pre;
    SameReflexive(pre);
  }

  lemma WrittenBehind(was: seq<Octet>, now: seq<Octet>, used: nat, at: nat, octets: seq<Octet>)
    requires used <= at && at + |octets| <= |was| == |now| && now[..at + |octets|] == was[..at] + octets
    ensures now[..used] == was[..used] && now[used..at + |octets|] == was[used..at] + octets
  {
    var n := |octets|;
    assert now[..used] == now[..at + n][..used];
    assert now[used..at + n] == now[..at + n][used..];
  }

  lemma CommittedIsOk(msg: seq<Octet>, end: nat, s: Stretch, ls: seq<Label>)
    requires PackedOk(msg, end, (s, ls))
    ensures StretchOk(msg, end, s)
  {
  }

  /** A packed name: its own octets fill its stretch, and it reads as what was asked for up to case. */
  ghost predicate PackedOk(msg: seq<Octet>, used: nat, e: (Stretch, seq<Label>)) {
    var (s, name) := e;
    && StretchOk(msg, used, s) && NameOk(name) && Same(name, s.read)
    && OwnEnd(msg, s.start, s.lim, s.start, s.read) == s.lim
  }

  lemma PackedFrame(a: seq<Octet>, b: seq<Octet>, used: nat, used2: nat, e: (Stretch, seq<Label>))
    requires PackedOk(a, used, e) && used <= used2 <= |b| && a[..used] == b[..used]
    ensures PackedOk(b, used2, e)
  {
    StretchFrame(a, b, used, used2, e.0);
  }

  /** Search the suffixes spelled out in one stretch. */
  method FindIn(buf: array<Octet>, ghost used: nat, src: seq<Octet>, domain: nat, ghost ls: seq<Label>, start: nat,
                ghost s: Stretch)
    returns (r: int, ghost hit: Stretch)
    requires WireAt(src, domain, ls) && ls != [] && start == s.start && StretchOk(buf[..], used, s)
    ensures r >= 0 ==> r == hit.start < 0x4000 && StretchOk(buf[..], used, hit) && Same(ls, hit.read)
    ensures r < 0 ==> r == -1 && Unmatched(buf[..], s.start, s.read, ls)
  {
    hide WireAt, Same, LabelsOk, NameAt, IsPointer, Unmatched;
    var sp: nat := start;
    ghost var rd, msg := s.read, buf[..];
    hit := s;
    NameStep(msg, s.start, s.lim, sp, rd);
    while buf[sp] != 0 && !IsPointer(buf[sp]) && sp < 0x4000
      invariant sp < buf.Length && s.start <= sp && LabelsOk(rd) && NameAt(msg, s.start, s.lim, sp, rd)
      invariant rd == [] <==> buf[sp] == 0
      invariant Unmatched(msg, s.start, s.read, ls) <==> Unmatched(msg, sp, rd, ls)
      decreases |rd|
    {
      NameStep(msg, s.start, s.lim, sp, rd);
      var same := SameNameAt(buf, src, domain, sp, Stretch(s.start, s.lim, rd), ls);
      if same {
        Rebase(msg, s.start, s.lim, sp, rd, sp);
        hit := Stretch(sp, s.lim, rd);
        return sp, hit;
      }
      UnmatchedStep(msg, sp, rd, ls);
      TailOk(rd);
      sp := sp + 1 + buf[sp];
      rd := rd[1..];
      NameStep(msg, s.start, s.lim, sp, rd);
    }
    UnmatchedEnd(msg, sp, rd, ls);
    r := -1;
  }

  lemma TailOk(ls: seq<Label>)
    requires LabelsOk(ls) && ls != []
    ensures LabelsOk(ls[1..]) && LabelOk(ls[0])
  {
  }

  lemma UnmatchedStep(msg: seq<Octet>, p: nat, read: seq<Label>, ls: seq<Label>)
    requires p < |msg| && !IsPointer(msg[p]) && p < 0x4000 && read != [] && !Same(ls, read)
    ensures Unmatched(msg, p, read, ls) == Unmatched(msg, p + 1 + |read[0]|, read[1..], ls)
  {
  }

  lemma UnmatchedEnd(msg: seq<Octet>, p: nat, read: seq<Label>, ls: seq<Label>)
    requires p < |msg|
    requires read == [] || IsPointer(msg[p]) || p >= 0x4000
    ensures Unmatched(msg, p, read, ls)
  {
  }
}
