/**
  Expanding compressed names (section 4.1.4 of RFC 1035): the loop with its
  limits, on any message at all, and on messages whose pointers lead backwards.
 */
module DnsExpand {
  import opened DnsNames

  /** First two bits of a length octet: a plain label, a pointer, or something else. */
  predicate IsPlain(n: Octet)
    ensures IsPlain(n) <==> n / 64 == 0
  {
    n < 0x40
  }

  predicate IsPointer(n: Octet)
    ensures IsPointer(n) <==> n / 64 == 3
  {
    n >= 0xC0
  }

  function Target(hi: Octet, lo: Octet): (t: nat)
    ensures IsPointer(hi) ==> t < 0x4000 && hi * 256 + lo == 0xC000 + t
  {
    hi % 0x40 * 256 + lo
  }

  datatype Expanded = Failed | Expanded(consumed: int, wire: seq<Octet>)

  function Left(size: int, checked: int): nat {
    if checked < size then size - checked else 0
  }

  /**
    Expanding from position p: wire is the output so far, checked counts octets
    looked at, len is set once the first pointer has been followed.
   */
  function Expand(msg: seq<Octet>, p: nat, room: nat, checked: nat, wire: seq<Octet>, len: int, src: nat): (r: Expanded)
    requires p < |msg| && |wire| < room
    ensures r.Expanded? ==> |r.wire| <= room
    decreases room - |wire| + Left(|msg|, checked)
  {
    var n := msg[p];
    if n == 0 then Expanded(if len < 0 then p + 1 - src else len, wire + [0])
    else if IsPlain(n) then
      if |wire| + n + 1 >= room || p + 1 + n >= |msg| then Failed
      else Expand(msg, p + 1 + n, room, checked + n + 1, wire + msg[p..p + 1 + n], len, src)
    else if !IsPointer(n) || p + 1 >= |msg| then Failed
    else
      var t := Target(n, msg[p + 1]);
      if t >= |msg| || checked + 2 >= |msg| then Failed
      else Expand(msg, t, room, checked + 2, wire, if len < 0 then p + 2 - src else len, src)
  }

  /** The loop over a message and an output buffer; it ends on every message, pointer cycles included. */
  method Unpack(msg: seq<Octet>, src: nat, dst: array<Octet>) returns (r: int)
    requires dst.Length > 0
    modifies dst
    ensures src >= |msg| ==> r == -1
    ensures src < |msg| ==> match Expand(msg, src, dst.Length, 0, [], -1, src)
              case Failed => r == -1
              case Expanded(consumed, wire) => r == consumed && |wire| <= dst.Length && dst[..|wire|] == wire
  {
    hide Expand, Target, IsPointer, IsPlain;
    if src >= |msg| {
      return -1;
    }
    var srcp: nat, dstp: nat, checked: nat, len := src, 0, 0, -1;
    assert dst[..0] == [];
    while msg[srcp] != 0
      invariant srcp < |msg| && dstp < dst.Length
      invariant Expand(msg, srcp, dst.Length, checked, dst[..dstp], len, src) ==
                Expand(msg, src, dst.Length, 0, [], -1, src)
      decreases dst.Length - dstp + Left(|msg|, checked)
    {
      Unfold(msg, srcp, dst.Length, checked, dst[..dstp], len, src);
      var n := msg[srcp];
      srcp := srcp + 1;
      if IsPlain(n) {
        if dstp + n + 1 >= dst.Length || srcp + n >= |msg| {
          return -1;
        }
        checked := checked + n + 1;
        CopyOctets(dst, dstp, msg, srcp - 1, n + 1);
        dstp := dstp + n + 1;
        srcp := srcp + n;
      } else if IsPointer(n) {
        if srcp >= |msg| {
          return -1;
        }
        if len < 0 {
          len := srcp - src + 1;
        }
        srcp := Target(n, msg[srcp]);
        if srcp >= |msg| {
          return -1;
        }
        checked := checked + 2;
        if checked >= |msg| {
          return -1;
        }
      } else {
        return -1;
      }
    }
    Unfold(msg, srcp, dst.Length, checked, dst[..dstp], len, src);
    dst[dstp] := 0;
    if len < 0 {
      len := srcp + 1 - src;
    }
    r := len;
  }

  /** One step of an expansion. */
  lemma Unfold(msg: seq<Octet>, p: nat, room: nat, checked: nat, wire: seq<Octet>, len: int, src: nat)
    requires p < |msg| && |wire| < room
    ensures var n, e := msg[p], Expand(msg, p, room, checked, wire, len, src);
            if n == 0 then e == Expanded(if len < 0 then p + 1 - src else len, wire + [0])
            else if IsPlain(n) then
              if |wire| + n + 1 >= room || p + 1 + n >= |msg| then e == Failed
              else e == Expand(msg, p + 1 + n, room, checked + n + 1, wire + msg[p..p + 1 + n], len, src)
            else if !IsPointer(n) || p + 1 >= |msg| || Target(n, msg[p + 1]) >= |msg| || checked + 2 >= |msg| then
              e == Failed
            else
              e == Expand(msg, Target(n, msg[p + 1]), room, checked + 2, wire, if len < 0 then p + 2 - src else len, src)
  {
  }

  method CopyOctets(dst: array<Octet>, at: nat, msg: seq<Octet>, start: nat, n: nat)
    requires at + n <= dst.Length && start + n <= |msg|
    modifies dst
    ensures dst[..at + n] == old(dst[..at]) + msg[start..start + n]
    ensures dst[at + n..] == old(dst[at + n..])
  {
    var i := 0;
    while i < n
      invariant i <= n
      invariant dst[..at + i] == old(dst[..at]) + msg[start..start + i]
      invariant dst[at + n..] == old(dst[at + n..])
    {
      dst[at + i] := msg[start + i];
      i := i + 1;
    }
  }

  /** Where skipping a name ends. */
  function SkipEnd(msg: seq<Octet>, p: nat): (end: int)
    decreases |msg| - p
  {
    if p > |msg| then -1
    else if p == |msg| then p
    else
      var n := msg[p];
      if n == 0 then p + 1
      else if IsPlain(n) then SkipEnd(msg, p + 1 + n)
      else if IsPointer(n) && p + 2 <= |msg| then p + 2
      else -1
  }

  method Skip(msg: seq<Octet>, ptr: nat) returns (r: int)
    requires ptr <= |msg|
    ensures r == if SkipEnd(msg, ptr) < 0 then -1 else SkipEnd(msg, ptr) - ptr
  {
    var cp := ptr;
    while cp < |msg|
      invariant ptr <= cp && SkipEnd(msg, cp) == SkipEnd(msg, ptr)
      decreases |msg| - cp
    {
      var n := msg[cp];
      cp := cp + 1;
      if n == 0 {
        break;
      } else if IsPlain(n) {
        cp := cp + n;
      } else if IsPointer(n) {
        cp := cp + 1;
        break;
      } else {
        return -1;
      }
    }
    if cp > |msg| {
      return -1;
    }
    r := cp - ptr;
  }

  /** A successful expansion consumes exactly what skipping consumes. */
  lemma {:induction false} SkipAgrees(msg: seq<Octet>, p: nat, room: nat, checked: nat, wire: seq<Octet>, src: nat)
    requires p < |msg| && |wire| < room
    requires Expand(msg, p, room, checked, wire, -1, src).Expanded?
    requires src <= p
    ensures SkipEnd(msg, p) == src + Expand(msg, p, room, checked, wire, -1, src).consumed
    decreases |msg| - p
  {
    var n := msg[p];
    if n != 0 {
      if IsPlain(n) {
        SkipAgrees(msg, p + 1 + n, room, checked + n + 1, wire + msg[p..p + 1 + n], src);
      } else {
        LenIsKept(msg, Target(n, msg[p + 1]), room, checked + 2, wire, p + 2 - src, src);
      }
    }
  }

  lemma {:induction false} LenIsKept(msg: seq<Octet>, p: nat, room: nat, checked: nat, wire: seq<Octet>, len: int,
                                     src: nat)
    requires p < |msg| && |wire| < room && len >= 0
    ensures var r := Expand(msg, p, room, checked, wire, len, src); r.Expanded? ==> r.consumed == len
    decreases room - |wire| + Left(|msg|, checked)
  {
    var n := msg[p];
    if IsPlain(n) {
      if n != 0 && !(|wire| + n + 1 >= room || p + 1 + n >= |msg|) {
        LenIsKept(msg, p + 1 + n, room, checked + n + 1, wire + msg[p..p + 1 + n], len, src);
      }
    } else if IsPointer(n) && p + 1 < |msg| {
      var t := Target(n, msg[p + 1]);
      if !(t >= |msg| || checked + 2 >= |msg|) {
        LenIsKept(msg, t, room, checked + 2, wire, len, src);
      }
    }
  }

  // Names whose pointers lead backwards.

  /**
    The name ls is read at position p of a stretch [base, lim) of the message:
    labels and a root, or a pointer to a stretch that ends before this one.
   */
  ghost predicate NameAt(msg: seq<Octet>, base: nat, lim: nat, p: nat, ls: seq<Label>)
    decreases base, |ls|
  {
    && base <= p < lim <= |msg|
    && (if ls == [] then msg[p] == 0
        else if IsPointer(msg[p]) then
          p + 1 < lim && Target(msg[p], msg[p + 1]) < base
          && NameAt(msg, Target(msg[p], msg[p + 1]), base, Target(msg[p], msg[p + 1]), ls)
        else
          LabelHere(msg, lim, p, ls[0]) && NameAt(msg, base, lim, p + 1 + |ls[0]|, ls[1..]))
  }

  predicate LabelHere(msg: seq<Octet>, lim: nat, p: nat, l: Label) {
    LabelOk(l) && p + 1 + |l| < lim <= |msg| && msg[p] == |l| && msg[p + 1..p + 1 + |l|] == l
  }

  /** Where the name's own octets end. */
  ghost function OwnEnd(msg: seq<Octet>, base: nat, lim: nat, p: nat, ls: seq<Label>): nat
    requires NameAt(msg, base, lim, p, ls)
    decreases |ls|
  {
    if ls == [] then p + 1 else if IsPointer(msg[p]) then p + 2 else OwnEnd(msg, base, lim, p + 1 + |ls[0]|, ls[1..])
  }

  /** Such a name is expanded to itself: the loop check cannot fire, for what has been checked are different octets. */
  lemma {:induction false} ExpandReads(msg: seq<Octet>, base: nat, lim: nat, p: nat, ls: seq<Label>,
                                       room: nat, checked: nat, wire: seq<Octet>, len: int, src: nat, end: nat)
    requires NameAt(msg, base, lim, p, ls) && LabelsOk(ls)
    requires lim <= end <= |msg| && checked <= end - lim + (p - base)
    requires |wire| + |Wire(ls)| <= room && |wire| < room && (len < 0 ==> src <= p)
    ensures Expand(msg, p, room, checked, wire, len, src) ==
            Expanded(if len < 0 then OwnEnd(msg, base, lim, p, ls) - src else len, wire + Wire(ls))
    decreases base, |ls|
  {
    hide Expand, Wire, LabelsOk;
    if ls == [] {
      RootStep(msg, p, room, checked, wire, len, src);
    } else if IsPointer(msg[p]) {
      var t := Target(msg[p], msg[p + 1]);
      PointerStep(msg, p, room, checked, wire, len, src);
      ExpandReads(msg, t, base, t, ls, room, checked + 2, wire, if len < 0 then p + 2 - src else len, src, end);
    } else {
      var n := |ls[0]|;
      var more := LabelStep(msg, p, ls, lim, room, checked, wire, len, src);
      ExpandReads(msg, base, lim, p + 1 + n, ls[1..], room, checked + n + 1, more, len, src, end);
    }
  }

  lemma RootStep(msg: seq<Octet>, p: nat, room: nat, checked: nat, wire: seq<Octet>, len: int, src: nat)
    requires p < |msg| && msg[p] == 0 && |wire| + |Wire([])| <= room
    ensures |wire| < room
    ensures Expand(msg, p, room, checked, wire, len, src) ==
            Expanded(if len < 0 then p + 1 - src else len, wire + Wire([]))
  {
  }

  lemma LabelStep(msg: seq<Octet>, p: nat, ls: seq<Label>, lim: nat, room: nat, checked: nat, wire: seq<Octet>,
                  len: int, src: nat)
    returns (more: seq<Octet>)
    requires ls != [] && LabelsOk(ls) && LabelHere(msg, lim, p, ls[0]) && |wire| + |Wire(ls)| <= room
    ensures LabelsOk(ls[1..]) && more + Wire(ls[1..]) == wire + Wire(ls)
    ensures |more| + |Wire(ls[1..])| <= room && |more| < room
    ensures Expand(msg, p, room, checked, wire, len, src) ==
            Expand(msg, p + 1 + |ls[0]|, room, checked + |ls[0]| + 1, more, len, src)
  {
    var l := ls[0];
    WireCons(wire, ls);
    hide Wire;
    more := wire + [|l| as Octet] + l;
    assert msg[p..p + 1 + |l|] == [|l| as Octet] + l;
    assert more == wire + msg[p..p + 1 + |l|];
  }

  lemma PointerStep(msg: seq<Octet>, p: nat, room: nat, checked: nat, wire: seq<Octet>, len: int, src: nat)
    requires p + 1 < |msg| && |wire| < room && IsPointer(msg[p])
    requires Target(msg[p], msg[p + 1]) < |msg| && checked + 2 < |msg|
    ensures Expand(msg, p, room, checked, wire, len, src) ==
            Expand(msg, Target(msg[p], msg[p + 1]), room, checked + 2, wire, if len < 0 then p + 2 - src else len, src)
  {
  }

  /** Octets beyond the stretch do not matter. */
  lemma {:induction false} NameAtFrame(a: seq<Octet>, b: seq<Octet>, base: nat, lim: nat, p: nat, ls: seq<Label>)
    requires NameAt(a, base, lim, p, ls) && lim <= |b| && a[..lim] == b[..lim]
    ensures NameAt(b, base, lim, p, ls)
    ensures OwnEnd(b, base, lim, p, ls) == OwnEnd(a, base, lim, p, ls)
    decreases base, |ls|
  {
    assert forall i {:trigger b[i]} :: 0 <= i < lim ==> b[i] == a[..lim][i];
    if ls != [] {
      if IsPointer(a[p]) {
        var t := Target(a[p], a[p + 1]);
        assert a[..base] == b[..base];
        NameAtFrame(a, b, t, base, t, ls);
      } else {
        assert a[p + 1..p + 1 + |ls[0]|] == b[p + 1..p + 1 + |ls[0]|];
        NameAtFrame(a, b, base, lim, p + 1 + |ls[0]|, ls[1..]);
      }
    }
  }

  /** The tail of a name can be read as a name of its own. */
  lemma {:induction false} Rebase(msg: seq<Octet>, base: nat, lim: nat, p: nat, ls: seq<Label>, base2: nat)
    requires NameAt(msg, base, lim, p, ls) && base <= base2 <= p
    ensures NameAt(msg, base2, lim, p, ls)
    decreases |ls|
  {
    if ls != [] {
      if IsPointer(msg[p]) {
        var t := Target(msg[p], msg[p + 1]);
        Widen(msg, t, base, base2, t, ls);
      } else {
        Rebase(msg, base, lim, p + 1 + |ls[0]|, ls[1..], base2);
      }
    }
  }

  lemma {:induction false} Widen(msg: seq<Octet>, base: nat, lim: nat, lim2: nat, p: nat, ls: seq<Label>)
    requires NameAt(msg, base, lim, p, ls) && lim <= lim2 <= |msg|
    ensures NameAt(msg, base, lim2, p, ls)
    decreases |ls|
  {
    if ls != [] && !IsPointer(msg[p]) {
      Widen(msg, base, lim, lim2, p + 1 + |ls[0]|, ls[1..]);
    }
  }
}
