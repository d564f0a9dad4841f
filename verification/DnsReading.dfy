/**
  What expanding a name comes to on any message at all: pointers may lead
  backwards, forwards, into other labels or nowhere.
 */
module DnsReading {
  import opened DnsNames
  import opened DnsExpand

  /**
    The labels ls and a root are met from position p on, label by label and
    pointer by pointer; seen octets up to the end of the last pointer, 0 without one.
   */
  ghost predicate Reads(msg: seq<Octet>, p: nat, ls: seq<Label>, seen: nat)
    decreases |ls|, seen
  {
    && p < |msg|
    && if msg[p] == 0 then ls == [] && seen == 0
       else if IsPointer(msg[p]) then
         p + 1 < |msg| && seen >= 2 && Reads(msg, Target(msg[p], msg[p + 1]), ls, seen - 2)
       else
         && ls != [] && LabelHere(msg, |msg|, p, ls[0]) && (seen == 0 || seen > 1 + |ls[0]|)
         && Reads(msg, p + 1 + |ls[0]|, ls[1..], if seen == 0 then 0 else seen - 1 - |ls[0]|)
  }

  /** What is seen with the octets looked at before is less than the message, unless there is no pointer. */
  predicate WithinMessage(msg: seq<Octet>, checked: nat, seen: nat) {
    seen == 0 || checked + seen < |msg|
  }

  lemma {:induction false} ReadsLabels(msg: seq<Octet>, p: nat, ls: seq<Label>, seen: nat)
    requires Reads(msg, p, ls, seen)
    ensures LabelsOk(ls)
    decreases |ls|, seen
  {
    if msg[p] != 0 {
      if IsPointer(msg[p]) {
        ReadsLabels(msg, Target(msg[p], msg[p + 1]), ls, seen - 2);
      } else {
        ReadsLabels(msg, p + 1 + |ls[0]|, ls[1..], if seen == 0 then 0 else seen - 1 - |ls[0]|);
      }
    }
  }

  /** What is read is expanded. */
  lemma {:induction false} ReadIsExpanded(msg: seq<Octet>, p: nat, ls: seq<Label>, seen: nat, room: nat, checked: nat,
                                          wire: seq<Octet>, len: int, src: nat)
    requires Reads(msg, p, ls, seen) && LabelsOk(ls) && |wire| + |Wire(ls)| <= room
    requires WithinMessage(msg, checked, seen)
    ensures |wire| < room && Expand(msg, p, room, checked, wire, len, src).Expanded?
    ensures Expand(msg, p, room, checked, wire, len, src).wire == wire + Wire(ls)
    decreases |ls|, seen
  {
    hide Expand, Wire, LabelsOk;
    if msg[p] == 0 {
      RootStep(msg, p, room, checked, wire, len, src);
    } else if IsPointer(msg[p]) {
      var t := Target(msg[p], msg[p + 1]);
      WireSome(ls);
      PointerStep(msg, p, room, checked, wire, len, src);
      ReadIsExpanded(msg, t, ls, seen - 2, room, checked + 2, wire, if len < 0 then p + 2 - src else len, src);
    } else {
      var n := |ls[0]|;
      var more := LabelStep(msg, p, ls, |msg|, room, checked, wire, len, src);
      var left := if seen == 0 then 0 else seen - 1 - n;
      ReadIsExpanded(msg, p + 1 + n, ls[1..], left, room, checked + n + 1, more, len, src);
    }
  }

  lemma WireSome(ls: seq<Label>)
    requires LabelsOk(ls)
    ensures |Wire(ls)| > 0
  {
  }

  /** What is expanded is read. */
  lemma {:induction false} ExpandedIsRead(msg: seq<Octet>, p: nat, room: nat, checked: nat, wire: seq<Octet>, len: int,
                                          src: nat)
    returns (ls: seq<Label>, seen: nat)
    requires p < |msg| && |wire| < room && Expand(msg, p, room, checked, wire, len, src).Expanded?
    ensures Reads(msg, p, ls, seen) && LabelsOk(ls) && WithinMessage(msg, checked, seen)
    ensures Expand(msg, p, room, checked, wire, len, src).wire == wire + Wire(ls)
    decreases room - |wire| + Left(|msg|, checked)
  {
    hide *;
    var n := msg[p];
    if n == 0 {
      RootRead(msg, p, checked);
      RootStep(msg, p, room, checked, wire, len, src);
      ls, seen := [], 0;
    } else if IsPlain(n) {
      LabelFits(msg, p, room, checked, wire, len, src);
      LeftLess(msg, checked, n + 1);
      var l := msg[p + 1..p + 1 + n];
      var more := wire + msg[p..p + 1 + n];
      var tail, s := ExpandedIsRead(msg, p + 1 + n, room, checked + n + 1, more, len, src);
      ls, seen := [l] + tail, if s == 0 then 0 else s + 1 + n;
      LabelRead(msg, p, l, tail, s);
      LabelWire(msg, p, wire, l, tail);
      WithinMore(msg, checked, n + 1, s);
    } else {
      PointerFits(msg, p, room, checked, wire, len, src);
      LeftLess(msg, checked, 2);
      var t := Target(n, msg[p + 1]);
      var len' := if len < 0 then p + 2 - src else len;
      var s: nat;
      ls, s := ExpandedIsRead(msg, t, room, checked + 2, wire, len', src);
      seen := s + 2;
      PointerRead(msg, p, ls, s, checked);
    }
  }

  lemma RootRead(msg: seq<Octet>, p: nat, checked: nat)
    requires p < |msg| && msg[p] == 0
    ensures Reads(msg, p, [], 0) && LabelsOk([]) && WithinMessage(msg, checked, 0)
    ensures |Wire([])| == 1
  {
  }

  lemma LeftLess(msg: seq<Octet>, checked: nat, n: nat)
    ensures Left(|msg|, checked + n) <= Left(|msg|, checked)
    ensures n > 0 && checked < |msg| ==> Left(|msg|, checked + n) < Left(|msg|, checked)
  {
  }

  lemma LabelFits(msg: seq<Octet>, p: nat, room: nat, checked: nat, wire: seq<Octet>, len: int, src: nat)
    requires p < |msg| && |wire| < room && Expand(msg, p, room, checked, wire, len, src).Expanded?
    requires msg[p] != 0 && IsPlain(msg[p])
    ensures var n := msg[p];
            && p + 1 + n < |msg| && |wire + msg[p..p + 1 + n]| == |wire| + n + 1 < room
            && LabelHere(msg, |msg|, p, msg[p + 1..p + 1 + n])
            && Expand(msg, p, room, checked, wire, len, src) ==
               Expand(msg, p + 1 + n, room, checked + n + 1, wire + msg[p..p + 1 + n], len, src)
  {
  }

  lemma PointerFits(msg: seq<Octet>, p: nat, room: nat, checked: nat, wire: seq<Octet>, len: int, src: nat)
    requires p < |msg| && |wire| < room && Expand(msg, p, room, checked, wire, len, src).Expanded?
    requires !IsPlain(msg[p])
    ensures p + 1 < |msg| && IsPointer(msg[p]) && Target(msg[p], msg[p + 1]) < |msg| && checked + 2 < |msg|
    ensures Expand(msg, p, room, checked, wire, len, src) ==
            Expand(msg, Target(msg[p], msg[p + 1]), room, checked + 2, wire, if len < 0 then p + 2 - src else len, src)
  {
  }

  lemma PointerRead(msg: seq<Octet>, p: nat, ls: seq<Label>, s: nat, checked: nat)
    requires p + 1 < |msg| && IsPointer(msg[p]) && Reads(msg, Target(msg[p], msg[p + 1]), ls, s)
    requires checked + 2 < |msg| && WithinMessage(msg, checked + 2, s)
    ensures Reads(msg, p, ls, s + 2) && WithinMessage(msg, checked, s + 2)
  {
  }

  lemma WithinMore(msg: seq<Octet>, checked: nat, n: nat, s: nat)
    requires WithinMessage(msg, checked + n, s)
    ensures WithinMessage(msg, checked, if s == 0 then 0 else s + n)
  {
  }

  lemma LabelRead(msg: seq<Octet>, p: nat, l: Label, tail: seq<Label>, s: nat)
    requires LabelHere(msg, |msg|, p, l) && IsPlain(msg[p]) && Reads(msg, p + 1 + |l|, tail, s)
    ensures Reads(msg, p, [l] + tail, if s == 0 then 0 else s + 1 + |l|)
  {
    var ls := [l] + tail;
    assert ls[1..] == tail;
  }

  lemma LabelWire(msg: seq<Octet>, p: nat, wire: seq<Octet>, l: Label, tail: seq<Label>)
    requires LabelHere(msg, |msg|, p, l) && LabelsOk(tail)
    ensures LabelsOk([l] + tail) && wire + Wire([l] + tail) == wire + msg[p..p + 1 + |l|] + Wire(tail)
  {
    var ls := [l] + tail;
    assert ls[1..] == tail;
    WireCons(wire, ls);
    assert msg[p..p + 1 + |l|] == [|l| as Octet] + l;
  }

  /**
    A name is expanded exactly if it is met on the way from its place, fits the buffer, and the way
    up to its last pointer is shorter than the message.
   */
  lemma ExpandsExactly(msg: seq<Octet>, src: nat, room: nat, wire: seq<Octet>)
    requires src < |msg| && room > 0
    ensures var e := Expand(msg, src, room, 0, [], -1, src);
            e.Expanded? && e.wire == wire <==>
            exists ls, seen :: Reads(msg, src, ls, seen) && WithinMessage(msg, 0, seen) && LabelsOk(ls)
                               && Wire(ls) == wire && |wire| <= room
  {
    hide *;
    var e := Expand(msg, src, room, 0, [], -1, src);
    if e.Expanded? && e.wire == wire {
      var ls, seen := ExpandedIsRead(msg, src, room, 0, [], -1, src);
      assert [] + Wire(ls) == Wire(ls);
    }
    forall ls, seen | Reads(msg, src, ls, seen) && WithinMessage(msg, 0, seen) && LabelsOk(ls) && Wire(ls) == wire
                      && |wire| <= room
      ensures e.Expanded? && e.wire == wire
    {
      ReadIsExpanded(msg, src, ls, seen, room, 0, [], -1, src);
      assert [] + Wire(ls) == Wire(ls);
    }
  }

  /** A pointer to itself is refused: no octets on the way are enough. */
  lemma {:induction false} NoWayOut(msg: seq<Octet>, p: nat, ls: seq<Label>, seen: nat)
    requires p + 1 < |msg| && IsPointer(msg[p]) && Target(msg[p], msg[p + 1]) == p
    ensures !Reads(msg, p, ls, seen)
    decreases seen
  {
    if seen >= 2 { NoWayOut(msg, p, ls, seen - 2); }
  }

  /** The failing input: there is no loop, but the root is an octet of the first pointer, so the way is too long. */
  lemma RefusedWithoutLoop()
    ensures Reads([0xC0, 3, 0xC0, 0], 2, [], 4) && Expand([0xC0, 3, 0xC0, 0], 2, 255, 0, [], -1, 2) == Failed
  {
    var msg: seq<Octet> := [0xC0, 3, 0xC0, 0];
    assert Target(0xC0, 3) == 3 && Target(0xC0, 0) == 0;
    hide Expand;
    assert Reads(msg, 3, [], 0) && Reads(msg, 0, [], 2) && Reads(msg, 2, [], 4);
    PointerStep(msg, 2, 255, 0, [], -1, 2);
    TooLong(msg, 0, 255, 2, [], 2, 2);
  }

  lemma TooLong(msg: seq<Octet>, p: nat, room: nat, checked: nat, wire: seq<Octet>, len: int, src: nat)
    requires p < |msg| && |wire| < room && IsPointer(msg[p]) && checked + 2 >= |msg|
    ensures Expand(msg, p, room, checked, wire, len, src) == Failed
  {
  }
}
