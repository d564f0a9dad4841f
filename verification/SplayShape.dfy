/**
  The shape of a binary tree over positions 0..n: each position knows the
  interval its subtree covers and the positions of its two children. The
  in-order traversal of such a tree is 0, 1, ..., n - 1 by construction, so a
  search tree keeps its order as long as its elements keep their positions.
 */
module SplayShape {

  const NONE: int := -1

  /** Subtree [lo, hi) of a position and its children, NONE if absent. */
  datatype Span = Span(lo: int, hi: int, l: int, r: int)

  ghost predicate LeftOk(sp: seq<Span>, i: int)
    requires 0 <= i < |sp|
  {
    if sp[i].l == NONE then sp[i].lo == i
    else sp[i].lo <= sp[i].l < i && 0 <= sp[i].l && sp[sp[i].l].lo == sp[i].lo && sp[sp[i].l].hi == i
  }

  ghost predicate RightOk(sp: seq<Span>, i: int)
    requires 0 <= i < |sp|
  {
    if sp[i].r == NONE then sp[i].hi == i + 1
    else i < sp[i].r < sp[i].hi && sp[i].r < |sp| && sp[sp[i].r].lo == i + 1 && sp[sp[i].r].hi == sp[i].hi
  }

  ghost predicate SpanOk(sp: seq<Span>, i: int)
    requires 0 <= i < |sp|
  {
    0 <= sp[i].lo <= i < sp[i].hi <= |sp| && LeftOk(sp, i) && RightOk(sp, i)
  }

  ghost predicate AllOk(sp: seq<Span>) {
    forall i {:trigger SpanOk(sp, i)} :: 0 <= i < |sp| ==> SpanOk(sp, i)
  }

  /** Position x is the root of a tree covering [lo, hi), NONE if that is empty. */
  ghost predicate RootOf(sp: seq<Span>, x: int, lo: int, hi: int) {
    if lo == hi then x == NONE else 0 <= x < |sp| && sp[x].lo == lo && sp[x].hi == hi
  }

  ghost predicate TreeOk(sp: seq<Span>, root: int) {
    AllOk(sp) && RootOf(sp, root, 0, |sp|)
  }

  /** Whatever lies in a subtree has its own subtree inside. */
  lemma {:induction false} Nested(sp: seq<Span>, p: int, i: int)
    requires AllOk(sp) && 0 <= p < |sp| && sp[p].lo <= i < sp[p].hi
    ensures 0 <= i < |sp| && sp[p].lo <= sp[i].lo && sp[i].hi <= sp[p].hi
    decreases sp[p].hi - sp[p].lo
  {
    assert SpanOk(sp, p);
    if i < p { Nested(sp, sp[p].l, i); }
    else if i > p { Nested(sp, sp[p].r, i); }
  }

  // ----- the top-down splay -----

  /**
    A splay under way: a tree over [0, a) rooted at x, the subtree of c over
    [a, b), and a tree over [b, n) rooted at y. The right end of the first and
    the left end of the last are where subtrees will be hooked in.
   */
  datatype Splay = Splay(sp: seq<Span>, a: int, b: int, c: int, x: int, y: int)

  ghost predicate Splaying(s: Splay) {
    && AllOk(s.sp)
    && 0 <= s.a <= s.c < s.b <= |s.sp|
    && s.sp[s.c].lo == s.a && s.sp[s.c].hi == s.b && SpanOk(s.sp, s.c)
    && RootOf(s.sp, s.x, 0, s.a) && RootOf(s.sp, s.y, s.b, |s.sp|)
    && (s.x != NONE ==> SpanOk(s.sp, s.x)) && (s.y != NONE ==> SpanOk(s.sp, s.y))
  }

  /** Each position's subtree stays on its side of the splay. */
  lemma Sides(s: Splay, i: int)
    requires Splaying(s) && 0 <= i < |s.sp|
    ensures SpanOk(s.sp, i)
    ensures i < s.a ==> s.sp[i].hi <= s.a
    ensures s.b <= i ==> s.b <= s.sp[i].lo
    ensures s.a <= i < s.b ==> s.a <= s.sp[i].lo && s.sp[i].hi <= s.b
  {
    assert SpanOk(s.sp, i);
    Nested(s.sp, if i < s.a then s.x else if s.b <= i then s.y else s.c, i);
  }

  ghost predicate HasLeft(s: Splay) {
    0 <= s.c < |s.sp| && 0 <= s.sp[s.c].l < |s.sp|
  }

  ghost predicate HasRight(s: Splay) {
    0 <= s.c < |s.sp| && 0 <= s.sp[s.c].r < |s.sp|
  }

  /** Rotation: the left child of c takes its place. */
  ghost function RotateRight(s: Splay): (s': Splay)
    requires HasLeft(s)
  {
    var u, l := s.sp[s.c], s.sp[s.c].l;
    s.(sp := s.sp[s.c := u.(lo := l + 1, l := s.sp[l].r)][l := s.sp[l].(hi := u.hi, r := s.c)], c := l)
  }

  ghost function RotateLeft(s: Splay): (s': Splay)
    requires HasRight(s)
  {
    var u, r := s.sp[s.c], s.sp[s.c].r;
    s.(sp := s.sp[s.c := u.(hi := r, r := s.sp[r].l)][r := s.sp[r].(lo := u.lo, l := s.c)], c := r)
  }

  /** Hooks c, without its left subtree, into the left end of the right-hand tree. */
  ghost function LinkRight(s: Splay): (s': Splay)
    requires HasLeft(s)
  {
    var sp' := seq(|s.sp|, i requires 0 <= i < |s.sp| =>
      if i == s.c then s.sp[i].(lo := s.c, l := NONE)
      else if s.b <= i && s.sp[i].lo == s.b then s.sp[i].(lo := s.c, l := if i == s.b then s.c else s.sp[i].l)
      else s.sp[i]);
    s.(sp := sp', b := s.c, c := s.sp[s.c].l, y := if s.y == NONE then s.c else s.y)
  }

  /** Hooks c, without its right subtree, into the right end of the left-hand tree. */
  ghost function LinkLeft(s: Splay): (s': Splay)
    requires HasRight(s)
  {
    var sp' := seq(|s.sp|, i requires 0 <= i < |s.sp| =>
      if i == s.c then s.sp[i].(hi := s.c + 1, r := NONE)
      else if i < s.a && s.sp[i].hi == s.a then s.sp[i].(hi := s.c + 1, r := if i == s.a - 1 then s.c else s.sp[i].r)
      else s.sp[i]);
    s.(sp := sp', a := s.c + 1, c := s.sp[s.c].r, x := if s.x == NONE then s.c else s.x)
  }

  /** Hooks the subtrees of c into the two side trees and these under c. */
  ghost function Assemble(s: Splay): (sp': seq<Span>)
    requires 0 <= s.c < |s.sp|
  {
    seq(|s.sp|, i requires 0 <= i < |s.sp| =>
      if i == s.c then
        Span(0, |s.sp|, if s.x == NONE then s.sp[i].l else s.x, if s.y == NONE then s.sp[i].r else s.y)
      else if i < s.a && s.sp[i].hi == s.a then
        s.sp[i].(hi := s.c, r := if i == s.a - 1 then s.sp[s.c].l else s.sp[i].r)
      else if s.b <= i && s.sp[i].lo == s.b then
        s.sp[i].(lo := s.c + 1, l := if i == s.b then s.sp[s.c].r else s.sp[i].l)
      else s.sp[i])
  }

  lemma RotateRightAt(s: Splay, i: int)
    requires Splaying(s) && HasLeft(s) && 0 <= i < |s.sp|
    ensures SpanOk(RotateRight(s).sp, i)
  {
    var c, l, sp' := s.c, s.sp[s.c].l, RotateRight(s).sp;
    assert SpanOk(s.sp, l) && SpanOk(s.sp, c);
    Sides(s, i);
    hide Splaying, AllOk;
    if i != c && i != l {
      assert sp'[i] == s.sp[i];
      assert s.sp[i].l != c && s.sp[i].l != l && s.sp[i].r != c && (s.sp[i].r == l ==> i == l);
    }
  }

  lemma RotateRightOk(s: Splay)
    requires Splaying(s) && HasLeft(s)
    ensures Splaying(RotateRight(s))
  {
    var sp' := RotateRight(s).sp;
    forall i | 0 <= i < |sp'| ensures SpanOk(sp', i) {
      RotateRightAt(s, i);
    }
  }

  lemma RotateLeftAt(s: Splay, i: int)
    requires Splaying(s) && HasRight(s) && 0 <= i < |s.sp|
    ensures SpanOk(RotateLeft(s).sp, i)
  {
    var c, r, sp' := s.c, s.sp[s.c].r, RotateLeft(s).sp;
    assert SpanOk(s.sp, r) && SpanOk(s.sp, c);
    Sides(s, i);
    hide Splaying, AllOk;
    if i != c && i != r {
      assert sp'[i] == s.sp[i];
      assert s.sp[i].r != c && s.sp[i].r != r && s.sp[i].l != c && (s.sp[i].l == r ==> i == r);
    }
  }

  lemma RotateLeftOk(s: Splay)
    requires Splaying(s) && HasRight(s)
    ensures Splaying(RotateLeft(s))
  {
    var sp' := RotateLeft(s).sp;
    forall i | 0 <= i < |sp'| ensures SpanOk(sp', i) {
      RotateLeftAt(s, i);
    }
  }

  lemma LinkRightAt(s: Splay, i: int)
    requires Splaying(s) && HasLeft(s) && 0 <= i < |s.sp|
    ensures SpanOk(LinkRight(s).sp, i)
  {
    assert SpanOk(s.sp, s.sp[s.c].l);
    Sides(s, i);
  }

  lemma LinkRightOk(s: Splay)
    requires Splaying(s) && HasLeft(s)
    ensures Splaying(LinkRight(s))
    ensures s.b < |s.sp| ==> LinkRight(s).sp[s.b].l == s.c
  {
    if s.b < |s.sp| { Sides(s, s.b); }
    var sp' := LinkRight(s).sp;
    forall i | 0 <= i < |sp'| ensures SpanOk(sp', i) {
      LinkRightAt(s, i);
    }
  }

  lemma LinkLeftAt(s: Splay, i: int)
    requires Splaying(s) && HasRight(s) && 0 <= i < |s.sp|
    ensures SpanOk(LinkLeft(s).sp, i)
  {
    assert SpanOk(s.sp, s.sp[s.c].r);
    Sides(s, i);
  }

  lemma LinkLeftOk(s: Splay)
    requires Splaying(s) && HasRight(s)
    ensures Splaying(LinkLeft(s))
    ensures s.a > 0 ==> LinkLeft(s).sp[s.a - 1].r == s.c
  {
    if s.a > 0 { Sides(s, s.a - 1); }
    var sp' := LinkLeft(s).sp;
    forall i | 0 <= i < |sp'| ensures SpanOk(sp', i) {
      LinkLeftAt(s, i);
    }
  }

  lemma AssembleLeft(s: Splay, i: int)
    requires Splaying(s) && 0 <= i < |s.sp| && i < s.c
    ensures SpanOk(Assemble(s), i)
  {
    Sides(s, i);
  }

  lemma AssembleMiddle(s: Splay, i: int)
    requires Splaying(s) && 0 <= i < |s.sp| && i == s.c
    ensures SpanOk(Assemble(s), i)
  {
    Sides(s, i);
  }

  lemma AssembleRight(s: Splay, i: int)
    requires Splaying(s) && 0 <= i < |s.sp| && s.c < i
    ensures SpanOk(Assemble(s), i)
  {
    Sides(s, i);
  }

  lemma AssembleOk(s: Splay)
    requires Splaying(s)
    ensures TreeOk(Assemble(s), s.c)
    ensures s.a > 0 ==> Assemble(s)[s.a - 1].r == s.sp[s.c].l
    ensures s.b < |s.sp| ==> Assemble(s)[s.b].l == s.sp[s.c].r
  {
    if s.a > 0 { Sides(s, s.a - 1); }
    if s.b < |s.sp| { Sides(s, s.b); }
    var sp' := Assemble(s);
    forall i | 0 <= i < |sp'| ensures SpanOk(sp', i) {
      if i < s.c { AssembleLeft(s, i); }
      else if i == s.c { AssembleMiddle(s, i); }
      else { AssembleRight(s, i); }
    }
  }

  // ----- linking a new root, unlinking the root -----

  /** Positions on the two sides of the root keep to their side. */
  lemma RootSides(sp: seq<Span>, c: int, i: int)
    requires TreeOk(sp, c) && 0 <= i < |sp| && c != NONE
    ensures 0 <= c < |sp| && SpanOk(sp, c) && SpanOk(sp, i)
    ensures i < c ==> sp[c].l != NONE && sp[i].hi <= c
    ensures c < i ==> sp[c].r != NONE && c < sp[i].lo
  {
    assert SpanOk(sp, c) && SpanOk(sp, i);
    if i < c { Nested(sp, sp[c].l, i); }
    if c < i { Nested(sp, sp[c].r, i); }
  }

  ghost function Up(k: int): int { if k == NONE then NONE else k + 1 }

  ghost function Down(k: int): int { if k == NONE then NONE else k - 1 }

  ghost function ShiftUp(s: Span): Span { Span(s.lo + 1, s.hi + 1, Up(s.l), Up(s.r)) }

  ghost function ShiftDown(s: Span): Span { Span(s.lo - 1, s.hi - 1, Down(s.l), Down(s.r)) }

  /** A new root right before the old root c. */
  ghost function LinkBefore(sp: seq<Span>, c: int): (sp': seq<Span>)
    requires 0 <= c < |sp|
  {
    seq(|sp| + 1, i requires 0 <= i < |sp| + 1 =>
      if i < c then sp[i]
      else if i == c then Span(0, |sp| + 1, sp[c].l, c + 1)
      else if i == c + 1 then ShiftUp(sp[c]).(lo := c + 1, l := NONE)
      else ShiftUp(sp[i - 1]))
  }

  /** A new root right after the old root c. */
  ghost function LinkAfter(sp: seq<Span>, c: int): (sp': seq<Span>)
    requires 0 <= c < |sp|
  {
    seq(|sp| + 1, i requires 0 <= i < |sp| + 1 =>
      if i < c then sp[i]
      else if i == c then sp[c].(hi := c + 1, r := NONE)
      else if i == c + 1 then Span(0, |sp| + 1, c, Up(sp[c].r))
      else ShiftUp(sp[i - 1]))
  }

  lemma LinkBeforeOk(sp: seq<Span>, c: int)
    requires TreeOk(sp, c) && c != NONE
    ensures TreeOk(LinkBefore(sp, c), c)
  {
    var sp' := LinkBefore(sp, c);
    forall i | 0 <= i < |sp'| ensures SpanOk(sp', i) {
      RootSides(sp, c, c);
      if i < c { RootSides(sp, c, i); }
      if i > c { RootSides(sp, c, i - 1); }
    }
  }

  lemma LinkAfterOk(sp: seq<Span>, c: int)
    requires TreeOk(sp, c) && c != NONE
    ensures TreeOk(LinkAfter(sp, c), c + 1)
  {
    var sp' := LinkAfter(sp, c);
    forall i | 0 <= i < |sp'| ensures SpanOk(sp', i) {
      RootSides(sp, c, c);
      if i < c { RootSides(sp, c, i); }
      if i > c { RootSides(sp, c, i - 1); }
    }
  }

  /** The positions after c once it is gone, when it was the root. */
  ghost function Unlink(sp: seq<Span>, c: int): (sp': seq<Span>)
    requires 0 <= c < |sp|
  {
    seq(|sp| - 1, j requires 0 <= j < |sp| - 1 =>
      if j < c then sp[j]
      else if sp[c].l == NONE then ShiftDown(sp[j + 1])
      else if j == c then Span(0, |sp| - 1, sp[c].l, if sp[c].r == c + 1 then Down(sp[c + 1].r) else Down(sp[c].r))
      else if sp[j + 1].lo == c + 1 then
        var l := if sp[j + 1].l == c + 1 then sp[c + 1].r else sp[j + 1].l;
        Span(c + 1, sp[j + 1].hi - 1, Down(l), Down(sp[j + 1].r))
      else ShiftDown(sp[j + 1]))
  }

  /** The root after the old root c was unlinked: a child, or else the position that took its place. */
  ghost function RootAfter(sp: seq<Span>, c: int): int
    requires 0 <= c < |sp|
  {
    if sp[c].l == NONE then Down(sp[c].r) else if sp[c].r == NONE then sp[c].l else c
  }

  /** The position after the root has no left child. */
  lemma NextIsLeftmost(sp: seq<Span>, c: int)
    requires TreeOk(sp, c) && c != NONE && sp[c].r != NONE
    ensures c + 1 < |sp| && sp[c + 1].l == NONE && sp[c + 1].lo == c + 1
  {
    assert SpanOk(sp, c);
    RootSides(sp, c, c + 1);
  }

  lemma UnlinkLow(sp: seq<Span>, c: int, j: int)
    requires TreeOk(sp, c) && c != NONE && 0 <= j < |sp| - 1 && j < c
    ensures SpanOk(Unlink(sp, c), j)
  {
    RootSides(sp, c, c);
    RootSides(sp, c, j);
  }

  lemma UnlinkNoLeft(sp: seq<Span>, c: int, j: int)
    requires TreeOk(sp, c) && c != NONE && 0 <= j < |sp| - 1 && c <= j && sp[c].l == NONE
    ensures SpanOk(Unlink(sp, c), j)
  {
    RootSides(sp, c, c);
    RootSides(sp, c, j + 1);
  }

  lemma UnlinkNext(sp: seq<Span>, c: int, j: int)
    requires TreeOk(sp, c) && c != NONE && 0 <= j < |sp| - 1 && j == c && sp[c].l != NONE
    ensures SpanOk(Unlink(sp, c), j)
  {
    RootSides(sp, c, c);
    RootSides(sp, c, c + 1);
    NextIsLeftmost(sp, c);
  }

  lemma UnlinkHigh(sp: seq<Span>, c: int, j: int)
    requires TreeOk(sp, c) && c != NONE && 0 <= j < |sp| - 1 && c < j && sp[c].l != NONE
    ensures SpanOk(Unlink(sp, c), j)
  {
    if sp[j + 1].lo == c + 1 {
      UnlinkAlong(sp, c, j);
    } else {
      UnlinkBeyond(sp, c, j);
    }
  }

  /** A position on the left edge of the root's right subtree. */
  lemma UnlinkAlong(sp: seq<Span>, c: int, j: int)
    requires TreeOk(sp, c) && c != NONE && 0 <= j < |sp| - 1 && c < j && sp[c].l != NONE && sp[j + 1].lo == c + 1
    ensures SpanOk(Unlink(sp, c), j)
  {
    RootSides(sp, c, c);
    RootSides(sp, c, c + 1);
    RootSides(sp, c, j + 1);
    NextIsLeftmost(sp, c);
  }

  lemma UnlinkBeyond(sp: seq<Span>, c: int, j: int)
    requires TreeOk(sp, c) && c != NONE && 0 <= j < |sp| - 1 && c < j && sp[c].l != NONE && sp[j + 1].lo != c + 1
    ensures SpanOk(Unlink(sp, c), j)
  {
    RootSides(sp, c, c);
    RootSides(sp, c, c + 1);
    RootSides(sp, c, j + 1);
    NextIsLeftmost(sp, c);
  }

  lemma UnlinkOk(sp: seq<Span>, c: int)
    requires TreeOk(sp, c) && c != NONE
    ensures TreeOk(Unlink(sp, c), RootAfter(sp, c))
  {
    var sp' := Unlink(sp, c);
    forall j | 0 <= j < |sp'| ensures SpanOk(sp', j) {
      RootSides(sp, c, c);
      if j < c { UnlinkLow(sp, c, j); }
      else if sp[c].l == NONE { UnlinkNoLeft(sp, c, j); }
      else if j == c { UnlinkNext(sp, c, j); }
      else { UnlinkHigh(sp, c, j); }
    }
    RootSides(sp, c, c);
  }
}
