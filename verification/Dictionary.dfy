/**
  The self-tuning dictionary of dictionary.c: a splay tree whose elements are
  also threaded on a doubly linked list.

  The ghost field order lists the elements by position. The tree and the list
  are both described by positions, so the tree's in-order traversal and the
  list from head to tail are the same sequence.
 */
module Dictionary {
  import opened Common
  import opened Comparators
  import opened Sequences
  import opened SplayShape

  /** A key pointer, known to the dictionary only through the comparator. */
  type Key = Datum

  class Elem {
    var left: Elem?
    var right: Elem?
    var prev: Elem?
    var next: Elem?
    var key: Key
    var data: object?
    var position: int

    constructor (key: Key, data: object?)
      ensures this.key == key && this.data == data && left == null && right == null
    {
      this.key := key;
      this.data := data;
      left, right, prev, next := null, null, null, null;
      position := 0;
    }
  }

  datatype Entry = Entry(key: Key, data: object?)

  ghost predicate Sorted(es: seq<Entry>, cmp: Comparator) {
    forall i, j {:trigger Below(es, cmp, i, j)} :: 0 <= i < j < |es| ==> Below(es, cmp, i, j)
  }

  ghost predicate Below(es: seq<Entry>, cmp: Comparator, i: int, j: int)
    requires 0 <= i < |es| && 0 <= j < |es|
  {
    cmp(es[i].key, es[j].key) < 0
  }

  /** Position c splits the entries: all before are below key, all after above it. */
  ghost predicate Splits(es: seq<Entry>, cmp: Comparator, key: Key, c: int) {
    && (forall j {:trigger es[j]} :: 0 <= j < c && j < |es| ==> cmp(key, es[j].key) > 0)
    && (forall j {:trigger es[j]} :: c < j < |es| && 0 <= j ==> cmp(key, es[j].key) < 0)
  }

  /** One comparison tells about all entries on that side. */
  lemma Beyond(es: seq<Entry>, cmp: Comparator, key: Key, c: int)
    requires Consistent(cmp) && Sorted(es, cmp) && 0 <= c < |es|
    ensures cmp(key, es[c].key) < 0 ==> forall j :: c <= j < |es| ==> cmp(key, es[j].key) < 0
    ensures cmp(key, es[c].key) > 0 ==> forall j :: 0 <= j <= c ==> cmp(key, es[j].key) > 0
    ensures cmp(key, es[c].key) == 0 ==> Splits(es, cmp, key, c)
  {
    forall j | 0 <= j < |es|
      ensures c < j && cmp(key, es[c].key) <= 0 ==> cmp(key, es[j].key) < 0
      ensures j < c && cmp(key, es[c].key) >= 0 ==> cmp(key, es[j].key) > 0
    {
      assert (j < c ==> Below(es, cmp, j, c)) && (c < j ==> Below(es, cmp, c, j));
      assert Mirrored(cmp, key, es[c].key) && Mirrored(cmp, es[j].key, key) && Mirrored(cmp, es[c].key, key);
      assert Chained(cmp, key, es[c].key, es[j].key);
      assert Chained(cmp, es[j].key, es[c].key, key);
    }
  }

  // ----- pointers by position -----

  /** The element at a position, null outside. */
  ghost function At(order: seq<Elem>, i: int): Elem? {
    if 0 <= i < |order| then order[i] else null
  }

  ghost predicate LeftIs(order: seq<Elem>, sp: seq<Span>, i: int)
    requires 0 <= i < |order| == |sp|
    reads order`left
  {
    order[i].left == At(order, sp[i].l)
  }

  ghost predicate RightIs(order: seq<Elem>, sp: seq<Span>, i: int)
    requires 0 <= i < |order| == |sp|
    reads order`right
  {
    order[i].right == At(order, sp[i].r)
  }

  /** All child pointers are as sp says, but for the left one at b and the right one at a. */
  ghost predicate TreeLinks(order: seq<Elem>, sp: seq<Span>, a: int, b: int)
    reads order`left, order`right
  {
    && |order| == |sp|
    && (forall i {:trigger LeftIs(order, sp, i)} :: 0 <= i < |order| && i != b ==> LeftIs(order, sp, i))
    && (forall i {:trigger RightIs(order, sp, i)} :: 0 <= i < |order| && i != a ==> RightIs(order, sp, i))
  }

  ghost predicate ListLinks(order: seq<Elem>)
    reads order`prev, order`next
  {
    forall i {:trigger NeighboursOk(order, i)} :: 0 <= i < |order| ==> NeighboursOk(order, i)
  }

  ghost predicate NeighboursOk(order: seq<Elem>, i: int)
    requires 0 <= i < |order|
    reads order`prev, order`next
  {
    order[i].prev == At(order, i - 1) && order[i].next == At(order, i + 1)
  }

  ghost predicate Holds(order: seq<Elem>, es: seq<Entry>)
    reads order`key, order`data
  {
    |order| == |es| && forall i {:trigger es[i]} :: 0 <= i < |order| ==>
      order[i].key == es[i].key && order[i].data == es[i].data
  }

  ghost predicate Ranked(order: seq<Elem>)
    reads order`position
  {
    forall i {:trigger order[i]} :: 0 <= i < |order| ==> order[i].position == i
  }

  // ----- the steps of a splay -----

  /**
    A splay under way in the heap: node is the subtree being searched, left
    and right are where subtrees are hooked in, at first both the header.
   */
  ghost predicate SplayLinks(order: seq<Elem>, s: Splay, hdr: Elem, left: Elem, right: Elem, node: Elem)
    reads order`left, order`right, hdr`left, hdr`right
  {
    && Splaying(s) && TreeLinks(order, s.sp, s.a - 1, s.b)
    && hdr !in order && hdr.right == At(order, s.x) && hdr.left == At(order, s.y)
    && left == (if s.a == 0 then hdr else order[s.a - 1])
    && right == (if s.b == |order| then hdr else order[s.b])
    && node == order[s.c]
  }

  method RotateRightAt(node: Elem, ghost order: seq<Elem>, ghost s: Splay, ghost hdr: Elem, ghost left: Elem,
                       ghost right: Elem)
    returns (tn: Elem)
    requires Distinct(order) && SplayLinks(order, s, hdr, left, right, node) && HasLeft(s)
    modifies order`left, order`right
    ensures SplayLinks(order, RotateRight(s), hdr, left, right, tn)
  {
    Unique(order, s.c);
    Unique(order, s.sp[s.c].l);
    RotateRightOk(s);
    assert LeftIs(order, s.sp, s.c) && RightIs(order, s.sp, s.sp[s.c].l);
    tn := node.left;
    node.left := tn.right;
    tn.right := node;
    ghost var s' := RotateRight(s);
    forall i | 0 <= i < |order| && i != s.b ensures LeftIs(order, s'.sp, i) {
      assert old(LeftIs(order, s.sp, i));
    }
    forall i | 0 <= i < |order| && i != s.a - 1 ensures RightIs(order, s'.sp, i) {
      assert old(RightIs(order, s.sp, i));
    }
  }

  method RotateLeftAt(node: Elem, ghost order: seq<Elem>, ghost s: Splay, ghost hdr: Elem, ghost left: Elem,
                      ghost right: Elem)
    returns (tn: Elem)
    requires Distinct(order) && SplayLinks(order, s, hdr, left, right, node) && HasRight(s)
    modifies order`left, order`right
    ensures SplayLinks(order, RotateLeft(s), hdr, left, right, tn)
  {
    Unique(order, s.c);
    Unique(order, s.sp[s.c].r);
    RotateLeftOk(s);
    assert RightIs(order, s.sp, s.c) && LeftIs(order, s.sp, s.sp[s.c].r);
    tn := node.right;
    node.right := tn.left;
    tn.left := node;
    ghost var s' := RotateLeft(s);
    forall i | 0 <= i < |order| && i != s.b ensures LeftIs(order, s'.sp, i) {
      assert old(LeftIs(order, s.sp, i));
    }
    forall i | 0 <= i < |order| && i != s.a - 1 ensures RightIs(order, s'.sp, i) {
      assert old(RightIs(order, s.sp, i));
    }
  }

  /** Hooks node into the right-hand tree and goes on to its left child. */
  method LinkRightAt(node: Elem, right: Elem, ghost order: seq<Elem>, ghost s: Splay, ghost hdr: Elem, ghost left: Elem)
    returns (child: Elem)
    requires Distinct(order) && SplayLinks(order, s, hdr, left, right, node) && HasLeft(s)
    modifies order`left, hdr`left
    ensures SplayLinks(order, LinkRight(s), hdr, left, node, child)
  {
    Unique(order, s.b);
    LinkRightOk(s);
    assert LeftIs(order, s.sp, s.c);
    child := node.left;
    right.left := node;
    ghost var s' := LinkRight(s);
    forall i | 0 <= i < |order| && i != s.c ensures LeftIs(order, s'.sp, i) {
      assert i != s.b ==> old(LeftIs(order, s.sp, i));
    }
    forall i | 0 <= i < |order| && i != s.a - 1 ensures RightIs(order, s'.sp, i) {
      assert old(RightIs(order, s.sp, i));
    }
  }

  method LinkLeftAt(node: Elem, left: Elem, ghost order: seq<Elem>, ghost s: Splay, ghost hdr: Elem, ghost right: Elem)
    returns (child: Elem)
    requires Distinct(order) && SplayLinks(order, s, hdr, left, right, node) && HasRight(s)
    modifies order`right, hdr`right
    ensures SplayLinks(order, LinkLeft(s), hdr, node, right, child)
  {
    Unique(order, s.a - 1);
    LinkLeftOk(s);
    assert RightIs(order, s.sp, s.c);
    child := node.right;
    left.right := node;
    ghost var s' := LinkLeft(s);
    forall i | 0 <= i < |order| && i != s.b ensures LeftIs(order, s'.sp, i) {
      assert old(LeftIs(order, s.sp, i));
    }
    forall i | 0 <= i < |order| && i != s.c ensures RightIs(order, s'.sp, i) {
      assert i != s.a - 1 ==> old(RightIs(order, s.sp, i));
    }
  }

  /** Puts the three trees together under node. */
  method AssembleAt(left: Elem, right: Elem, node: Elem, hdr: Elem, ghost order: seq<Elem>, ghost s: Splay)
    requires Distinct(order) && SplayLinks(order, s, hdr, left, right, node)
    modifies order`left, order`right, hdr`left, hdr`right
    ensures TreeLinks(order, Assemble(s), NONE, |order|) && TreeOk(Assemble(s), s.c)
  {
    Unique(order, s.a - 1);
    Unique(order, s.b);
    Unique(order, s.c);
    AssembleOk(s);
    assert LeftIs(order, s.sp, s.c) && RightIs(order, s.sp, s.c);
    left.right := node.left;
    right.left := node.right;
    node.left := hdr.right;
    node.right := hdr.left;
    ghost var sp' := Assemble(s);
    forall i | 0 <= i < |order| ensures LeftIs(order, sp', i) {
      assert i != s.b ==> old(LeftIs(order, s.sp, i));
    }
    forall i | 0 <= i < |order| ensures RightIs(order, sp', i) {
      assert i != s.a - 1 ==> old(RightIs(order, s.sp, i));
    }
  }

  /** Rotates right if key is also below the left child; done if that leaves no left child. */
  method TurnRight(cmp: Comparator, key: Key, node0: Elem, ghost order: seq<Elem>, ghost es: seq<Entry>,
                   ghost s0: Splay, ghost hdr: Elem, ghost left: Elem, ghost right: Elem)
    returns (node: Elem, done: bool, ghost s: Splay)
    requires Distinct(order) && Holds(order, es) && SplayLinks(order, s0, hdr, left, right, node0)
    requires node0.left != null && cmp(key, es[s0.c].key) < 0
    modifies order`left, order`right
    ensures SplayLinks(order, s, hdr, left, right, node) && cmp(key, es[s.c].key) < 0
    ensures s.a == s0.a && s.b == s0.b && if done then s.c == s.a else HasLeft(s)
  {
    node, done, s := node0, false, s0;
    assert LeftIs(order, s.sp, s.c) && es[s.sp[s.c].l].key == node.left.key;
    if cmp(key, node.left.key) < 0 {
      node := RotateRightAt(node, order, s, hdr, left, right);
      s := RotateRight(s);
      assert LeftIs(order, s.sp, s.c);
      done := node.left == null;
    }
  }

  method TurnLeft(cmp: Comparator, key: Key, node0: Elem, ghost order: seq<Elem>, ghost es: seq<Entry>, ghost s0: Splay,
                  ghost hdr: Elem, ghost left: Elem, ghost right: Elem)
    returns (node: Elem, done: bool, ghost s: Splay)
    requires Distinct(order) && Holds(order, es) && SplayLinks(order, s0, hdr, left, right, node0)
    requires node0.right != null && cmp(key, es[s0.c].key) > 0
    modifies order`left, order`right
    ensures SplayLinks(order, s, hdr, left, right, node) && cmp(key, es[s.c].key) > 0
    ensures s.a == s0.a && s.b == s0.b && if done then s.c == s.b - 1 else HasRight(s)
  {
    node, done, s := node0, false, s0;
    assert RightIs(order, s.sp, s.c) && es[s.sp[s.c].r].key == node.right.key;
    if cmp(key, node.right.key) > 0 {
      node := RotateLeftAt(node, order, s, hdr, left, right);
      s := RotateLeft(s);
      assert RightIs(order, s.sp, s.c);
      done := node.right == null;
    }
  }

  /** One round towards smaller keys; done if there is nowhere left to go. */
  method SplayLeft(cmp: Comparator, key: Key, node0: Elem, right0: Elem, ghost order: seq<Elem>, ghost es: seq<Entry>,
                   ghost s0: Splay, ghost hdr: Elem, ghost left: Elem)
    returns (node: Elem, right: Elem, done: bool, ghost s: Splay)
    requires Distinct(order) && Holds(order, es) && SplayLinks(order, s0, hdr, left, right0, node0)
    requires cmp(key, es[s0.c].key) < 0
    modifies order`left, order`right, hdr`left
    ensures SplayLinks(order, s, hdr, left, right, node) && s.a == s0.a
    ensures if done then s.c == s.a && s.b == s0.b && cmp(key, es[s.c].key) < 0
            else s.b < s0.b && cmp(key, es[s.b].key) < 0
  {
    node, right, done, s := node0, right0, true, s0;
    assert LeftIs(order, s.sp, s.c);
    if node.left != null {
      node, done, s := TurnRight(cmp, key, node, order, es, s, hdr, left, right);
      if !done {
        var child := LinkRightAt(node, right, order, s, hdr, left);
        right, node, s := node, child, LinkRight(s);
      }
    }
  }

  method SplayRight(cmp: Comparator, key: Key, node0: Elem, left0: Elem, ghost order: seq<Elem>, ghost es: seq<Entry>,
                    ghost s0: Splay, ghost hdr: Elem, ghost right: Elem)
    returns (node: Elem, left: Elem, done: bool, ghost s: Splay)
    requires Distinct(order) && Holds(order, es) && SplayLinks(order, s0, hdr, left0, right, node0)
    requires cmp(key, es[s0.c].key) > 0
    modifies order`left, order`right, hdr`right
    ensures SplayLinks(order, s, hdr, left, right, node) && s.b == s0.b
    ensures if done then s.c == s.b - 1 && s.a == s0.a && cmp(key, es[s.c].key) > 0
            else s0.a < s.a && cmp(key, es[s.a - 1].key) > 0
  {
    node, left, done, s := node0, left0, true, s0;
    assert RightIs(order, s.sp, s.c);
    if node.right != null {
      node, done, s := TurnLeft(cmp, key, node, order, es, s, hdr, left, right);
      if !done {
        var child := LinkLeftAt(node, left, order, s, hdr, right);
        assert s0.a <= s.c && cmp(key, es[s.c].key) > 0;
        left, node, s := node, child, LinkLeft(s);
      }
    }
  }

  /** What the splay has learned: everything left of a is below key, everything from b on above. */
  ghost predicate Frontier(es: seq<Entry>, cmp: Comparator, key: Key, a: int, b: int) {
    && (forall j {:trigger es[j]} :: 0 <= j < a && j < |es| ==> cmp(key, es[j].key) > 0)
    && (forall j {:trigger es[j]} :: b <= j < |es| && 0 <= j ==> cmp(key, es[j].key) < 0)
  }

  lemma FrontierMoves(es: seq<Entry>, cmp: Comparator, key: Key, a: int, b: int, c: int)
    requires Consistent(cmp) && Sorted(es, cmp) && Frontier(es, cmp, key, a, b) && 0 <= c < |es|
    ensures cmp(key, es[c].key) < 0 ==> Frontier(es, cmp, key, a, c) && (c == a ==> Splits(es, cmp, key, c))
    ensures cmp(key, es[c].key) > 0 ==> Frontier(es, cmp, key, c + 1, b) && (c == b - 1 ==> Splits(es, cmp, key, c))
    ensures cmp(key, es[c].key) == 0 ==> Splits(es, cmp, key, c)
  {
    Beyond(es, cmp, key, c);
  }

  /** One round of the loop. */
  method Round(cmp: Comparator, key: Key, node0: Elem, left0: Elem, right0: Elem, ghost order: seq<Elem>,
               ghost es: seq<Entry>, ghost s0: Splay, ghost hdr: Elem)
    returns (node: Elem, left: Elem, right: Elem, done: bool, ghost s: Splay)
    requires Consistent(cmp) && Sorted(es, cmp) && Distinct(order) && Holds(order, es)
    requires SplayLinks(order, s0, hdr, left0, right0, node0) && Frontier(es, cmp, key, s0.a, s0.b)
    modifies order`left, order`right, hdr`left, hdr`right
    ensures SplayLinks(order, s, hdr, left, right, node) && Frontier(es, cmp, key, s.a, s.b)
    ensures if done then Splits(es, cmp, key, s.c) else s.b - s.a < s0.b - s0.a
  {
    node, left, right, done, s := node0, left0, right0, true, s0;
    assert es[s.c].key == node.key;
    var ret := cmp(key, node.key);
    if ret == 0 {
      FrontierMoves(es, cmp, key, s.a, s.b, s.c);
    } else if ret < 0 {
      node, right, done, s := SplayLeft(cmp, key, node, right, order, es, s, hdr, left);
      FrontierMoves(es, cmp, key, s0.a, s0.b, if done then s.c else s.b);
    } else {
      node, left, done, s := SplayRight(cmp, key, node, left, order, es, s, hdr, right);
      FrontierMoves(es, cmp, key, s0.a, s0.b, if done then s.c else s.a - 1);
    }
  }

  /** The whole splay: the new root splits the entries at key. */
  method Splayed(cmp: Comparator, key: Key, root: Elem, ghost order: seq<Elem>, ghost es: seq<Entry>,
                 ghost sp: seq<Span>, ghost rootAt: int)
    returns (node: Elem, ghost sp': seq<Span>, ghost c: int)
    requires Consistent(cmp) && Sorted(es, cmp) && Distinct(order) && Holds(order, es)
    requires TreeLinks(order, sp, NONE, |order|) && TreeOk(sp, rootAt) && root == At(order, rootAt)
    modifies order`left, order`right
    ensures TreeLinks(order, sp', NONE, |order|) && TreeOk(sp', c) && node == At(order, c)
    ensures 0 <= c < |order| && Splits(es, cmp, key, c)
  {
    var n := new Elem(0, null);
    var left, right := n, n;
    node := root;
    ghost var s := Splay(sp, 0, |order|, rootAt, NONE, NONE);
    assert SpanOk(sp, rootAt);
    var done := false;
    while !done
      invariant SplayLinks(order, s, n, left, right, node)
      invariant Frontier(es, cmp, key, s.a, s.b)
      invariant done ==> Splits(es, cmp, key, s.c)
      decreases !done, s.b - s.a
    {
      node, left, right, done, s := Round(cmp, key, node, left, right, order, es, s, n);
    }
    AssembleAt(left, right, node, n, order, s);
    sp', c := Assemble(s), s.c;
  }

  // ----- what the operations mean -----

  /** How many entries are below key. */
  ghost function Rank(es: seq<Entry>, cmp: Comparator, key: Key): (r: nat)
    ensures r <= |es|
  {
    if es == [] || cmp(key, es[0].key) <= 0 then 0 else 1 + Rank(es[1..], cmp, key)
  }

  ghost predicate Present(es: seq<Entry>, cmp: Comparator, key: Key) {
    var r := Rank(es, cmp, key);
    r < |es| && cmp(key, es[r].key) == 0
  }

  /** Key and data replace an equal entry, or go to their place in the order. */
  ghost function Put(es: seq<Entry>, cmp: Comparator, e: Entry): seq<Entry> {
    var r := Rank(es, cmp, e.key);
    if Present(es, cmp, e.key) then es[r := e] else es[..r] + [e] + es[r..]
  }

  /** What linking an entry at position c comes to, as the result of the comparison there says. */
  ghost function LinkedAt(es: seq<Entry>, c: nat, ret: int, e: Entry): seq<Entry>
    requires c < |es|
  {
    if ret < 0 then Inserted(es, c, e) else if ret > 0 then Inserted(es, c + 1, e) else es[c := e]
  }

  /** Linking beside the entry that splits the others is right exactly if the comparison survives the int. */
  lemma LinkedIff(es: seq<Entry>, cmp: Comparator, c: nat, e: Entry)
    requires Consistent(cmp) && Sorted(es, cmp) && c < |es| && Splits(es, cmp, e.key, c)
    ensures var es' := LinkedAt(es, c, ToInt(cmp(e.key, es[c].key)), e);
      && (Fits(cmp, e.key, es[c].key) <==> es' == Put(es, cmp, e))
      && (Fits(cmp, e.key, es[c].key) ==> Sorted(es', cmp))
    ensures var ret := ToInt(cmp(e.key, es[c].key));
      Fits(cmp, e.key, es[c].key) ==>
        && (ret == 0 <==> Present(es, cmp, e.key))
        && (ret != 0 ==> Rank(es, cmp, e.key) == if ret < 0 then c else c + 1)
  {
    RankAtRoot(es, cmp, e.key, c);
    PutSorted(es, cmp, e, c);
    var v := cmp(e.key, es[c].key);
    var es' := LinkedAt(es, c, ToInt(v), e);
    if Fits(cmp, e.key, es[c].key) {
      assert es' == Put(es, cmp, e);
    } else if ToInt(v) != 0 {
      assert v != 0;
      assert Mirrored(cmp, e.key, e.key);
      assert es'[c] != Put(es, cmp, e)[c];
    }
  }

  ghost function Remove(es: seq<Entry>, cmp: Comparator, key: Key): seq<Entry> {
    var r := Rank(es, cmp, key);
    if Present(es, cmp, key) then es[..r] + es[r + 1..] else es
  }

  /** A position with everything below key before it and nothing below key from it on is the rank. */
  lemma {:induction false} RankIs(es: seq<Entry>, cmp: Comparator, key: Key, r: nat)
    requires r <= |es|
    requires forall j :: 0 <= j < r ==> cmp(key, es[j].key) > 0
    requires r < |es| ==> cmp(key, es[r].key) <= 0
    ensures Rank(es, cmp, key) == r
  {
    if r > 0 {
      assert cmp(key, es[0].key) > 0;
      RankIs(es[1..], cmp, key, r - 1);
    }
  }

  /** What a root that splits the entries says about the rank of key. */
  lemma RankAtRoot(es: seq<Entry>, cmp: Comparator, key: Key, c: nat)
    requires c < |es| && Splits(es, cmp, key, c)
    ensures Rank(es, cmp, key) == if cmp(key, es[c].key) > 0 then c + 1 else c
    ensures Present(es, cmp, key) <==> cmp(key, es[c].key) == 0
  {
    RankIs(es, cmp, key, if cmp(key, es[c].key) > 0 then c + 1 else c);
  }

  /** A key is present exactly if some entry compares equal to it. */
  lemma PresentIs(es: seq<Entry>, cmp: Comparator, key: Key, i: nat)
    requires Consistent(cmp) && Sorted(es, cmp) && i < |es|
    ensures cmp(key, es[i].key) == 0 <==> Present(es, cmp, key) && i == Rank(es, cmp, key)
  {
    if cmp(key, es[i].key) == 0 {
      Beyond(es, cmp, key, i);
      RankAtRoot(es, cmp, key, i);
    }
  }

  lemma PutSorted(es: seq<Entry>, cmp: Comparator, e: Entry, c: nat)
    requires Consistent(cmp) && Sorted(es, cmp) && c < |es| && Splits(es, cmp, e.key, c)
    ensures Sorted(Put(es, cmp, e), cmp)
  {
    RankAtRoot(es, cmp, e.key, c);
    var es' := Put(es, cmp, e);
    forall i, j | 0 <= i < j < |es'| ensures Below(es', cmp, i, j) {
      var r := Rank(es, cmp, e.key);
      var down := if |es'| == |es| then 0 else 1;
      if i != r && j != r { assert Below(es, cmp, if i < r then i else i - down, if j < r then j else j - down); }
      assert Mirrored(cmp, es'[i].key, es'[j].key);
      assert Mirrored(cmp, es'[j].key, es'[i].key);
    }
  }

  // ----- linking and unlinking at the root -----

  /** Elements keep their positions up to p and move up by one from there. */
  lemma AtInserted(order: seq<Elem>, p: nat, d: Elem, k: int)
    requires p <= |order|
    ensures k < p ==> At(Inserted(order, p, d), k) == At(order, k)
    ensures p <= k ==> At(Inserted(order, p, d), k + 1) == At(order, k)
    ensures At(Inserted(order, p, d), p) == d
  {
  }

  /** Makes d the root in front of the old root, taking over its left subtree. */
  method GraftBefore(d: Elem, root: Elem, ghost order: seq<Elem>, ghost sp: seq<Span>, ghost c: nat)
    requires Distinct(order) && d !in order && TreeLinks(order, sp, NONE, |order|)
    requires TreeOk(sp, c) && c < |order| && root == order[c]
    modifies root`left, d`left, d`right
    ensures TreeLinks(Inserted(order, c, d), LinkBefore(sp, c), NONE, |order| + 1) && TreeOk(LinkBefore(sp, c), c)
  {
    Unique(order, c);
    LinkBeforeOk(sp, c);
    assert LeftIs(order, sp, c);
    d.left := root.left;
    d.right := root;
    root.left := null;
    ghost var o', sp' := Inserted(order, c, d), LinkBefore(sp, c);
    forall i | 0 <= i < |o'| ensures LeftIs(o', sp', i) && RightIs(o', sp', i) {
      GraftChildren(order, sp, c, c, d, i);
      if i != c {
        assert old(LeftIs(order, sp, if i < c then i else i - 1));
        assert old(RightIs(order, sp, if i < c then i else i - 1));
      }
    }
  }

  method GraftAfter(d: Elem, root: Elem, ghost order: seq<Elem>, ghost sp: seq<Span>, ghost c: nat)
    requires Distinct(order) && d !in order && TreeLinks(order, sp, NONE, |order|)
    requires TreeOk(sp, c) && c < |order| && root == order[c]
    modifies root`right, d`left, d`right
    ensures TreeLinks(Inserted(order, c + 1, d), LinkAfter(sp, c), NONE, |order| + 1) && TreeOk(LinkAfter(sp, c), c + 1)
  {
    Unique(order, c);
    LinkAfterOk(sp, c);
    assert RightIs(order, sp, c);
    d.right := root.right;
    d.left := root;
    root.right := null;
    ghost var o', sp' := Inserted(order, c + 1, d), LinkAfter(sp, c);
    forall i | 0 <= i < |o'| ensures LeftIs(o', sp', i) && RightIs(o', sp', i) {
      GraftChildren(order, sp, c, c + 1, d, i);
      if i != c + 1 {
        assert old(LeftIs(order, sp, if i <= c then i else i - 1));
        assert old(RightIs(order, sp, if i <= c then i else i - 1));
      }
    }
  }

  /** Where the children of an element are after an insertion at p, next to the root c. */
  lemma GraftChildren(order: seq<Elem>, sp: seq<Span>, c: nat, p: nat, d: Elem, i: nat)
    requires |order| == |sp| && TreeOk(sp, c) && c < |sp| && c <= p <= c + 1 && i <= |sp|
    ensures var o' := Inserted(order, p, d);
      && |o'| == |sp| + 1 && o'[p] == d && (i < p ==> o'[i] == order[i]) && (p < i ==> o'[i] == order[i - 1])
      && (i < c ==> At(o', sp[i].l) == At(order, sp[i].l) && At(o', sp[i].r) == At(order, sp[i].r))
      && (c + 1 < i ==>
        At(o', Up(sp[i - 1].l)) == At(order, sp[i - 1].l) && At(o', Up(sp[i - 1].r)) == At(order, sp[i - 1].r))
      && At(o', sp[c].l) == At(order, sp[c].l) && At(o', Up(sp[c].r)) == At(order, sp[c].r)
      && At(o', NONE) == null
  {
    RootSides(sp, c, c);
    if i < c { RootSides(sp, c, i); }
    if c + 1 < i { RootSides(sp, c, i - 1); }
  }

  /** Where the children of an element other than the old root c are once c is gone. */
  lemma RemovedChildren(order: seq<Elem>, sp: seq<Span>, c: nat, i: nat)
    requires |order| == |sp| && TreeOk(sp, c) && c < |sp| && i < |sp|
    ensures var o' := Removed(order, c);
      && |o'| == |sp| - 1
      && (i < c ==> o'[i] == order[i] && At(o', sp[i].l) == At(order, sp[i].l) && At(o', sp[i].r) == At(order, sp[i].r))
      && (c < i ==>
        && o'[i - 1] == order[i]
        && At(o', Down(sp[i].l)) == At(order, sp[i].l)
        && At(o', Down(sp[i].r)) == At(order, sp[i].r))
      && At(o', sp[c].l) == At(order, sp[c].l) && At(o', Down(sp[c].r)) == At(order, sp[c].r)
      && At(o', NONE) == null
  {
    RootSides(sp, c, c);
    RootSides(sp, c, i);
  }

  /** A root with at most one child gives way to that child. */
  lemma UnlinkNarrow(order: seq<Elem>, sp: seq<Span>, c: nat)
    requires TreeLinks(order, sp, NONE, |order|) && TreeOk(sp, c) && c < |order| && (sp[c].l == NONE || sp[c].r == NONE)
    ensures TreeLinks(Removed(order, c), Unlink(sp, c), NONE, |order| - 1)
    ensures At(Removed(order, c), RootAfter(sp, c)) == if sp[c].l == NONE then order[c].right else order[c].left
  {
    var o', sp' := Removed(order, c), Unlink(sp, c);
    RemovedChildren(order, sp, c, c);
    assert LeftIs(order, sp, c) && RightIs(order, sp, c);
    forall j | 0 <= j < |o'| ensures LeftIs(o', sp', j) && RightIs(o', sp', j) {
      var i := if j < c then j else j + 1;
      RootSides(sp, c, i);
      RemovedChildren(order, sp, c, i);
      assert LeftIs(order, sp, i) && RightIs(order, sp, i);
    }
  }

  /** The element whose left child is the one after the root. */
  method ParentOfNext(start: Elem, nextnode: Elem, ghost order: seq<Elem>, ghost sp: seq<Span>, ghost c: nat)
    returns (p: Elem, ghost at: int)
    requires TreeLinks(order, sp, NONE, |order|) && TreeOk(sp, c) && Distinct(order) && c + 1 < |order|
    requires sp[c].r != NONE && sp[c].r != c + 1 && start == At(order, sp[c].r) && nextnode == order[c + 1]
    ensures c + 1 < at < |order| && p == order[at] && sp[at].l == c + 1 && sp[at].lo == c + 1 && sp[c + 1].hi == at
  {
    p := start;
    at := sp[c].r;
    RootSides(sp, c, c);
    RootSides(sp, c, at);
    assert LeftIs(order, sp, at);
    while p.left != null && p.left != nextnode
      invariant c + 1 < at < |order| && p == order[at] && sp[at].lo == c + 1 && SpanOk(sp, at) && LeftIs(order, sp, at)
      decreases at
    {
      p := p.left;
      at := sp[at].l;
      assert SpanOk(sp, at) && LeftIs(order, sp, at);
    }
    Unique(order, c + 1);
  }

  /** Puts the element after the root in the root's place. */
  method PromoteNext(delem: Elem, ghost order: seq<Elem>, ghost sp: seq<Span>, ghost c: nat) returns (nextnode: Elem)
    requires Distinct(order) && TreeLinks(order, sp, NONE, |order|) && TreeOk(sp, c) && c < |order| && delem == order[c]
    requires sp[c].l != NONE && sp[c].r != NONE && delem.next == At(order, c + 1)
    modifies order`left, order`right
    ensures TreeLinks(Removed(order, c), Unlink(sp, c), NONE, |order| - 1)
    ensures nextnode == At(Removed(order, c), c)
  {
    NextIsLeftmost(sp, c);
    RootSides(sp, c, c);
    assert LeftIs(order, sp, c) && RightIs(order, sp, c) && LeftIs(order, sp, c + 1) && RightIs(order, sp, c + 1);
    Unique(order, c + 1);
    nextnode := delem.next;
    ghost var at := |order|;
    if nextnode == delem.right {
      Unique(order, sp[c].r);
      nextnode.left := delem.left;
    } else {
      var parentofnext;
      parentofnext, at := ParentOfNext(delem.right, nextnode, order, sp, c);
      Unique(order, at);
      parentofnext.left := nextnode.right;
      nextnode.left := delem.left;
      nextnode.right := delem.right;
    }
    ghost var o', sp' := Removed(order, c), Unlink(sp, c);
    RemovedChildren(order, sp, c, c + 1);
    forall j | 0 <= j < |o'| ensures LeftIs(o', sp', j) && RightIs(o', sp', j) {
      ghost var i := if j < c then j else j + 1;
      RootSides(sp, c, i);
      RemovedChildren(order, sp, c, i);
      assert old(LeftIs(order, sp, i)) && old(RightIs(order, sp, i));
      assert sp[i].l == c + 1 ==> i == at;
    }
  }

  /** Numbers the elements of the list in list order. */
  method NumberFrom(head: Elem?, ghost order: seq<Elem>)
    requires Distinct(order) && ListLinks(order) && head == At(order, 0)
    modifies order`position
    ensures Ranked(order)
  {
    var delem := head;
    var i := 0;
    while delem != null
      invariant 0 <= i <= |order| && delem == At(order, i)
      invariant forall j {:trigger order[j]} :: 0 <= j < i ==> order[j].position == j
      decreases |order| - i
    {
      Unique(order, i);
      assert NeighboursOk(order, i);
      delem.position := i;
      delem := delem.next;
      i := i + 1;
    }
  }

  // ----- the dictionary -----

  class Dictionary {
    const compare: Comparator
    var root: Elem?
    var head: Elem?
    var tail: Elem?
    var count: nat
    var dirty: bool
    ghost var order: seq<Elem>
    ghost var entries: seq<Entry>
    ghost var sp: seq<Span>
    ghost var rootAt: int

    ghost predicate Valid()
      reads this, order
    {
      Core() && count == |order|
    }

    ghost predicate Core()
      reads this, order
    {
      Consistent(compare) && Sorted(entries, compare) && Linked()
    }

    /** The tree, the list and the entries agree; clean positions are ranks. */
    ghost predicate Linked()
      reads this, order
    {
      && Distinct(order) && Holds(order, entries)
      && TreeValid()
      && ListValid()
      && (!dirty ==> Ranked(order))
    }

    ghost predicate TreeValid()
      reads this, order`left, order`right
    {
      TreeLinks(order, sp, NONE, |order|) && TreeOk(sp, rootAt) && root == At(order, rootAt)
    }

    ghost predicate ListValid()
      reads this, order`prev, order`next
    {
      ListLinks(order) && head == At(order, 0) && tail == At(order, |order| - 1)
    }

    constructor (compare: Comparator)
      requires Consistent(compare)
      ensures Valid() && entries == [] && order == [] && this.compare == compare
    {
      this.compare := compare;
      root, head, tail := null, null, null;
      count := 0;
      dirty := false;
      order, entries, sp, rootAt := [], [], [], NONE;
    }

    /**
      The splay: afterwards the root splits the entries, so it holds key if
      any element does and is one of key's two neighbours otherwise.
     */
    method Retune(key: Key)
      requires Core()
      modifies `root, `sp, `rootAt, order`left, order`right
      ensures Core()
      ensures order != [] ==> 0 <= rootAt < |order| && Splits(entries, compare, key, rootAt)
    {
      if root == null { return; }
      ghost var sp', c;
      var node;
      node, sp', c := Splayed(compare, key, root, order, entries, sp, rootAt);
      assert Holds(order, entries);
      assert ListLinks(order);
      assert !dirty ==> Ranked(order);
      root := node;
      sp, rootAt := sp', c;
      assert Holds(order, entries);
      assert ListLinks(order);
      assert !dirty ==> Ranked(order);
      assert TreeValid();
    }

    /** Looking a key up splays the tree and finds the key exactly if it is present. */
    method Find(key: Key) returns (elem: Elem?)
      requires Valid()
      modifies `root, `sp, `rootAt, order`left, order`right
      ensures Valid()
      ensures elem != null <==> Present(entries, compare, key)
      ensures elem != null ==> elem == At(order, Rank(entries, compare, key)) && elem == root
      ensures elem != null ==>
        order != [] && Splits(entries, compare, key, rootAt) && compare(key, entries[rootAt].key) == 0
    {
      Retune(key);
      elem := null;
      if root != null {
        assert root.key == entries[rootAt].key;
        RankAtRoot(entries, compare, key, rootAt);
        if compare(key, root.key) == 0 {
          elem := root;
        }
      }
    }

    method Retrieve(key: Key) returns (data: object?)
      requires Valid()
      modifies `root, `sp, `rootAt, order`left, order`right
      ensures Valid()
      ensures data == if Present(entries, compare, key) then entries[Rank(entries, compare, key)].data else null
    {
      var delem := Find(key);
      data := if delem != null then delem.data else null;
    }

    /** The linear index of a key is its rank, whether or not positions had to be renumbered. */
    method GetLinearIndex(key: Key) returns (index: int)
      requires Valid()
      modifies `root, `sp, `rootAt, `dirty, order`left, order`right, order`position
      ensures Valid()
      ensures index == if Present(entries, compare, key) then Rank(entries, compare, key) else -1
    {
      var elem := Find(key);
      if elem == null { return -1; }
      if !dirty {
        assert Ranked(order);
        return elem.position;
      }
      Renumber();
      return elem.position;
    }

    method Renumber()
      requires Valid()
      modifies `dirty, order`position
      ensures Valid() && !dirty
    {
      NumberFrom(head, order);
      dirty := false;
      assert Ranked(order);
      assert TreeValid();
      assert ListValid();
    }

    /** Threads d on the list right before element c. */
    method ThreadBefore(d: Elem, e: Elem, ghost c: nat, ghost sp': seq<Span>, ghost es: seq<Entry>)
      requires Distinct(order) && d !in order && ListValid() && c < |order| && e == order[c]
      requires TreeLinks(Inserted(order, c, d), sp', NONE, |order| + 1) && Holds(Inserted(order, c, d), es)
      modifies `head, order`prev, order`next, d`prev, d`next
      ensures TreeLinks(Inserted(order, c, d), sp', NONE, |order| + 1) && Holds(Inserted(order, c, d), es)
      ensures ListLinks(Inserted(order, c, d))
      ensures head == At(Inserted(order, c, d), 0) && tail == At(Inserted(order, c, d), |order|)
    {
      Unique(order, c);
      Unique(order, c - 1);
      assert NeighboursOk(order, c);
      if e.prev != null {
        e.prev.next := d;
      } else {
        head := d;
      }
      d.prev := e.prev;
      d.next := e;
      e.prev := d;
      ghost var o' := Inserted(order, c, d);
      forall i | 0 <= i < |o'| ensures NeighboursOk(o', i) {
        if i != c { assert old(NeighboursOk(order, if i < c then i else i - 1)); }
      }
    }

    /** Threads d on the list right after element c. */
    method ThreadAfter(d: Elem, e: Elem, ghost c: nat, ghost sp': seq<Span>, ghost es: seq<Entry>)
      requires Distinct(order) && d !in order && ListValid() && c < |order| && e == order[c]
      requires TreeLinks(Inserted(order, c + 1, d), sp', NONE, |order| + 1) && Holds(Inserted(order, c + 1, d), es)
      modifies `tail, order`prev, order`next, d`prev, d`next
      ensures TreeLinks(Inserted(order, c + 1, d), sp', NONE, |order| + 1) && Holds(Inserted(order, c + 1, d), es)
      ensures ListLinks(Inserted(order, c + 1, d))
      ensures head == At(Inserted(order, c + 1, d), 0) && tail == At(Inserted(order, c + 1, d), |order|)
    {
      Unique(order, c);
      Unique(order, c + 1);
      assert NeighboursOk(order, c);
      if e.next != null {
        e.next.prev := d;
      } else {
        tail := d;
      }
      d.next := e.next;
      d.prev := e;
      e.next := d;
      ghost var o' := Inserted(order, c + 1, d);
      forall i | 0 <= i < |o'| ensures NeighboursOk(o', i) {
        if i != c + 1 { assert old(NeighboursOk(order, if i <= c then i else i - 1)); }
      }
    }

    /** The ghost view of the dictionary follows once the pointers are written. */
    ghost method Adopt(o: seq<Elem>, es: seq<Entry>, sp': seq<Span>, c: int)
      requires Distinct(o) && Holds(o, es) && count == |o| && dirty
      requires TreeLinks(o, sp', NONE, |o|) && TreeOk(sp', c) && root == At(o, c)
      requires ListLinks(o) && head == At(o, 0) && tail == At(o, |o| - 1)
      modifies `order, `entries, `sp, `rootAt
      ensures Linked() && order == o && entries == es && rootAt == c
    {
      order, entries, sp, rootAt := o, es, sp', c;
      assert TreeValid();
      assert ListValid();
    }

    lemma InsertedOk(d: Elem, p: nat, e: Entry)
      requires Distinct(order) && d !in order && Holds(order, entries)
      requires d.key == e.key && d.data == e.data && p <= |order|
      ensures Distinct(Inserted(order, p, d)) && Holds(Inserted(order, p, d), Inserted(entries, p, e))
    {
      var o', es' := Inserted(order, p, d), Inserted(entries, p, e);
      forall i, j | 0 <= i < j < |o'| ensures Differ(o', i, j) {
        if i != p && j != p { assert Differ(order, if i < p then i else i - 1, if j < p then j else j - 1); }
      }
      forall i | 0 <= i < |o'| ensures o'[i].key == es'[i].key && o'[i].data == es'[i].data {
        if i != p { var j := if i < p then i else i - 1; assert entries[j] == es'[i]; }
      }
    }

    method LinkFirst(delem: Elem)
      requires Core() && root == null && dirty && count == 1
      modifies this, delem`left, delem`right, delem`prev, delem`next
      ensures Valid() && entries == [Entry(delem.key, delem.data)] && order == [delem]
    {
      delem.left, delem.right := null, null;
      delem.next, delem.prev := null, null;
      head, tail, root := delem, delem, delem;
      ghost var o, sp' := [delem], [Span(0, 1, NONE, NONE)];
      assert SpanOk(sp', 0) && LeftIs(o, sp', 0) && RightIs(o, sp', 0) && NeighboursOk(o, 0);
      Adopt(o, [Entry(delem.key, delem.data)], sp', 0);
    }

    method LinkBeforeRoot(delem: Elem, ghost c: nat)
      requires Linked() && delem !in order && dirty && count == |order| + 1 && c < |order| && c == rootAt
      modifies this, order, delem
      ensures Linked() && count == |order| && delem.key == old(delem.key) && delem.data == old(delem.data)
      ensures entries == Inserted(old(entries), c, Entry(delem.key, delem.data))
      ensures order == Inserted(old(order), c, delem)
    {
      ghost var e := Entry(delem.key, delem.data);
      hide Inserted, LinkBefore, TreeOk;
      InsertedOk(delem, c, e);
      ghost var o, es, sp' := Inserted(order, c, delem), Inserted(entries, c, e), LinkBefore(sp, c);
      AtInserted(order, c, delem, c);
      GraftBefore(delem, root, order, sp, c);
      assert Holds(o, es);
      ThreadBefore(delem, root, c, sp', es);
      root := delem;
      Adopt(o, es, sp', c);
    }

    method LinkAfterRoot(delem: Elem, ghost c: nat)
      requires Linked() && delem !in order && dirty && count == |order| + 1 && c < |order| && c == rootAt
      modifies this, order, delem
      ensures Linked() && count == |order| && delem.key == old(delem.key) && delem.data == old(delem.data)
      ensures entries == Inserted(old(entries), c + 1, Entry(delem.key, delem.data))
      ensures order == Inserted(old(order), c + 1, delem)
    {
      ghost var e := Entry(delem.key, delem.data);
      hide Inserted, LinkAfter, TreeOk;
      InsertedOk(delem, c + 1, e);
      ghost var o, es, sp' := Inserted(order, c + 1, delem), Inserted(entries, c + 1, e), LinkAfter(sp, c);
      AtInserted(order, c + 1, delem, c + 1);
      GraftAfter(delem, root, order, sp, c);
      assert Holds(o, es);
      ThreadAfter(delem, root, c, sp', es);
      root := delem;
      Adopt(o, es, sp', c + 1);
    }

    method ReplaceRoot(delem: Elem, ghost c: nat)
      requires Linked() && delem !in order && dirty && count == |order| + 1 && c < |order| && c == rootAt
      modifies `count, `entries, order`key, order`data
      ensures Linked() && count == |order| && entries == old(entries)[c := Entry(delem.key, delem.data)]
      ensures delem.key == old(delem.key) && delem.data == old(delem.data)
    {
      Unique(order, c);
      root.key := delem.key;
      root.data := delem.data;
      count := count - 1;
      entries := entries[c := Entry(delem.key, delem.data)];
      assert Holds(order, entries);
      assert TreeValid();
      assert ListValid();
    }

    /** The comparison with the root decides, stored into an int. */
    method LinkAtRoot(delem: Elem, ghost c: nat)
      requires Linked() && delem !in order && dirty && count == |order| + 1 && c < |order| && c == rootAt
      modifies this, order, delem
      ensures Linked() && count == |order| && delem.key == old(delem.key) && delem.data == old(delem.data)
      ensures var ret := ToInt(compare(delem.key, old(entries)[c].key));
        && entries == LinkedAt(old(entries), c, ret, Entry(delem.key, delem.data))
        && order == if ret == 0 then old(order) else Inserted(old(order), if ret < 0 then c else c + 1, delem)
    {
      assert root.key == entries[rootAt].key;
      var ret := ToInt(compare(delem.key, root.key));
      if ret < 0 {
        LinkBeforeRoot(delem, rootAt);
      } else if ret > 0 {
        LinkAfterRoot(delem, rootAt);
      } else {
        ReplaceRoot(delem, rootAt);
      }
    }

    /**
      Linking puts the entry where it belongs, in the tree and in the list, or
      replaces an equal one. It does exactly if the comparison with entry met,
      a neighbour of the key, says the same when stored into an int.
     */
    method Link(delem: Elem) returns (ghost met: nat)
      requires Valid() && delem !in order
      modifies this, order, delem
      ensures Linked() && count == |order| && delem.key == old(delem.key) && delem.data == old(delem.data)
      ensures old(entries) == [] ==> Valid() && entries == [Entry(delem.key, delem.data)] && order == [delem]
      ensures old(entries) != [] ==>
        && met < |old(entries)| && Splits(old(entries), compare, delem.key, met)
        && entries ==
          LinkedAt(old(entries), met, ToInt(compare(delem.key, old(entries)[met].key)), Entry(delem.key, delem.data))
      ensures old(entries) != [] ==>
        (Fits(compare, delem.key, old(entries)[met].key) <==>
         Valid() && entries == Put(old(entries), compare, Entry(delem.key, delem.data)))
      ensures old(entries) != [] && Fits(compare, delem.key, old(entries)[met].key) ==>
        order == if Present(old(entries), compare, delem.key) then old(order)
                 else Inserted(old(order), Rank(old(entries), compare, delem.key), delem)
    {
      hide Splits, Fits, LinkedAt, Put, Rank, Present, Inserted, Sorted;
      dirty := true;
      count := count + 1;
      assert TreeValid();
      assert ListValid();
      met := 0;
      if root == null {
        LinkFirst(delem);
      } else {
        met := LinkBeside(delem);
        LinkedIff(old(entries), compare, met, Entry(delem.key, delem.data));
      }
    }

    method LinkBeside(delem: Elem) returns (ghost met: nat)
      requires Core() && root != null && delem !in order && dirty && count == |order| + 1
      modifies this, order, delem
      ensures Linked() && count == |order| && delem.key == old(delem.key) && delem.data == old(delem.data)
      ensures met < |old(entries)| && Splits(old(entries), compare, delem.key, met)
      ensures var ret := ToInt(compare(delem.key, old(entries)[met].key));
        && entries == LinkedAt(old(entries), met, ret, Entry(delem.key, delem.data))
        && order == if ret == 0 then old(order) else Inserted(old(order), if ret < 0 then met else met + 1, delem)
    {
      hide Splits, LinkedAt, Inserted, Sorted;
      Retune(delem.key);
      met := rootAt;
      LinkAtRoot(delem, rootAt);
    }

    /** Takes element c off the list. */
    method Unthread(delem: Elem, ghost c: nat, ghost sp': seq<Span>, ghost es: seq<Entry>)
      requires Distinct(order) && ListValid() && c < |order| && delem == order[c]
      requires TreeLinks(Removed(order, c), sp', NONE, |order| - 1) && Holds(Removed(order, c), es)
      modifies `head, `tail, order`prev, order`next
      ensures TreeLinks(Removed(order, c), sp', NONE, |order| - 1) && Holds(Removed(order, c), es)
      ensures ListLinks(Removed(order, c))
      ensures head == At(Removed(order, c), 0) && tail == At(Removed(order, c), |order| - 2)
      ensures delem.prev == old(delem.prev) && delem.next == old(delem.next)
    {
      Unique(order, c);
      Unique(order, c - 1);
      Unique(order, c + 1);
      Unique(order, 0);
      Unique(order, |order| - 1);
      assert NeighboursOk(order, c);
      if delem.prev != null {
        delem.prev.next := delem.next;
      }
      if head == delem {
        head := delem.next;
      }
      if delem.next != null {
        delem.next.prev := delem.prev;
      }
      if tail == delem {
        tail := delem.prev;
      }
      ghost var o' := Removed(order, c);
      forall j | 0 <= j < |o'| ensures NeighboursOk(o', j) {
        assert old(NeighboursOk(order, if j < c then j else j + 1));
      }
    }

    /** The tree part of unlinking: some element takes the root's place. */
    method UnlinkTree(delem: Elem, ghost c: nat)
      requires Distinct(order) && TreeValid() && ListLinks(order) && c < |order| && c == rootAt && delem == root
      modifies `root, order`left, order`right
      ensures TreeLinks(Removed(order, c), Unlink(sp, c), NONE, |order| - 1) && TreeOk(Unlink(sp, c), RootAfter(sp, c))
      ensures root == At(Removed(order, c), RootAfter(sp, c))
    {
      UnlinkOk(sp, c);
      assert LeftIs(order, sp, c) && RightIs(order, sp, c) && NeighboursOk(order, c);
      RootSides(sp, c, c);
      if delem.left == null {
        UnlinkNarrow(order, sp, c);
        root := root.right;
      } else if delem.right == null {
        UnlinkNarrow(order, sp, c);
        root := root.left;
      } else {
        root := PromoteNext(delem, order, sp, c);
      }
    }

    /** Without the entry at position c all is still in order. */
    lemma RemovedOk(key: Key, c: nat)
      requires Consistent(compare) && Sorted(entries, compare) && Distinct(order) && Holds(order, entries)
      requires c < |entries| && Splits(entries, compare, key, c) && compare(key, entries[c].key) == 0
      ensures Distinct(Removed(order, c)) && Holds(Removed(order, c), Removed(entries, c))
      ensures Sorted(Removed(entries, c), compare) && Remove(entries, compare, key) == Removed(entries, c)
    {
      RankAtRoot(entries, compare, key, c);
      var o', es' := Removed(order, c), Removed(entries, c);
      forall i, j | 0 <= i < j < |o'| ensures Differ(o', i, j) && Below(es', compare, i, j) {
        var i0, j0 := if i < c then i else i + 1, if j < c then j else j + 1;
        assert Differ(order, i0, j0) && Below(entries, compare, i0, j0);
      }
      forall i | 0 <= i < |o'| ensures o'[i].key == es'[i].key && o'[i].data == es'[i].data {
        assert es'[i] == entries[if i < c then i else i + 1];
      }
    }

    /** Unlinking the root removes its entry and nothing else. */
    method UnlinkRoot(ghost key: Key)
      requires Valid() && order != [] && Splits(entries, compare, key, rootAt) && compare(key, entries[rootAt].key) == 0
      modifies this, order`left, order`right, order`prev, order`next
      ensures Valid() && entries == Remove(old(entries), compare, key) && order == Removed(old(order), old(rootAt))
    {
      ghost var c, o, es, sp' := rootAt, Removed(order, rootAt), Removed(entries, rootAt), Unlink(sp, rootAt);
      RemovedOk(key, c);
      UnlinkPointers(c, o, es, sp');
      Adopt(o, es, sp', RootAfter(sp, c));
    }

    /** The pointer writes of unlinking. */
    method UnlinkPointers(ghost c: nat, ghost o: seq<Elem>, ghost es: seq<Entry>, ghost sp': seq<Span>)
      requires Distinct(order) && TreeValid() && ListValid() && c < |order| == count && c == rootAt
      requires o == Removed(order, c) && sp' == Unlink(sp, c) && Holds(o, es)
      modifies `dirty, `root, `head, `tail, `count, order`left, order`right, order`prev, order`next
      ensures dirty && count == |o| && Holds(o, es)
      ensures TreeLinks(o, sp', NONE, |o|) && TreeOk(sp', RootAfter(sp, c)) && root == At(o, RootAfter(sp, c))
      ensures ListLinks(o) && head == At(o, 0) && tail == At(o, |o| - 1)
    {
      hide Removed, Unlink, RootAfter, TreeOk;
      dirty := true;
      var delem := root;
      UnlinkTree(delem, c);
      Unthread(delem, c, sp', es);
      count := count - 1;
    }

    /**
      Adding stores a new key in its place, in an element of its own; a key
      already present or null data are refused. Met is the entry the key was
      compared with last.
     */
    method Add(key: Key, data: object?) returns (delem: Elem?, ghost met: nat)
      requires Valid()
      modifies this, order
      ensures Linked() && count == |order| && (delem != null ==> fresh(delem))
      ensures delem == null <==> data == null || Present(old(entries), compare, key)
      ensures delem == null ==> Valid() && entries == old(entries) && order == old(order)
      ensures delem != null && old(entries) != [] ==>
        && met < |old(entries)| && Splits(old(entries), compare, key, met)
        && entries == LinkedAt(old(entries), met, ToInt(compare(key, old(entries)[met].key)), Entry(key, data))
      ensures delem != null ==> delem.key == key && delem.data == data
      ensures delem != null ==>
        ((old(entries) != [] ==> Fits(compare, key, old(entries)[met].key)) <==>
         Valid() && entries == Put(old(entries), compare, Entry(key, data)))
      ensures delem != null && (old(entries) != [] ==> Fits(compare, key, old(entries)[met].key)) ==>
        order == Inserted(old(order), Rank(old(entries), compare, key), delem)
    {
      met := 0;
      if data == null { return null, met; }
      var found := Find(key);
      if found != null { return null, met; }
      var e := new Elem(key, data);
      met := Link(e);
      delem := e;
    }

    /** Deleting removes the entry of a key, and nothing if it is absent. */
    method Delete(key: Key) returns (data: object?)
      requires Valid()
      modifies this, order
      ensures Valid() && entries == Remove(old(entries), compare, key)
      ensures data == if Present(old(entries), compare, key) then old(entries)[Rank(old(entries), compare, key)].data
              else null
    {
      var delem := Find(key);
      if delem == null { return null; }
      assert delem.data == entries[Rank(entries, compare, key)].data;
      data := delem.data;
      UnlinkRoot(key);
    }
  }

  // ----- a comparator that is too wide -----

  /** Orders numbers, by differences that are multiples of 2 to the 32. */
  const WIDE: Comparator := (a, b) => (a - b) * 0x1_0000_0000

  lemma WideOrders()
    ensures Consistent(WIDE) && WIDE(1, 0) > 0 && ToInt(WIDE(1, 0)) == 0
  {
    forall a, b {:trigger Mirrored(WIDE, a, b)} ensures Mirrored(WIDE, a, b) {
      assert WIDE(a, b) == (a - b) * 0x1_0000_0000;
    }
    forall a, b, c {:trigger Chained(WIDE, a, b, c)} ensures Chained(WIDE, a, b, c) {
      assert WIDE(a, b) == (a - b) * 0x1_0000_0000 && WIDE(b, c) == (b - c) * 0x1_0000_0000;
    }
  }

  /** The second key is greater, its comparison reads as equal, and the first entry is lost. */
  method LosesEntry(first: object, second: object) returns (dict: Dictionary)
    ensures WIDE(1, 0) > 0 && dict.entries == [Entry(1, second)]
  {
    hide *;
    WideOrders();
    dict := new Dictionary(WIDE);
    var a, b;
    ghost var met;
    PutFirst(Entry(0, first));
    a, met := dict.Add(0, first);
    AddedFirst(a, Entry(0, first));
    b, met := dict.Add(1, second);
    Replaced(Entry(0, first), Entry(1, second), met);
  }

  lemma Replaced(e: Entry, e': Entry, met: nat)
    requires met == 0
    ensures LinkedAt([e], met, 0, e') == [e']
  {
  }

  lemma PutFirst(e: Entry)
    ensures Put([], WIDE, e) == [e] && !Present([], WIDE, e.key)
    ensures e.key == 0 ==> !Present([e], WIDE, 1)
  {
    assert e.key == 0 ==> WIDE(1, e.key) > 0;
    assert [e][1..] == [];
  }

  lemma AddedFirst(a: Elem?, e: Entry)
    ensures a != null ==> Inserted([], Rank([], WIDE, e.key), a) == [a]
  {
  }
}
