/**
  The doubly linked list of list.c and its in-place sort.
 */
module List {
  import opened Comparators
  import opened Sequences
  import opened ListSort

  class Node {
    var next: Node?
    var prev: Node?
    var data: Datum

    constructor ()
    {
      next, prev := null, null;
    }
  }

  ghost function At(nodes: seq<Node>, i: int): Node? {
    if 0 <= i < |nodes| then nodes[i] else null
  }

  ghost predicate Linked(nodes: seq<Node>, i: int)
    requires 0 <= i < |nodes|
    reads nodes`prev, nodes`next
  {
    nodes[i].prev == At(nodes, i - 1) && nodes[i].next == At(nodes, i + 1)
  }

  ghost predicate AllLinked(nodes: seq<Node>)
    reads nodes`prev, nodes`next
  {
    forall i {:trigger Linked(nodes, i)} :: 0 <= i < |nodes| ==> Linked(nodes, i)
  }

  class List {
    var head: Node?
    var tail: Node?
    var count: nat
    ghost var nodes: seq<Node>

    ghost predicate Valid()
      reads this, nodes`prev, nodes`next
    {
      && Distinct(nodes) && AllLinked(nodes)
      && head == At(nodes, 0) && tail == At(nodes, |nodes| - 1) && count == |nodes|
    }

    constructor ()
      ensures Valid() && nodes == []
    {
      head, tail, count, nodes := null, null, 0, [];
    }

    lemma InsertedDistinct(n: Node, p: nat)
      requires Distinct(nodes) && n !in nodes && p <= |nodes|
      ensures Distinct(Inserted(nodes, p, n))
    {
      var s' := Inserted(nodes, p, n);
      forall i, j | 0 <= i < j < |s'| ensures Differ(s', i, j) {
        if i != p && j != p { assert Differ(nodes, if i < p then i else i - 1, if j < p then j else j - 1); }
      }
    }

    lemma RemovedDistinct(p: nat)
      requires Distinct(nodes) && p < |nodes|
      ensures Distinct(Removed(nodes, p)) && nodes[p] !in Removed(nodes, p)
    {
      var s' := Removed(nodes, p);
      Unique(nodes, p);
      forall i, j | 0 <= i < j < |s'| ensures Differ(s', i, j) {
        assert Differ(nodes, if i < p then i else i + 1, if j < p then j else j + 1);
      }
    }

    /** Adds a node at the end. */
    method NodeAdd(data: Datum, n: Node)
      requires Valid() && n !in nodes
      modifies this, n, nodes`next
      ensures Valid() && nodes == old(nodes) + [n] && n.data == data
    {
      InsertedDistinct(n, |nodes|);
      n.next, n.prev := null, null;
      n.data := data;
      ghost var s' := Inserted(nodes, |nodes|, n);
      if head == null {
        head := n;
        tail := n;
        count := 1;
      } else {
        assert Linked(nodes, |nodes| - 1);
        Unique(nodes, |nodes| - 1);
        var tn := tail;
        n.prev := tn;
        n.prev.next := n;
        tail := n;
        count := count + 1;
      }
      forall i | 0 <= i < |s'| ensures Linked(s', i) {
        if i < |nodes| { assert old(Linked(nodes, i)); }
      }
      Adopt(s');
    }

    method NodeAddHead(data: Datum, n: Node)
      requires Valid() && n !in nodes
      modifies this, n, nodes`prev
      ensures Valid() && nodes == [n] + old(nodes) && n.data == data
    {
      InsertedDistinct(n, 0);
      n.next, n.prev := null, null;
      n.data := data;
      ghost var s' := Inserted(nodes, 0, n);
      if head == null {
        head := n;
        tail := n;
        count := 1;
      } else {
        assert Linked(nodes, 0);
        Unique(nodes, 0);
        var tn := head;
        n.next := tn;
        tn.prev := n;
        head := n;
        count := count + 1;
      }
      forall i | 0 <= i < |s'| ensures Linked(s', i) {
        if i > 0 { assert old(Linked(nodes, i - 1)); }
      }
      Adopt(s');
    }

    /** Adds a node in front of another, or at the end. */
    method NodeAddBefore(data: Datum, n: Node, before: Node?, ghost p: nat)
      requires Valid() && n !in nodes
      requires if before == null then p == |nodes| else p < |nodes| && before == nodes[p]
      modifies this, n, nodes`prev, nodes`next
      ensures Valid() && nodes == Inserted(old(nodes), p, n) && n.data == data
    {
      if before == null {
        NodeAdd(data, n);
      } else if before == head {
        Unique(nodes, 0);
        NodeAddHead(data, n);
      } else {
        InsertedDistinct(n, p);
        assert Linked(nodes, p);
        Unique(nodes, p);
        Unique(nodes, p - 1);
        n.data := data;
        n.prev := before.prev;
        n.next := before;
        before.prev := n;
        if n.prev != null {
          n.prev.next := n;
        }
        count := count + 1;
        ghost var s' := Inserted(nodes, p, n);
        forall i | 0 <= i < |s'| ensures Linked(s', i) {
          if i != p { assert old(Linked(nodes, if i < p then i else i - 1)); }
        }
        Adopt(s');
      }
    }

    /** Adds a node behind another, or at the end. */
    method NodeAddAfter(data: Datum, n: Node, before: Node?, ghost p: nat)
      requires Valid() && n !in nodes
      requires if before == null then p == |nodes| else 0 < p <= |nodes| && before == nodes[p - 1]
      modifies this, n, nodes`prev, nodes`next
      ensures Valid() && nodes == Inserted(old(nodes), p, n) && n.data == data
    {
      if before != null { assert Linked(nodes, p - 1); }
      if before == null || before.next == null {
        NodeAdd(data, n);
      } else {
        InsertedDistinct(n, p);
        Unique(nodes, p);
        Unique(nodes, p - 1);
        n.data := data;
        n.prev := before;
        n.next := before.next;
        before.next := n;
        n.next.prev := n;
        count := count + 1;
        ghost var s' := Inserted(nodes, p, n);
        forall i | 0 <= i < |s'| ensures Linked(s', i) {
          if i != p { assert old(Linked(nodes, if i < p then i else i - 1)); }
        }
        Adopt(s');
      }
    }

    /** The ghost view follows once the pointers are written. */
    ghost method Adopt(s: seq<Node>)
      requires Distinct(s) && AllLinked(s)
      requires head == At(s, 0) && tail == At(s, |s| - 1) && count == |s|
      modifies `nodes
      ensures Valid() && nodes == s
    {
      nodes := s;
      assert AllLinked(nodes);
    }

    /** Takes a node off the list; its own links stay. */
    method NodeDelete(n: Node, ghost p: nat)
      requires Valid() && p < |nodes| && n == nodes[p]
      modifies this, nodes`prev, nodes`next
      ensures Valid() && nodes == Removed(old(nodes), p) && n !in nodes
      ensures n.prev == old(n.prev) && n.next == old(n.next)
    {
      RemovedDistinct(p);
      Unique(nodes, p);
      Unique(nodes, p - 1);
      Unique(nodes, p + 1);
      assert Linked(nodes, p);
      if n.prev == null {
        head := n.next;
      } else {
        n.prev.next := n.next;
      }
      if n.next == null {
        tail := n.prev;
      } else {
        n.next.prev := n.prev;
      }
      count := count - 1;
      ghost var s' := Removed(nodes, p);
      forall i | 0 <= i < |s'| ensures Linked(s', i) {
        ghost var j := if i < p then i else i + 1;
        assert s'[i] == nodes[j] && old(Linked(nodes, j));
        assert i == p ==> s'[i].prev == At(nodes, p - 1) == At(s', i - 1);
      }
      Adopt(s');
    }

    /** The position of a node, -1 if it is not on the list. */
    method NodeIndex(n: Node) returns (iter: int)
      requires Valid()
      ensures n !in nodes ==> iter == -1
      ensures n in nodes ==> 0 <= iter < |nodes| && nodes[iter] == n
    {
      iter := 0;
      var tn := head;
      while tn != n && tn != null
        invariant 0 <= iter <= |nodes| && tn == At(nodes, iter)
        invariant n !in nodes[..iter]
        decreases |nodes| - iter
      {
        assert Linked(nodes, iter);
        iter := iter + 1;
        tn := tn.next;
      }
      if iter >= count { iter := -1; }
    }

    /** Reverses the list by exchanging the two links of every node. */
    method Reverse()
      requires Valid()
      modifies this, nodes`prev, nodes`next
      ensures Valid() && nodes == Reversed(old(nodes))
    {
      SwapLinks();
      var tn := head;
      head := tail;
      tail := tn;
      ghost var s' := Reversed(nodes);
      forall i, j | 0 <= i < j < |s'| ensures Differ(s', i, j) {
        assert Differ(nodes, |nodes| - 1 - j, |nodes| - 1 - i);
      }
      forall i | 0 <= i < |s'| ensures Linked(s', i) {
        assert Swapped(nodes, |nodes| - 1 - i);
      }
      Adopt(s');
    }

    ghost static predicate Swapped(nodes: seq<Node>, i: int)
      requires 0 <= i < |nodes|
      reads nodes`prev, nodes`next
    {
      nodes[i].next == At(nodes, i - 1) && nodes[i].prev == At(nodes, i + 1)
    }

    method SwapLinks()
      requires Valid()
      modifies nodes`prev, nodes`next
      ensures forall i {:trigger Swapped(nodes, i)} :: 0 <= i < |nodes| ==> Swapped(nodes, i)
    {
      var n := head;
      assert |nodes| > 0 ==> Linked(nodes, 0);
      var tn := if n != null then n.next else null;
      ghost var k := 0;
      while n != null
        invariant 0 <= k <= |nodes| && n == At(nodes, k) && tn == At(nodes, k + 1)
        invariant forall i {:trigger Swapped(nodes, i)} :: 0 <= i < k ==> Swapped(nodes, i)
        invariant forall i {:trigger Linked(nodes, i)} :: k <= i < |nodes| ==> Linked(nodes, i)
        decreases |nodes| - k
      {
        assert Linked(nodes, k);
        Unique(nodes, k);
        label before:
        var tn2 := n.next;
        n.next := n.prev;
        n.prev := tn2;
        forall i | 0 <= i < k ensures Swapped(nodes, i) { assert old@before(Swapped(nodes, i)); }
        forall i | k < i < |nodes| ensures Linked(nodes, i) { assert old@before(Linked(nodes, i)); }
        k := k + 1;
        n := tn;
        if n != null { assert Linked(nodes, k); }
        tn := if n != null then n.next else null;
      }
    }

    // ----- sorting -----

    /** The data of the nodes, which sorting does not change. */
    ghost static predicate DataIs(nodes: seq<Node>, v: map<Node, Datum>)
      reads nodes`data
    {
      forall i {:trigger nodes[i]} :: 0 <= i < |nodes| ==> nodes[i] in v && nodes[i].data == v[nodes[i]]
    }

    lemma DataMoved(p: nat, q: nat, v: map<Node, Datum>)
      requires DataIs(nodes, v) && p < |nodes| && q < |nodes|
      ensures DataIs(Moved(nodes, p, q), v)
    {
      forall i | 0 <= i < |nodes| ensures Moved(nodes, p, q)[i] == nodes[MovedTo(q, p, i)] {
        MovedFrom(nodes, p, q, i);
      }
    }

    /** Takes n, at position p, in front of n2, at position q before it. */
    method MoveBack(n: Node, n2: Node, ghost p: nat, ghost q: nat, ghost v: map<Node, Datum>)
      requires Valid() && q < p < |nodes| && n == nodes[p] && n2 == nodes[q] && DataIs(nodes, v)
      modifies this, nodes
      ensures Valid() && nodes == Moved(old(nodes), p, q) && DataIs(nodes, v)
    {
      DataMoved(p, q, v);
      ghost var s := nodes;
      NodeDelete(n, p);
      assert nodes == Removed(s, p);
      NodeAddBefore(n.data, n, n2, q);
      assert nodes == Moved(s, p, q);
    }

    /** Takes n, at position p, behind n2, at position q after it. */
    method MoveForth(n: Node, n2: Node, ghost p: nat, ghost q: nat, ghost v: map<Node, Datum>)
      requires Valid() && p < q < |nodes| && n == nodes[p] && n2 == nodes[q] && DataIs(nodes, v)
      modifies this, nodes
      ensures Valid() && nodes == Moved(old(nodes), p, q) && DataIs(nodes, v)
    {
      DataMoved(p, q, v);
      ghost var s := nodes;
      NodeDelete(n, p);
      assert nodes == Removed(s, p);
      NodeAddAfter(n.data, n, n2, q);
      assert nodes == Moved(s, p, q);
    }

    /** One step of the inner walk: look at n2, move n past it if the two are out of order. */
    method InnerStep(cmp: Comparator, n: Node, n2: Node, tn2: Node?, ghost w: Walk<Node>, ghost v: map<Node, Datum>,
                     ghost done: set<Node>)
      returns (ghost w': Walk<Node>)
      requires Consistent(cmp) && Valid() && DataIs(nodes, v)
      requires w.s == nodes && WalkOk(w, v, cmp, done) && w.q < |nodes|
      requires n == nodes[w.p] && n2 == nodes[w.q] && tn2 == At(nodes, w.q + 1)
      modifies this, nodes
      ensures Valid() && DataIs(nodes, v) && StepOk(w, w', v, cmp, done)
      ensures w'.s == nodes && n == nodes[w'.p] && tn2 == At(nodes, w'.q)
    {
      w' := w.(q := w.q + 1);
      Unique(nodes, w.p);
      Unique(nodes, w.q);
      LessIsStrict(cmp, Value(v, n), Value(v, n2));
      LessIsStrict(cmp, Value(v, n2), Value(v, n));
      if n == n2 {
        return;
      }
      var i := NodeIndex(n);
      var i2 := NodeIndex(n2);
      var result := cmp(n.data, n2.data);
      if result == 0 {
      } else if result < 0 && i > i2 {
        MoveBack(n, n2, w.p, w.q, v);
        w' := Shift(w, NextAfterBack(w));
        BackStep(w, v, cmp, done);
      } else if result > 0 && i < i2 {
        MoveForth(n, n2, w.p, w.q, v);
        w' := Shift(w, w.q + 1);
        ForthStep(w, v, cmp, done);
      }
    }

    /** Walks the whole list for node n; afterwards everything smaller than n precedes it. */
    method InnerWalk(cmp: Comparator, n: Node, ghost p: nat, ghost v: map<Node, Datum>, ghost done: set<Node>)
      returns (ghost t: int)
      requires Consistent(cmp) && Valid() && DataIs(nodes, v) && AllSettled(nodes, v, cmp, done)
      requires p < |nodes| && n == nodes[p] && forall i {:trigger nodes[i]} :: 0 <= i < p ==> nodes[i] in done
      modifies this, nodes
      ensures Valid() && DataIs(nodes, v) && multiset(nodes) == multiset(old(nodes)) && |nodes| == |old(nodes)|
      ensures AllSettled(nodes, v, cmp, done + {n})
      ensures 0 <= t <= |nodes| && At(nodes, t) == At(old(nodes), p + 1)
      ensures forall i {:trigger nodes[i]} :: 0 <= i < t ==> nodes[i] in done + {n}
      ensures n in done ==> t == p + 1
    {
      hide AllSettled, Confined, Passed, Consistent;
      ghost var w := Walk(nodes, p, 0, p + 1);
      WalkBegins(w, v, cmp, done);
      var n2 := head;
      var tn2 := if n2 != null then n2.next else null;
      assert Linked(nodes, 0);
      while n2 != null
        invariant Valid() && DataIs(nodes, v) && WalkOk(w, v, cmp, done) && w.s == nodes
        invariant n == nodes[w.p] && n2 == At(nodes, w.q) && tn2 == At(nodes, w.q + 1)
        invariant multiset(nodes) == multiset(old(nodes)) && |nodes| == |old(nodes)|
        invariant At(nodes, w.t) == At(old(nodes), p + 1)
        invariant n in done ==> Confined(w, v, cmp) && w.t == p + 1
        decreases ToGo(w), Phase(w)
      {
        SameMembers(nodes, old(nodes));
        w := InnerStep(cmp, n, n2, tn2, w, v, done);
        n2 := tn2;
        if n2 != null { assert Linked(nodes, w.q); }
        tn2 := if n2 != null then n2.next else null;
      }
      t := w.t;
      WalkEnds(w, v, cmp, done);
    }

    /**
      Sorts the list for every consistent comparator: the same nodes with the
      same data, in order.
     */
    method Sort(cmp: Comparator)
      requires Valid() && Consistent(cmp)
      modifies this, nodes
      ensures Valid() && multiset(nodes) == multiset(old(nodes))
      ensures forall x {:trigger x.data} :: x in old(nodes) ==> x.data == old(x.data)
      ensures forall i, j :: 0 <= i < j < |nodes| ==> cmp(nodes[i].data, nodes[j].data) <= 0
    {
      ghost var v: map<Node, Datum> := map x | x in nodes :: x.data;
      ghost var done: set<Node> := {};
      ghost var p := 0;
      var n := head;
      var tn := if n != null then n.next else null;
      assert |nodes| > 0 ==> Linked(nodes, 0);
      while n != null
        invariant Valid() && DataIs(nodes, v) && AllSettled(nodes, v, cmp, done)
        invariant multiset(nodes) == multiset(old(nodes)) && |nodes| == |old(nodes)|
        invariant 0 <= p <= |nodes| && n == At(nodes, p) && tn == At(nodes, p + 1)
        invariant forall i {:trigger nodes[i]} :: 0 <= i < p ==> nodes[i] in done
        decreases v.Keys - done, |nodes| - p
      {
        SameMembers(nodes, old(nodes));
        ghost var t := InnerWalk(cmp, n, p, v, done);
        done, p := done + {n}, t;
        n := tn;
        if n != null { assert Linked(nodes, p); }
        tn := if n != null then n.next else null;
      }
      SettledIsSorted(nodes, v, cmp, done);
      SameMembers(nodes, old(nodes));
      forall x | x in old(nodes) ensures x.data == old(x.data) {
        var i :| 0 <= i < |nodes| && nodes[i] == x;
      }
    }
  }

  lemma WalkBegins(w: Walk<Node>, v: map<Node, Datum>, cmp: Comparator, done: set<Node>)
    requires Distinct(w.s) && AllSettled(w.s, v, cmp, done) && 0 <= w.p < |w.s| && w.q == 0 && w.t == w.p + 1
    requires forall i {:trigger w.s[i]} :: 0 <= i < w.p ==> w.s[i] in done
    ensures WalkOk(w, v, cmp, done) && (w.s[w.p] in done ==> Confined(w, v, cmp))
  {
    assert w.s[w.p] in done ==> Settled(w.s, v, cmp, w.p);
  }

  /** After the last step n is settled too. */
  lemma WalkEnds(w: Walk<Node>, v: map<Node, Datum>, cmp: Comparator, done: set<Node>)
    requires WalkOk(w, v, cmp, done) && w.q == |w.s|
    ensures AllSettled(w.s, v, cmp, done + {w.s[w.p]})
  {
    Unique(w.s, w.p);
    forall i | 0 <= i < |w.s| && w.s[i] in done + {w.s[w.p]} ensures Settled(w.s, v, cmp, i) {
      if i != w.p { assert Settled(w.s, v, cmp, i); }
    }
  }

  /** What one step of the inner walk achieves. */
  ghost predicate StepOk(w: Walk<Node>, w': Walk<Node>, v: map<Node, Datum>, cmp: Comparator, done: set<Node>)
    requires WalkOk(w, v, cmp, done)
  {
    && WalkOk(w', v, cmp, done)
    && multiset(w'.s) == multiset(w.s) && |w'.s| == |w.s|
    && At(w'.s, w'.t) == At(w.s, w.t)
    && (Confined(w, v, cmp) ==> Confined(w', v, cmp) && w'.t == w.t)
    && (ToGo(w') < ToGo(w) || (ToGo(w') == ToGo(w) && Phase(w') < Phase(w)))
  }

  lemma BackStep(w: Walk<Node>, v: map<Node, Datum>, cmp: Comparator, done: set<Node>)
    requires Consistent(cmp) && WalkOk(w, v, cmp, done) && w.q < w.p && Smaller(v, cmp, w.s[w.p], w.s[w.q])
    ensures StepOk(w, Shift(w, NextAfterBack(w)), v, cmp, done)
    ensures var w' := Shift(w, NextAfterBack(w)); w'.s[w'.p] == w.s[w.p] && At(w'.s, w'.q) == At(w.s, w.q + 1)
  {
    ShiftBackOk(w, v, cmp, done);
    MovedMultiset(w.s, w.p, w.q);
  }

  lemma ForthStep(w: Walk<Node>, v: map<Node, Datum>, cmp: Comparator, done: set<Node>)
    requires Consistent(cmp) && WalkOk(w, v, cmp, done) && w.p < w.q < |w.s| && Smaller(v, cmp, w.s[w.q], w.s[w.p])
    ensures StepOk(w, Shift(w, w.q + 1), v, cmp, done)
    ensures var w' := Shift(w, w.q + 1); w'.s[w'.p] == w.s[w.p] && At(w'.s, w'.q) == At(w.s, w.q + 1)
  {
    ShiftForthOk(w, v, cmp, done);
    MovedMultiset(w.s, w.p, w.q);
  }
}
