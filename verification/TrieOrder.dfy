/**
  Positions in the ordered walk over a trie: branch v of node e. A key lies
  ahead of a position if the walk still has to reach it from there.
 */
module TrieOrder {
  import opened Keys
  import opened Trie

  /** k follows every key of element e. */
  ghost predicate After(m: Cells, e: Elem, k: Key)
    requires e in m
  {
    forall x :: x in m[e].keys ==> KeyLess(x, k)
  }

  ghost predicate Ahead(m: Cells, e: Elem, v: int, k: Key)
    requires e in m && m[e].IsNode()
  {
    if k in m[e].keys then v <= Nibble(k, m[e].nibnum) else After(m, e, k)
  }

  /** A stored key outside an element compares alike with all keys of the element. */
  lemma Outside(m: Cells, root: Elem?, e: Elem, k: Key, x: Key, y: Key)
    requires ShapeOk(m, root, null) && e in m && k in KeysAt(m, root) && k !in m[e].keys
    requires x in m[e].keys && y in m[e].keys && KeyLess(x, k)
    ensures KeyLess(y, k)
  {
    assert ElemOk(m, root, e);
    if NodeOk(m, e, m[e]) {
      if Agree(k, m[e].stem, m[e].nibnum) { SharingIsBelow(m, root, null, e, k); }
      var j: nat :| j < m[e].nibnum && Nibble(k, j) != Nibble(m[e].stem, j);
      assert Agree(x, m[e].stem, m[e].nibnum) && Agree(y, m[e].stem, m[e].nibnum);
      var i: nat :| DiffersAt(x, k, i) && Nibble(x, i) < Nibble(k, i);
      assert i <= j;
      assert DiffersAt(y, k, i);
    }
  }

  /** k is after all keys of an element once it is after one of them and not in it. */
  lemma AfterAll(m: Cells, root: Elem?, e: Elem, k: Key, x: Key)
    requires ShapeOk(m, root, null) && e in m && k in KeysAt(m, root) && k !in m[e].keys
    requires x in m[e].keys && KeyLess(x, k)
    ensures After(m, e, k)
  {
    forall y | y in m[e].keys ensures KeyLess(y, k) {
      Outside(m, root, e, k, x, y);
    }
  }

  /** Passing a used branch is passing exactly the keys of the element there. */
  lemma AroundChild(m: Cells, root: Elem?, e: Elem, v: nat, k: Key)
    requires ShapeOk(m, root, null) && e in m && m[e].IsNode() && k in KeysAt(m, root)
    requires v < POINTERS_PER_NODE && m[e].down[v] != null
    ensures m[e].down[v] in m
    ensures Ahead(m, e, v + 1, k) <==> k !in m[m[e].down[v]].keys && After(m, m[e].down[v], k)
    ensures Ahead(m, e, v, k) <==> k in m[m[e].down[v]].keys || After(m, m[e].down[v], k)
  {
    assert ElemOk(m, root, e);
    assert BranchOk(m, e, m[e], v);
    var c := m[e].down[v];
    assert ElemOk(m, root, c);
    var x :| x in m[c].keys;
    if k in m[e].keys {
      assert BranchHas(m, m[e], k);
      if Nibble(k, m[e].nibnum) < v {
        OrderAtNode(m, e, k, x);
        KeyLessTotal(k, x);
      } else if Nibble(k, m[e].nibnum) > v {
        forall y | y in m[c].keys ensures KeyLess(y, k) {
          OrderAtNode(m, e, y, k);
        }
      }
    } else if After(m, c, k) {
      AfterAll(m, root, e, k, x);
    }
    if k in m[c].keys { KeyLessTotal(k, k); }
  }

  /** Passing an unused branch passes no key. */
  lemma AroundGap(m: Cells, root: Elem?, e: Elem, v: nat, k: Key)
    requires ShapeOk(m, root, null) && e in m && m[e].IsNode() && k in KeysAt(m, root)
    requires v < POINTERS_PER_NODE && m[e].down[v] == null
    ensures Ahead(m, e, v + 1, k) <==> Ahead(m, e, v, k)
  {
    assert ElemOk(m, root, e);
    if k in m[e].keys { assert BranchHas(m, m[e], k); }
  }

  /** The keys still ahead. */
  ghost function AheadSet(m: Cells, root: Elem?, e: Elem?, v: int): (s: set<Key>)
    requires root != null ==> root in m
    requires e != null ==> e in m && m[e].IsNode()
    ensures s <= KeysAt(m, root)
  {
    set k | k in KeysAt(m, root) && e != null && Ahead(m, e, v, k)
  }

  /** Nothing is ahead of the end of the root node. */
  lemma AheadOfTop(m: Cells, root: Elem?)
    requires ShapeOk(m, root, null) && root != null && m[root].IsNode()
    ensures AheadSet(m, root, root, POINTERS_PER_NODE) == {}
  {
  }

  /** Going up from the end of a node, or down into a child, changes nothing ahead. */
  lemma AheadThroughEdge(m: Cells, root: Elem?, e: Elem, v: nat)
    requires ShapeOk(m, root, null) && e in m && m[e].IsNode()
    requires v < POINTERS_PER_NODE && m[e].down[v] != null && m[e].down[v] in m && m[m[e].down[v]].IsNode()
    ensures AheadSet(m, root, m[e].down[v], 0) == AheadSet(m, root, e, v)
    ensures AheadSet(m, root, m[e].down[v], POINTERS_PER_NODE) == AheadSet(m, root, e, v + 1)
  {
    var c := m[e].down[v];
    forall k | k in KeysAt(m, root)
      ensures Ahead(m, c, 0, k) == Ahead(m, e, v, k) && Ahead(m, c, POINTERS_PER_NODE, k) == Ahead(m, e, v + 1, k)
    {
      AroundChild(m, root, e, v, k);
    }
  }

  /** Passing a leaf passes its key, which precedes everything still ahead. */
  lemma AheadOfLeaf(m: Cells, root: Elem?, e: Elem, v: nat)
    requires ShapeOk(m, root, null) && e in m && m[e].IsNode()
    requires v < POINTERS_PER_NODE && m[e].down[v] != null && m[e].down[v] in m && m[m[e].down[v]].IsLeaf()
    ensures var l := m[m[e].down[v]].key;
      && AheadSet(m, root, e, v) == AheadSet(m, root, e, v + 1) + {l} && l !in AheadSet(m, root, e, v + 1)
      && (forall k :: k in AheadSet(m, root, e, v + 1) ==> KeyLess(l, k))
  {
    var c := m[e].down[v];
    var l := m[c].key;
    assert ElemOk(m, root, c);
    KeysBelowRoot(m, root, null, c, l);
    forall k | k in KeysAt(m, root)
      ensures Ahead(m, e, v, k) == (k == l || KeyLess(l, k)) && Ahead(m, e, v + 1, k) == (k != l && KeyLess(l, k))
    {
      AroundChild(m, root, e, v, k);
    }
    KeyLessTotal(l, l);
  }

  /** Passing unused branches passes no key. */
  lemma {:induction false} AheadOfGap(m: Cells, root: Elem?, e: Elem, v: nat, w: nat)
    requires ShapeOk(m, root, null) && e in m && m[e].IsNode()
    requires v <= w <= POINTERS_PER_NODE && forall u :: v <= u < w ==> m[e].down[u] == null
    ensures AheadSet(m, root, e, v) == AheadSet(m, root, e, w)
    decreases w - v
  {
    if v < w {
      forall k | k in KeysAt(m, root) ensures Ahead(m, e, v + 1, k) <==> Ahead(m, e, v, k) {
        AroundGap(m, root, e, v, k);
      }
      AheadOfGap(m, root, e, v + 1, w);
    }
  }

  // ----- enumerations -----

  /** The entries visited so far, in order, are those of c outside rest, which come later. */
  ghost predicate Walked(visited: seq<(Key, object?)>, c: map<Key, object?>, rest: set<Key>) {
    && rest <= c.Keys
    && (forall i {:trigger visited[i]} :: 0 <= i < |visited| ==> VisitOk(visited[i], c, rest))
    && (forall i, j {:trigger visited[i], visited[j]} :: 0 <= i < j < |visited| ==> KeyLess(visited[i].0, visited[j].0))
    && (forall k :: k in c && k !in rest ==> (k, c[k]) in visited)
  }

  ghost predicate VisitOk(x: (Key, object?), c: map<Key, object?>, rest: set<Key>) {
    x.0 in c && c[x.0] == x.1 && x.0 !in rest && forall k :: k in rest ==> KeyLess(x.0, k)
  }

  lemma WalkOne(visited: seq<(Key, object?)>, c: map<Key, object?>, rest: set<Key>, rest': set<Key>, l: Key)
    requires Walked(visited, c, rest) && rest == rest' + {l} && l !in rest'
    requires forall k :: k in rest' ==> KeyLess(l, k)
    ensures Walked(visited + [(l, c[l])], c, rest')
  {
    var v := visited + [(l, c[l])];
    forall i | 0 <= i < |v| ensures VisitOk(v[i], c, rest') {
      if i < |visited| { assert VisitOk(visited[i], c, rest); }
    }
    forall i, j | 0 <= i < j < |v| ensures KeyLess(v[i].0, v[j].0) {
      if j == |visited| { assert VisitOk(visited[i], c, rest); }
    }
    forall k | k in c && k !in rest' ensures (k, c[k]) in v {
      if k == l { assert v[|visited|] == (k, c[k]); } else { assert (k, c[k]) in visited; }
    }
  }

  lemma VisitedBefore(visited: seq<(Key, object?)>, c: map<Key, object?>, rest: set<Key>, x: Key, k: Key)
    requires Walked(visited, c, rest) && x in c && x !in rest && k in rest
    ensures KeyLess(x, k)
  {
    assert (x, c[x]) in visited;
    var i :| 0 <= i < |visited| && visited[i] == (x, c[x]);
    assert VisitOk(visited[i], c, rest);
  }

  /** A complete walk meets every entry exactly once, in increasing key order. */
  ghost predicate Enumerates(visited: seq<(Key, object?)>, c: map<Key, object?>) {
    && (forall i, j {:trigger visited[i], visited[j]} :: 0 <= i < j < |visited| ==>
      Strcmp(visited[i].0, visited[j].0) < 0)
    && (forall x :: x in visited ==> x.0 in c && c[x.0] == x.1)
    && (forall k :: k in c ==> (k, c[k]) in visited)
  }

  /** Every entry met has data; the first of those still to come, if any, has none. */
  ghost predicate StopsAt(c: map<Key, object?>, rest: set<Key>) {
    && (forall k :: k in c && k !in rest ==> c[k] != null)
    && (rest == {} ||
        exists k :: k in rest && k in c && c[k] == null && forall x :: x in rest ==> x == k || KeyLess(k, x))
  }

  lemma WalkDone(visited: seq<(Key, object?)>, c: map<Key, object?>)
    requires Walked(visited, c, {})
    ensures Enumerates(visited, c)
  {
    forall i, j | 0 <= i < j < |visited| ensures Strcmp(visited[i].0, visited[j].0) < 0 {
      StrcmpIsKeyLess(visited[i].0, visited[j].0);
    }
    forall x | x in visited ensures x.0 in c && c[x.0] == x.1 {
      var i :| 0 <= i < |visited| && visited[i] == x;
      assert VisitOk(visited[i], c, {});
    }
  }

  // ----- iteration with a callback -----

  /** The entries an iteration meets that stops after the first nonzero result of its callback. */
  function Documented(all: seq<(Key, object?)>, cb: (Key, object?) -> int): (visited: seq<(Key, object?)>) {
    if all == [] then []
    else if cb(all[0].0, all[0].1) != 0 then [all[0]]
    else [all[0]] + Documented(all[1..], cb)
  }

  /** Such an iteration meets a prefix; only the last entry met can have a nonzero result, and has it if any is left. */
  lemma {:induction false} DocumentedIs(all: seq<(Key, object?)>, cb: (Key, object?) -> int)
    ensures var d := Documented(all, cb);
      && d <= all
      && (forall i :: 0 <= i < |d| - 1 ==> cb(d[i].0, d[i].1) == 0)
      && (|d| < |all| ==> d != [] && cb(d[|d| - 1].0, d[|d| - 1].1) != 0)
  {
    if all != [] && cb(all[0].0, all[0].1) == 0 {
      DocumentedIs(all[1..], cb);
      var d, d' := Documented(all, cb), Documented(all[1..], cb);
      assert forall i :: 0 < i < |d| ==> d[i] == d'[i - 1];
      assert all == [all[0]] + all[1..];
    }
  }

  /** No entry but the one with the greatest key has a nonzero result. */
  ghost predicate OnlyLastStops(c: map<Key, object?>, cb: (Key, object?) -> int) {
    forall k, x :: k in c && x in c && cb(k, c[k]) != 0 ==> Strcmp(x, k) <= 0
  }

  /** Stopping at a nonzero result makes no difference exactly if only the greatest entry has one. */
  lemma DocumentedIff(all: seq<(Key, object?)>, c: map<Key, object?>, cb: (Key, object?) -> int)
    requires Enumerates(all, c)
    ensures all == Documented(all, cb) <==> OnlyLastStops(c, cb)
  {
    DocumentedIs(all, cb);
    var d := Documented(all, cb);
    if all == d {
      forall k, x | k in c && x in c && cb(k, c[k]) != 0 ensures Strcmp(x, k) <= 0 {
        assert (k, c[k]) in all && (x, c[x]) in all;
        var i :| 0 <= i < |all| && all[i] == (k, c[k]);
        var j :| 0 <= j < |all| && all[j] == (x, c[x]);
        assert i == |all| - 1;
        if j == i { StrcmpIsKeyLess(k, k); }
      }
    } else {
      var i := |d| - 1;
      assert all[i] in all && all[i + 1] in all;
      StrcmpIsKeyLess(all[i].0, all[i + 1].0);
      StrcmpIsKeyLess(all[i + 1].0, all[i].0);
      KeyLessTotal(all[i].0, all[i + 1].0);
    }
  }

  /** What a search comes to: the code returns, or reads through a null pointer. */
  datatype Search = Returned(data: object?) | NullDereferenced

  /** k is the least entry outside rest whose callback result is not null. */
  ghost predicate FoundFirst(c: map<Key, object?>, cb: (Key, object?) -> object?, k: Key) {
    k in c && cb(k, c[k]) != null && forall x :: x in c && cb(x, c[x]) != null ==> x == k || KeyLess(k, x)
  }
}
