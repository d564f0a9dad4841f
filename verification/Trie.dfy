/**
  The shape of a Patricia trie as a value: what the fields of every element
  hold, together with two ghost facts per element, the set of keys stored at
  or below it and a key (its stem) with whose first nibbles they all agree.

  The invariant is a conjunction of facts about one element and its
  neighbours, so each edit of the trie is justified element by element.
 */
module Trie {
  import opened Keys

  /** An element of the trie: a leaf (nibnum is -1) or a branching node. */
  class Elem {
    var nibnum: int
    var down: seq<Elem?>
    var parent: Elem?
    var parentVal: int
    var key: Key
    var data: object?

    constructor Leaf(key: Key, data: object, parent: Elem?, parentVal: int)
      ensures this.nibnum == -1 && this.key == key && this.data == data && this.down == []
      ensures this.parent == parent && this.parentVal == parentVal
    {
      this.nibnum := -1;
      this.data := data;
      this.key := key;
      this.parent := parent;
      this.parentVal := parentVal;
      this.down := [];
    }

    constructor Node(nibnum: nat, parent: Elem?, parentVal: int)
      ensures this.nibnum == nibnum && this.parent == parent && this.parentVal == parentVal
      ensures this.down == NoBranches() && this.key == [] && this.data == null
    {
      this.nibnum := nibnum;
      this.parent := parent;
      this.parentVal := parentVal;
      this.down := NoBranches();
      this.key := [];
      this.data := null;
    }

    predicate IsLeaf()
      reads this
    {
      nibnum == -1
    }
  }

  /** The branches of a node just made. */
  function NoBranches(): (d: seq<Elem?>)
    ensures |d| == POINTERS_PER_NODE && forall v: nat :: v < POINTERS_PER_NODE ==> d[v] == null
  {
    seq(POINTERS_PER_NODE, _ => null)
  }

  /** The fields of an element and its two ghost facts. */
  datatype Cell = Cell(nibnum: int, down: seq<Elem?>, parent: Elem?, parentVal: int, key: Key, data: object?,
                       keys: set<Key>, stem: Key)
  {
    predicate IsLeaf() { nibnum == -1 }
    predicate IsNode() { 0 <= nibnum && |down| == POINTERS_PER_NODE }
  }

  type Cells = map<Elem, Cell>

  /** The parentVal of the root, which is never used as a branch. */
  const NO_BRANCH: int := POINTERS_PER_NODE + 2

  /** Cell d of element c is what branch v of node a (cell of e) needs. */
  ghost predicate ChildOk(e: Elem, a: Cell, v: nat, d: Cell)
    requires a.IsNode()
  {
    && d.parent == e
    && d.parentVal == v
    && d.keys <= a.keys
    && (d.IsLeaf() || a.nibnum < d.nibnum)
    && (forall k :: k in d.keys ==> Nibble(k, a.nibnum) == v)
  }

  ghost predicate BranchOk(m: Cells, e: Elem, a: Cell, v: nat)
    requires a.IsNode() && v < POINTERS_PER_NODE
  {
    a.down[v] != null ==> a.down[v] in m && ChildOk(e, a, v, m[a.down[v]])
  }

  /** Key k of node a is found in the branch its nibble selects. */
  ghost predicate BranchHas(m: Cells, a: Cell, k: Key)
    requires a.IsNode()
  {
    var c := a.down[Nibble(k, a.nibnum)];
    c != null && c in m && k in m[c].keys
  }

  ghost predicate NodeOk(m: Cells, e: Elem, a: Cell) {
    && a.IsNode()
    && (forall v: nat :: v < POINTERS_PER_NODE ==> BranchOk(m, e, a, v))
    && (forall k :: k in a.keys ==> BranchHas(m, a, k))
    && (forall k :: k in a.keys ==> Agree(k, a.stem, a.nibnum))
  }

  ghost predicate LeafOk(a: Cell) {
    a.IsLeaf() && a.keys == {a.key}
  }

  /** e is the root, or branch parentVal of its parent is e. */
  ghost predicate ParentOk(m: Cells, root: Elem?, e: Elem, a: Cell) {
    if e == root then a.parent == null && a.parentVal == NO_BRANCH
    else
      && a.parent != null
      && a.parent in m
      && m[a.parent].IsNode()
      && 0 <= a.parentVal < POINTERS_PER_NODE
      && m[a.parent].down[a.parentVal] == e
  }

  ghost predicate ElemOk(m: Cells, root: Elem?, e: Elem)
    requires e in m
  {
    && m[e].keys != {}
    && ParentOk(m, root, e, m[e])
    && (LeafOk(m[e]) || NodeOk(m, e, m[e]))
  }

  /** At least two branches are in use. */
  ghost predicate Branching(a: Cell) {
    a.IsNode() && exists v, w :: 0 <= v < w < POINTERS_PER_NODE && a.down[v] != null && a.down[w] != null
  }

  /** The invariant, except that node x (if any) may have a single branch. */
  ghost predicate ShapeOk(m: Cells, root: Elem?, x: Elem?) {
    && (root == null <==> m == map[])
    && (root != null ==> root in m)
    && (forall e {:trigger ElemOk(m, root, e)} :: e in m ==> ElemOk(m, root, e))
    && (forall e {:trigger Branching(m[e])} :: e in m && e != x && !m[e].IsLeaf() ==> Branching(m[e]))
  }

  /** The keys stored at or below e. */
  ghost function KeysAt(m: Cells, e: Elem?): set<Key>
    requires e == null || e in m
  {
    if e == null then {} else m[e].keys
  }

  // ----- what an unchanged neighbourhood keeps -----

  /** What the parent of an element depends on. */
  ghost predicate SameUp(a: Cell, b: Cell) {
    a.parent == b.parent && a.parentVal == b.parentVal && a.nibnum == b.nibnum && a.keys == b.keys
  }

  /** What the element itself depends on. */
  ghost predicate SameDown(a: Cell, b: Cell) {
    a.nibnum == b.nibnum && a.down == b.down && a.keys == b.keys && a.stem == b.stem && a.key == b.key
  }

  ghost predicate ChildrenKept(m: Cells, m': Cells, a: Cell) {
    forall v :: 0 <= v < |a.down| && a.down[v] != null && a.down[v] in m ==>
      a.down[v] in m' && SameUp(m[a.down[v]], m'[a.down[v]])
  }

  /** A node whose own cell and children's cells are kept is still well formed. */
  lemma NodeKept(m: Cells, m': Cells, e: Elem, a: Cell, b: Cell)
    requires NodeOk(m, e, a) && SameDown(a, b) && ChildrenKept(m, m', a)
    ensures NodeOk(m', e, b)
  {
    forall v: nat | v < POINTERS_PER_NODE ensures BranchOk(m', e, b, v) {
      assert BranchOk(m, e, a, v);
    }
    forall k | k in b.keys ensures BranchHas(m', b, k) {
      assert BranchHas(m, a, k);
    }
  }

  // ----- splitting an edge -----

  /** The parent of c, if any, can be made to point elsewhere. */
  ghost predicate Attached(m: Cells, c: Elem) {
    && c in m
    && (m[c].parent != null ==> m[c].parent in m && 0 <= m[c].parentVal < |m[m[c].parent].down|)
  }

  /** The cells after a node n testing nibble i was put above element c. */
  ghost function SplitEdge(m: Cells, n: Elem, i: nat, c: Elem, k: Key): (m': Cells)
    requires Attached(m, c)
  {
    var a := m[c];
    var node := Cell(i, NoBranches()[Nibble(k, i) := c], a.parent, a.parentVal, [], null, a.keys, k);
    var m1 := m[n := node][c := a.(parent := n, parentVal := Nibble(k, i))];
    if a.parent == null then m1
    else m1[a.parent := m[a.parent].(down := m[a.parent].down[a.parentVal := n])]
  }

  ghost predicate Splittable(m: Cells, root: Elem?, n: Elem, i: nat, c: Elem, k: Key) {
    && n !in m && c in m && k in m[c].keys && Attached(m, c)
    && root != null && root in m
    && ElemOk(m, root, c)
    && (m[c].IsLeaf() || i < m[c].nibnum)
    && (c != root ==> m[c].parent in m && ElemOk(m, root, m[c].parent) && m[m[c].parent].nibnum < i)
  }

  /** The four kinds of cells after a split. */
  lemma SplitEdgeCells(m: Cells, root: Elem?, n: Elem, i: nat, c: Elem, k: Key)
    requires Splittable(m, root, n, i, c, k)
    ensures Attached(m, c)
    ensures var m' := SplitEdge(m, n, i, c, k); var a := m[c]; var p := a.parent;
      && m'.Keys == m.Keys + {n}
      && m'[n] == Cell(i, NoBranches()[Nibble(k, i) := c], p, a.parentVal, [], null, a.keys, k)
      && m'[c] == a.(parent := n, parentVal := Nibble(k, i))
      && (p != null ==> p in m && 0 <= a.parentVal < |m[p].down| && m'[p] == m[p].(down := m[p].down[a.parentVal := n]))
      && (forall e :: e in m && e != c && e != p ==> m'[e] == m[e])
  {
  }

  lemma SplitEdgeOther(m: Cells, root: Elem?, n: Elem, i: nat, c: Elem, k: Key, e: Elem)
    requires Splittable(m, root, n, i, c, k)
    requires e in m && ElemOk(m, root, e) && e != c && e != m[c].parent
    ensures ElemOk(SplitEdge(m, n, i, c, k), if c == root then n else root, e)
  {
    var m' := SplitEdge(m, n, i, c, k);
    assert m'[e] == m[e];
    if NodeOk(m, e, m[e]) {
      forall v | 0 <= v < |m[e].down| && m[e].down[v] != null && m[e].down[v] in m
        ensures m[e].down[v] in m' && SameUp(m[m[e].down[v]], m'[m[e].down[v]])
      {
        assert BranchOk(m, e, m[e], v);
      }
      NodeKept(m, m', e, m[e], m'[e]);
    }
  }

  lemma SplitEdgeBelow(m: Cells, root: Elem?, n: Elem, i: nat, c: Elem, k: Key)
    requires Splittable(m, root, n, i, c, k)
    ensures ElemOk(SplitEdge(m, n, i, c, k), if c == root then n else root, c)
  {
    var m' := SplitEdge(m, n, i, c, k);
    if NodeOk(m, c, m[c]) {
      forall v | 0 <= v < |m[c].down| && m[c].down[v] != null && m[c].down[v] in m
        ensures m[c].down[v] in m' && SameUp(m[m[c].down[v]], m'[m[c].down[v]])
      {
        assert BranchOk(m, c, m[c], v);
      }
      NodeKept(m, m', c, m[c], m'[c]);
    }
  }

  lemma SplitEdgeNew(m: Cells, root: Elem?, n: Elem, i: nat, c: Elem, k: Key)
    requires Splittable(m, root, n, i, c, k)
    ensures ElemOk(SplitEdge(m, n, i, c, k), if c == root then n else root, n)
  {
    var m' := SplitEdge(m, n, i, c, k);
    var a := m'[n];
    forall k' | k' in a.keys ensures Agree(k', k, i) && Nibble(k', i) == Nibble(k, i) {
      if NodeOk(m, c, m[c]) {
        assert Agree(k', m[c].stem, m[c].nibnum) && Agree(k, m[c].stem, m[c].nibnum);
      }
    }
    forall k' | k' in a.keys ensures BranchHas(m', a, k') {
    }
    forall v: nat | v < POINTERS_PER_NODE ensures BranchOk(m', n, a, v) {
    }
    if c != root {
      assert m'[a.parent].down[a.parentVal] == n;
    }
  }

  lemma SplitEdgeAbove(m: Cells, root: Elem?, n: Elem, i: nat, c: Elem, k: Key, e: Elem)
    requires Splittable(m, root, n, i, c, k) && c != root && e == m[c].parent
    ensures ElemOk(SplitEdge(m, n, i, c, k), root, e)
  {
    var m' := SplitEdge(m, n, i, c, k);
    var a, b := m[e], m'[e];
    assert BranchOk(m, e, a, m[c].parentVal);
    forall v: nat | v < POINTERS_PER_NODE ensures BranchOk(m', e, b, v) {
      assert BranchOk(m, e, a, v);
    }
    forall k' | k' in b.keys ensures BranchHas(m', b, k') {
      assert BranchHas(m, a, k');
      assert BranchOk(m, e, a, Nibble(k', a.nibnum));
    }
    assert NodeOk(m', e, b);
  }

  lemma SplitEdgeElem(m: Cells, root: Elem?, n: Elem, i: nat, c: Elem, k: Key, e: Elem)
    requires Splittable(m, root, n, i, c, k)
    requires e != n ==> e in m && ElemOk(m, root, e)
    ensures e in SplitEdge(m, n, i, c, k)
    ensures ElemOk(SplitEdge(m, n, i, c, k), if c == root then n else root, e)
    ensures e != n && Branching(m[e]) ==> Branching(SplitEdge(m, n, i, c, k)[e])
    ensures e != n ==> SplitEdge(m, n, i, c, k)[e].nibnum == m[e].nibnum
  {
    var m' := SplitEdge(m, n, i, c, k);
    if e == n { SplitEdgeNew(m, root, n, i, c, k); }
    else if e == c { SplitEdgeBelow(m, root, n, i, c, k); }
    else if c != root && e == m[c].parent { SplitEdgeAbove(m, root, n, i, c, k, e); }
    else { SplitEdgeOther(m, root, n, i, c, k, e); }
    if e != n && Branching(m[e]) {
      BranchingKept(m[e], m'[e]);
    }
  }

  /** Splitting an edge keeps the invariant but for the new node's single branch. */
  lemma SplitEdgeOk(m: Cells, root: Elem?, n: Elem, i: nat, c: Elem, k: Key)
    requires ShapeOk(m, root, null) && Splittable(m, root, n, i, c, k)
    ensures ShapeOk(SplitEdge(m, n, i, c, k), if c == root then n else root, n)
    ensures KeysAt(SplitEdge(m, n, i, c, k), if c == root then n else root) == KeysAt(m, root)
  {
    hide ElemOk, Branching;
    var m' := SplitEdge(m, n, i, c, k);
    forall e | e in m'
      ensures ElemOk(m', if c == root then n else root, e)
      ensures e != n && !m'[e].IsLeaf() ==> Branching(m'[e])
    {
      if e != n { assert ElemOk(m, root, e) && (!m[e].IsLeaf() ==> Branching(m[e])); }
      SplitEdgeElem(m, root, n, i, c, k, e);
    }
  }

  lemma BranchingKept(a: Cell, b: Cell)
    requires Branching(a) && b.IsNode()
    requires forall v :: 0 <= v < POINTERS_PER_NODE && a.down[v] != null ==> b.down[v] != null
    ensures Branching(b)
  {
    var v, w :| 0 <= v < w < POINTERS_PER_NODE && a.down[v] != null && a.down[w] != null;
    assert b.down[v] != null && b.down[w] != null;
  }

  // ----- paths -----

  /**
    The nodes holding a key form a chain: two of them at the same nibble are
    the same node, and the lower one is reached through the upper one's branch.
   */
  lemma {:induction false} Chain(m: Cells, root: Elem?, x: Elem?, e1: Elem, e2: Elem, k: Key)
    requires ShapeOk(m, root, x)
    requires e1 in m && e2 in m && m[e1].IsNode() && m[e2].IsNode() && k in m[e1].keys && k in m[e2].keys
    requires m[e1].nibnum <= m[e2].nibnum
    ensures m[e1].nibnum == m[e2].nibnum ==> e1 == e2
    ensures m[e1].nibnum < m[e2].nibnum ==>
      var c := m[e1].down[Nibble(k, m[e1].nibnum)];
      c == e2 || (c != null && c in m && m[c].IsNode() && m[c].nibnum < m[e2].nibnum)
    decreases m[e1].nibnum + m[e2].nibnum
  {
    if e2 == root {
      RootIsTop(m, root, x, e1);
    } else {
      Upward(m, root, x, e2, k);
      var p := m[e2].parent;
      if m[p].nibnum < m[e1].nibnum {
        Chain(m, root, x, p, e1, k);
      } else {
        Chain(m, root, x, e1, p, k);
      }
    }
  }

  /** From an element other than the root to its parent, by key k. */
  lemma Upward(m: Cells, root: Elem?, x: Elem?, e: Elem, k: Key)
    requires ShapeOk(m, root, x) && e in m && e != root && k in m[e].keys
    ensures var p := m[e].parent;
      && p != null && p in m && m[p].IsNode() && NodeOk(m, p, m[p]) && 0 <= m[e].parentVal < POINTERS_PER_NODE
      && m[p].down[m[e].parentVal] == e
      && ChildOk(p, m[p], m[e].parentVal, m[e])
      && k in m[p].keys && Nibble(k, m[p].nibnum) == m[e].parentVal
      && (m[e].IsLeaf() || m[p].nibnum < m[e].nibnum)
  {
    assert ElemOk(m, root, e);
    var p := m[e].parent;
    assert ElemOk(m, root, p);
    assert BranchOk(m, p, m[p], m[e].parentVal);
  }

  lemma {:induction false} RootIsTop(m: Cells, root: Elem?, x: Elem?, e: Elem)
    requires ShapeOk(m, root, x) && e in m && m[e].IsNode()
    ensures root != null && m[root].IsNode() && m[root].nibnum <= m[e].nibnum
    ensures m[root].nibnum == m[e].nibnum ==> e == root
    decreases m[e].nibnum
  {
    if e != root {
      assert ElemOk(m, root, e);
      var k :| k in m[e].keys;
      Upward(m, root, x, e, k);
      RootIsTop(m, root, x, m[e].parent);
    }
  }

  /** Every key of an element is a key of the trie. */
  lemma {:induction false} KeysBelowRoot(m: Cells, root: Elem?, x: Elem?, e: Elem, k: Key)
    requires ShapeOk(m, root, x) && e in m && k in m[e].keys
    ensures root != null && k in m[root].keys
    decreases m[e].IsLeaf(), m[e].nibnum
  {
    if e != root {
      Upward(m, root, x, e, k);
      KeysBelowRoot(m, root, x, m[e].parent, k);
    }
  }

  /** A stored key that shares the first nibnum nibbles of a node lies below that node. */
  lemma {:induction false} SharingIsBelow(m: Cells, root: Elem?, x: Elem?, e: Elem, k: Key)
    requires ShapeOk(m, root, x) && e in m && m[e].IsNode()
    requires k in KeysAt(m, root) && Agree(k, m[e].stem, m[e].nibnum)
    ensures k in m[e].keys
    decreases m[e].nibnum
  {
    if e != root {
      assert ElemOk(m, root, e);
      var k0 :| k0 in m[e].keys;
      Upward(m, root, x, e, k0);
      var p := m[e].parent;
      assert Agree(k0, m[e].stem, m[e].nibnum);
      assert Agree(k0, m[p].stem, m[p].nibnum);
      SharingIsBelow(m, root, x, p, k);
      assert BranchHas(m, m[p], k);
    }
  }

  /** No key is stored twice. */
  lemma LeafUnique(m: Cells, root: Elem?, x: Elem?, l1: Elem, l2: Elem, k: Key)
    requires ShapeOk(m, root, x)
    requires l1 in m && m[l1].IsLeaf() && k in m[l1].keys
    requires l2 in m && m[l2].IsLeaf() && k in m[l2].keys
    ensures l1 == l2
  {
    if l1 != l2 {
      if l1 != root {
        Upward(m, root, x, l1, k);
        RootIsTop(m, root, x, m[l1].parent);
      }
      if l2 != root {
        Upward(m, root, x, l2, k);
        RootIsTop(m, root, x, m[l2].parent);
      }
      var p1, p2 := m[l1].parent, m[l2].parent;
      if m[p1].nibnum <= m[p2].nibnum {
        Chain(m, root, x, p1, p2, k);
      } else {
        Chain(m, root, x, p2, p1, k);
      }
    }
  }

  /** The branch a key selects holds it if the node does, and holds fewer keys. */
  lemma ChildStep(m: Cells, root: Elem?, e: Elem, k: Key)
    requires ShapeOk(m, root, null) && e in m && !m[e].IsLeaf()
    ensures m[e].IsNode()
    ensures var c := m[e].down[Nibble(k, m[e].nibnum)];
      && (k in m[e].keys ==> c != null)
      && (c != null ==> c in m && (k in m[e].keys <==> k in m[c].keys) && m[c].keys < m[e].keys)
      && (c != null ==> m[c].parent == e && m[c].parentVal == Nibble(k, m[e].nibnum))
  {
    assert ElemOk(m, root, e) && Branching(m[e]);
    var v := Nibble(k, m[e].nibnum);
    var c := m[e].down[v];
    if k in m[e].keys { assert BranchHas(m, m[e], k); }
    if c != null {
      assert BranchOk(m, e, m[e], v);
      OtherBranch(m, root, e, v);
    }
  }

  /** A branching node holds a key outside branch v. */
  lemma OtherBranch(m: Cells, root: Elem?, e: Elem, v: nat)
    requires ShapeOk(m, root, null) && e in m && m[e].IsNode() && v < POINTERS_PER_NODE
    ensures exists k :: k in m[e].keys && Nibble(k, m[e].nibnum) != v
  {
    assert ElemOk(m, root, e) && Branching(m[e]);
    var w :| 0 <= w < POINTERS_PER_NODE && w != v && m[e].down[w] != null;
    assert BranchOk(m, e, m[e], w);
    assert ElemOk(m, root, m[e].down[w]);
    var k :| k in m[m[e].down[w]].keys;
    assert k in m[e].keys;
  }

  /** The keys below the first used branch of a node precede its other keys. */
  lemma FirstBranch(m: Cells, root: Elem?, e: Elem, v: nat)
    requires ShapeOk(m, root, null) && e in m && m[e].IsNode()
    requires v < POINTERS_PER_NODE && m[e].down[v] != null && forall w :: 0 <= w < v ==> m[e].down[w] == null
    ensures m[e].down[v] in m && m[m[e].down[v]].keys < m[e].keys
    ensures forall x, k :: x in m[m[e].down[v]].keys && k in m[e].keys - m[m[e].down[v]].keys ==> KeyLess(x, k)
  {
    assert ElemOk(m, root, e);
    assert BranchOk(m, e, m[e], v);
    OtherBranch(m, root, e, v);
    forall x, k | x in m[m[e].down[v]].keys && k in m[e].keys - m[m[e].down[v]].keys ensures KeyLess(x, k) {
      assert BranchHas(m, m[e], k);
      OrderAtNode(m, e, x, k);
    }
  }

  /** Two keys of a node compare as the nibbles it tests, if these differ. */
  lemma OrderAtNode(m: Cells, e: Elem, x: Key, k: Key)
    requires e in m && NodeOk(m, e, m[e]) && x in m[e].keys && k in m[e].keys
    requires Nibble(x, m[e].nibnum) < Nibble(k, m[e].nibnum)
    ensures KeyLess(x, k)
  {
    assert Agree(x, m[e].stem, m[e].nibnum) && Agree(k, m[e].stem, m[e].nibnum);
    assert DiffersAt(x, k, m[e].nibnum);
  }

  /** The nodes met when descending with key k. */
  ghost predicate PathOk(m: Cells, root: Elem?, path: seq<Elem>, k: Key) {
    && (forall j :: 0 <= j < |path| ==> path[j] in m && m[path[j]].IsNode())
    && (path != [] ==> path[0] == root)
    && (forall j {:trigger LinkOk(m, path, j, k)} :: 0 < j < |path| ==> LinkOk(m, path, j, k))
  }

  ghost predicate LinkOk(m: Cells, path: seq<Elem>, j: int, k: Key)
    requires 0 < j < |path| && path[j] in m
  {
    BranchOn(m, path[j - 1], k) == path[j] && m[path[j]].parent == path[j - 1]
  }

  lemma PathGrows(m: Cells, root: Elem?, path: seq<Elem>, e: Elem, k: Key)
    requires PathOk(m, root, path, k) && e in m && m[e].IsNode()
    requires if path == [] then e == root
             else BranchOn(m, path[|path| - 1], k) == e && m[e].parent == path[|path| - 1]
    ensures PathOk(m, root, path + [e], k)
  {
    var p := path + [e];
    forall j | 0 < j < |p| ensures LinkOk(m, p, j, k) {
      if j < |path| { assert LinkOk(m, path, j, k); }
    }
  }

  /** The branch of node e that key k selects. */
  ghost function BranchOn(m: Cells, e: Elem, k: Key): Elem? {
    if e in m && m[e].IsNode() then m[e].down[Nibble(k, m[e].nibnum)] else null
  }

  /** Where a key differing first at nibble i from a key d of the trie belongs. */
  ghost predicate PlaceOk(m: Cells, root: Elem?, prev: Elem?, val: int, i: nat, d: Key, k: Key) {
    && (prev != null ==> prev in m && m[prev].IsNode() && d in m[prev].keys && m[prev].nibnum <= i)
    && (prev != null && m[prev].nibnum == i ==> BranchOn(m, prev, k) == null)
    && (prev != null && m[prev].nibnum < i ==>
      0 <= val < POINTERS_PER_NODE && EdgeOk(m, m[prev].down[val], i, d) && m[m[prev].down[val]].parent == prev
      && m[m[prev].down[val]].parentVal == val)
    && (prev == null ==> EdgeOk(m, root, i, d) && m[root].parent == null && m[root].parentVal == val)
  }

  /** Element c exists, holds d, and is not tested before nibble i + 1. */
  ghost predicate EdgeOk(m: Cells, c: Elem?, i: nat, d: Key) {
    c != null && c in m && d in m[c].keys && (m[c].IsLeaf() || i < m[c].nibnum)
  }

  /** Descent with key k ended on path, and d is a key stored where it ended. */
  ghost predicate EndOk(m: Cells, root: Elem?, path: seq<Elem>, d: Key, k: Key) {
    && PathOk(m, root, path, k)
    && if path == [] then root != null && root in m && m[root].IsLeaf() && d in m[root].keys
       else
         var last := path[|path| - 1];
         var c := BranchOn(m, last, k);
         d in m[last].keys && (c == null || (c in m && m[c].IsLeaf() && d in m[c].keys))
  }

  /** Climbing t nodes short of the end of the path is done: the key belongs here. */
  lemma PlaceAtEnd(m: Cells, root: Elem?, path: seq<Elem>, i: nat, d: Key, k: Key)
    requires ShapeOk(m, root, null) && EndOk(m, root, path, d, k) && DiffersAt(k, d, i)
    requires path != [] ==> m[path[|path| - 1]].nibnum <= i
    ensures if path == [] then PlaceOk(m, root, null, NO_BRANCH, i, d, k)
            else PlaceOk(m, root, path[|path| - 1], Nibble(k, m[path[|path| - 1]].nibnum), i, d, k)
  {
    if path == [] {
      assert ElemOk(m, root, root);
    } else {
      var last := path[|path| - 1];
      assert ElemOk(m, root, last);
      assert BranchHas(m, m[last], d);
      assert BranchOk(m, last, m[last], Nibble(k, m[last].nibnum));
    }
  }

  lemma PlaceAbove(m: Cells, root: Elem?, path: seq<Elem>, t: nat, i: nat, d: Key, k: Key)
    requires ShapeOk(m, root, null) && PathOk(m, root, path, k) && DiffersAt(k, d, i)
    requires t < |path| && d in m[path[t]].keys && i < m[path[t]].nibnum
    requires t > 0 ==> m[path[t - 1]].nibnum <= i
    ensures PlaceOk(m, root, if t == 0 then null else path[t - 1], m[path[t]].parentVal, i, d, k)
  {
    var c := path[t];
    if t == 0 {
      assert ElemOk(m, root, c);
    } else {
      assert LinkOk(m, path, t, k);
      assert ElemOk(m, root, path[t - 1]) && ElemOk(m, root, c);
      Upward(m, root, null, c, d);
      assert BranchOk(m, path[t - 1], m[path[t - 1]], Nibble(k, m[path[t - 1]].nibnum));
    }
  }

  /** The place found is an edge that can be split, unless nibble i is tested already. */
  lemma PlaceSplits(m: Cells, root: Elem?, prev: Elem?, val: int, i: nat, d: Key, k: Key, n: Elem)
    requires ShapeOk(m, root, null) && PlaceOk(m, root, prev, val, i, d, k) && n !in m
    requires prev != null ==> m[prev].nibnum < i
    ensures var c := if prev == null then root else m[prev].down[val];
      && Splittable(m, root, n, i, c, d) && m[c].parent == prev && m[c].parentVal == val
      && (c == root <==> prev == null) && prev != c
  {
    var c := if prev == null then root else m[prev].down[val];
    assert ElemOk(m, root, c);
    if prev != null { assert ElemOk(m, root, prev); }
  }

  // ----- attaching a leaf -----

  /** The ancestors of node n, n included, recognised by a key k0 of n. */
  ghost predicate OnPath(m: Cells, n: Elem, k0: Key, e: Elem)
    requires n in m && e in m
  {
    m[e].IsNode() && k0 in m[e].keys && m[e].nibnum <= m[n].nibnum
  }

  /** Cell of e once key k is stored in the empty branch v of node n as element leaf. */
  ghost function AttachCell(m: Cells, n: Elem, k0: Key, leaf: Elem, k: Key, v: nat, e: Elem): (b: Cell)
    requires n in m && e in m && m[n].IsNode() && v < POINTERS_PER_NODE
  {
    var a := if OnPath(m, n, k0, e) then m[e].(keys := m[e].keys + {k}) else m[e];
    if e == n then a.(down := m[n].down[v := leaf]) else a
  }

  ghost function Attach(m: Cells, n: Elem, k0: Key, leaf: Elem, k: Key, data: object?, v: nat): (m': Cells)
    requires n in m && m[n].IsNode() && v < POINTERS_PER_NODE
  {
    (map e | e in m :: AttachCell(m, n, k0, leaf, k, v, e))[leaf := Cell(-1, [], n, v, k, data, {k}, k)]
  }

  ghost predicate Attachable(m: Cells, root: Elem?, n: Elem, k0: Key, leaf: Elem, k: Key, v: nat) {
    && leaf !in m && n in m && m[n].IsNode()
    && k0 in m[n].keys
    && v == Nibble(k, m[n].nibnum) && m[n].down[v] == null
    && Agree(k, m[n].stem, m[n].nibnum)
    && root != null && root in m && k !in m[root].keys
  }

  /** Every ancestor of n sends k the same way as it sends k0. */
  lemma PathSendsAlike(m: Cells, root: Elem?, n: Elem, k0: Key, leaf: Elem, k: Key, v: nat, e: Elem)
    requires ShapeOk(m, root, n) && Attachable(m, root, n, k0, leaf, k, v)
    requires e in m && OnPath(m, n, k0, e)
    ensures Agree(k, m[e].stem, m[e].nibnum)
    ensures e != n ==>
      var w := Nibble(k, m[e].nibnum);
      w == Nibble(k0, m[e].nibnum) && m[e].down[w] != null && m[e].down[w] in m && OnPath(m, n, k0, m[e].down[w])
  {
    assert ElemOk(m, root, e) && ElemOk(m, root, n);
    assert Agree(k0, m[n].stem, m[n].nibnum) && Agree(k0, m[e].stem, m[e].nibnum);
    if e != n {
      Chain(m, root, n, e, n, k0);
      assert BranchHas(m, m[e], k0);
    }
  }

  lemma AttachBranch(m: Cells, root: Elem?, n: Elem, k0: Key, leaf: Elem, k: Key, data: object?, v: nat, e: Elem,
                     w: nat)
    requires ShapeOk(m, root, n) && Attachable(m, root, n, k0, leaf, k, v)
    requires e in m && NodeOk(m, e, m[e]) && w < POINTERS_PER_NODE
    ensures AttachCell(m, n, k0, leaf, k, v, e).IsNode()
    ensures BranchOk(Attach(m, n, k0, leaf, k, data, v), e, AttachCell(m, n, k0, leaf, k, v, e), w)
  {
    assert BranchOk(m, e, m[e], w);
    if OnPath(m, n, k0, e) {
      PathSendsAlike(m, root, n, k0, leaf, k, v, e);
    }
  }

  lemma AttachHas(m: Cells, root: Elem?, n: Elem, k0: Key, leaf: Elem, k: Key, data: object?, v: nat, e: Elem, k': Key)
    requires ShapeOk(m, root, n) && Attachable(m, root, n, k0, leaf, k, v)
    requires e in m && NodeOk(m, e, m[e]) && k' in AttachCell(m, n, k0, leaf, k, v, e).keys
    ensures BranchHas(Attach(m, n, k0, leaf, k, data, v), AttachCell(m, n, k0, leaf, k, v, e), k')
    ensures Agree(k', m[e].stem, m[e].nibnum)
  {
    if k' in m[e].keys {
      assert BranchHas(m, m[e], k');
    } else {
      PathSendsAlike(m, root, n, k0, leaf, k, v, e);
    }
  }

  lemma AttachElem(m: Cells, root: Elem?, n: Elem, k0: Key, leaf: Elem, k: Key, data: object?, v: nat, e: Elem)
    requires ShapeOk(m, root, n) && Attachable(m, root, n, k0, leaf, k, v)
    requires e in m
    ensures ElemOk(Attach(m, n, k0, leaf, k, data, v), root, e)
  {
    var m' := Attach(m, n, k0, leaf, k, data, v);
    assert ElemOk(m, root, e);
    if NodeOk(m, e, m[e]) {
      forall w: nat | w < POINTERS_PER_NODE ensures BranchOk(m', e, m'[e], w) {
        AttachBranch(m, root, n, k0, leaf, k, data, v, e, w);
      }
      forall k' | k' in m'[e].keys ensures BranchHas(m', m'[e], k') && Agree(k', m[e].stem, m[e].nibnum) {
        AttachHas(m, root, n, k0, leaf, k, data, v, e, k');
      }
    }
  }

  /** A node keeps a used branch next to the one filled. */
  lemma AttachBranching(m: Cells, root: Elem?, n: Elem, k0: Key, leaf: Elem, k: Key, v: nat, e: Elem)
    requires ShapeOk(m, root, n) && Attachable(m, root, n, k0, leaf, k, v)
    requires e in m && !m[e].IsLeaf()
    ensures Branching(AttachCell(m, n, k0, leaf, k, v, e))
  {
    assert ElemOk(m, root, e);
    var b := AttachCell(m, n, k0, leaf, k, v, e);
    if e == n {
      assert BranchHas(m, m[n], k0);
      var w := Nibble(k0, m[n].nibnum);
      assert b.down[v] != null && b.down[w] != null;
    } else {
      assert Branching(m[e]);
      BranchingKept(m[e], b);
    }
  }

  /** Storing a key in the empty branch its nibbles lead to completes the invariant. */
  lemma AttachOk(m: Cells, root: Elem?, n: Elem, k0: Key, leaf: Elem, k: Key, data: object?, v: nat)
    requires ShapeOk(m, root, n) && Attachable(m, root, n, k0, leaf, k, v)
    ensures ShapeOk(Attach(m, n, k0, leaf, k, data, v), root, null)
    ensures KeysAt(Attach(m, n, k0, leaf, k, data, v), root) == KeysAt(m, root) + {k}
  {
    assert OnPath(m, n, k0, root) by {
      RootIsTop(m, root, n, n);
      KeysBelowRoot(m, root, n, n, k0);
    }
    assert root != leaf && leaf != n;
    hide ElemOk, Branching;
    var m' := Attach(m, n, k0, leaf, k, data, v);
    forall e | e in m' ensures ElemOk(m', root, e) && (!m'[e].IsLeaf() ==> Branching(m'[e])) {
      if e == leaf {
        AttachNew(m, root, n, k0, leaf, k, data, v);
      } else {
        AttachElem(m, root, n, k0, leaf, k, data, v, e);
        if !m[e].IsLeaf() { AttachBranching(m, root, n, k0, leaf, k, v, e); }
      }
    }
  }

  lemma AttachNew(m: Cells, root: Elem?, n: Elem, k0: Key, leaf: Elem, k: Key, data: object?, v: nat)
    requires Attachable(m, root, n, k0, leaf, k, v)
    ensures ElemOk(Attach(m, n, k0, leaf, k, data, v), root, leaf)
  {
  }

  // ----- detaching a leaf -----

  /** Cell of e once key k, stored in branch v of node p, is gone. */
  ghost function DetachCell(m: Cells, p: Elem?, k: Key, v: int, e: Elem): (b: Cell)
    requires e in m
    requires e == p ==> 0 <= v < |m[e].down|
  {
    var a := m[e].(keys := m[e].keys - {k});
    if e == p then a.(down := m[e].down[v := null]) else a
  }

  ghost function Detach(m: Cells, leaf: Elem): (m': Cells)
    requires Attached(m, leaf)
  {
    map e | e in m && e != leaf :: DetachCell(m, m[leaf].parent, m[leaf].key, m[leaf].parentVal, e)
  }

  /** A branching node holds a key other than k. */
  lemma OtherKey(m: Cells, root: Elem?, x: Elem?, e: Elem, k: Key)
    requires ShapeOk(m, root, x) && e in m && Branching(m[e])
    ensures m[e].keys - {k} != {}
  {
    assert ElemOk(m, root, e);
    var v, w :| 0 <= v < w < POINTERS_PER_NODE && m[e].down[v] != null && m[e].down[w] != null;
    assert BranchOk(m, e, m[e], v) && BranchOk(m, e, m[e], w);
    assert ElemOk(m, root, m[e].down[v]) && ElemOk(m, root, m[e].down[w]);
    var kv :| kv in m[m[e].down[v]].keys;
    var kw :| kw in m[m[e].down[w]].keys;
    assert kv in m[e].keys && kw in m[e].keys && kv != kw;
  }

  lemma DetachNode(m: Cells, root: Elem?, leaf: Elem, e: Elem)
    requires leaf in m && LeafOk(m[leaf]) && Attached(m, leaf)
    requires m[leaf].parent != null ==> m[m[leaf].parent].down[m[leaf].parentVal] == leaf
    requires e in m && e != leaf && NodeOk(m, e, m[e])
    ensures NodeOk(Detach(m, leaf), e, Detach(m, leaf)[e])
  {
    var m' := Detach(m, leaf);
    forall w: nat | w < POINTERS_PER_NODE ensures BranchOk(m', e, m'[e], w) {
      assert BranchOk(m, e, m[e], w);
    }
    forall k' | k' in m'[e].keys ensures BranchHas(m', m'[e], k') {
      assert BranchHas(m, m[e], k');
    }
  }

  lemma DetachElem(m: Cells, root: Elem?, leaf: Elem, e: Elem)
    requires ShapeOk(m, root, null) && leaf in m && m[leaf].IsLeaf() && leaf != root && Attached(m, leaf)
    requires e in m && e != leaf
    ensures ElemOk(Detach(m, leaf), root, e)
  {
    assert ElemOk(m, root, e) && ElemOk(m, root, leaf);
    if m[e].IsLeaf() {
      if m[e].key == m[leaf].key { LeafUnique(m, root, null, e, leaf, m[leaf].key); }
    } else {
      assert Branching(m[e]);
      OtherKey(m, root, null, e, m[leaf].key);
      DetachNode(m, root, leaf, e);
    }
  }

  /** Removing a leaf keeps the invariant but for its parent's branches. */
  lemma DetachOk(m: Cells, root: Elem?, leaf: Elem)
    requires ShapeOk(m, root, null) && leaf in m && m[leaf].IsLeaf() && leaf != root && Attached(m, leaf)
    ensures ShapeOk(Detach(m, leaf), root, m[leaf].parent)
    ensures KeysAt(Detach(m, leaf), root) == KeysAt(m, root) - {m[leaf].key}
  {
    hide ElemOk, Branching;
    var m' := Detach(m, leaf);
    forall e | e in m' ensures ElemOk(m', root, e) && (e != m[leaf].parent && !m'[e].IsLeaf() ==> Branching(m'[e])) {
      DetachElem(m, root, leaf, e);
      if e != m[leaf].parent && !m[e].IsLeaf() {
        assert Branching(m[e]);
        BranchingStays(m[e], m'[e]);
      }
    }
    assert root in m';
  }

  lemma BranchingStays(a: Cell, b: Cell)
    requires Branching(a) && a.nibnum == b.nibnum && a.down == b.down
    ensures Branching(b)
  {
    BranchingKept(a, b);
  }

  // ----- collapsing a node with a single branch -----

  /** Cell of e after element next took the place of its parent d. */
  ghost function CollapseCell(m: Cells, d: Elem, next: Elem, e: Elem): (b: Cell)
    requires d in m && e in m
    requires e == m[d].parent ==> 0 <= m[d].parentVal < |m[e].down|
  {
    var a := if e == next then m[e].(parent := m[d].parent, parentVal := m[d].parentVal) else m[e];
    if e == m[d].parent then a.(down := m[e].down[m[d].parentVal := next]) else a
  }

  ghost function Collapse(m: Cells, d: Elem, next: Elem): (m': Cells)
    requires Attached(m, d)
  {
    map e | e in m && e != d :: CollapseCell(m, d, next, e)
  }

  /** next is the only child of d. */
  ghost predicate Collapsible(m: Cells, root: Elem?, d: Elem, next: Elem, used: nat) {
    && ShapeOk(m, root, d) && Attached(m, d)
    && d in m && next in m && m[d].IsNode() && used < POINTERS_PER_NODE
    && (forall w: nat :: w < POINTERS_PER_NODE ==> m[d].down[w] == if w == used then next else null)
  }

  /** The only child holds all keys of its parent. */
  lemma OnlyChildKeys(m: Cells, root: Elem?, d: Elem, next: Elem, used: nat)
    requires Collapsible(m, root, d, next, used)
    ensures m[next].keys == m[d].keys && ChildOk(d, m[d], used, m[next]) && next != root
    ensures m[next].parent == d && next != d && m[d].parent != next && m[d].parent != d
    ensures d != root ==>
      m[d].parent != null && NodeOk(m, m[d].parent, m[m[d].parent]) && m[m[d].parent].down[m[d].parentVal] == d
    ensures d != root ==> ChildOk(m[d].parent, m[m[d].parent], m[d].parentVal, m[d])
  {
    assert ElemOk(m, root, d) && ElemOk(m, root, next);
    assert BranchOk(m, d, m[d], used);
    forall k | k in m[d].keys ensures k in m[next].keys {
      assert BranchHas(m, m[d], k);
    }
    if d != root {
      var k :| k in m[d].keys;
      Upward(m, root, d, d, k);
    }
  }

  lemma CollapseAbove(m: Cells, root: Elem?, d: Elem, next: Elem, used: nat, e: Elem)
    requires Collapsible(m, root, d, next, used) && d != root && e == m[d].parent
    ensures e in m && e != d && e != next && NodeOk(Collapse(m, d, next), e, Collapse(m, d, next)[e])
  {
    var m' := Collapse(m, d, next);
    OnlyChildKeys(m, root, d, next, used);
    assert ElemOk(m, root, e);
    forall w: nat | w < POINTERS_PER_NODE ensures BranchOk(m', e, m'[e], w) {
      assert BranchOk(m, e, m[e], w);
    }
    forall k | k in m'[e].keys ensures BranchHas(m', m'[e], k) {
      var w := Nibble(k, m[e].nibnum);
      assert BranchHas(m, m[e], k) && BranchOk(m, e, m[e], w);
      if w == m[d].parentVal {
        assert m[e].down[w] == d && m'[e].down[w] == next && m'[next].keys == m[d].keys;
      }
    }
  }

  lemma CollapseElsewhere(m: Cells, root: Elem?, d: Elem, next: Elem, used: nat, e: Elem)
    requires Collapsible(m, root, d, next, used) && e in m && e != d && e != m[d].parent && NodeOk(m, e, m[e])
    ensures NodeOk(Collapse(m, d, next), e, Collapse(m, d, next)[e])
  {
    var m' := Collapse(m, d, next);
    OnlyChildKeys(m, root, d, next, used);
    forall v | 0 <= v < |m[e].down| && m[e].down[v] != null && m[e].down[v] in m
      ensures m[e].down[v] in m' && SameUp(m[m[e].down[v]], m'[m[e].down[v]])
    {
      assert BranchOk(m, e, m[e], v);
    }
    NodeKept(m, m', e, m[e], m'[e]);
  }

  lemma CollapseElem(m: Cells, root: Elem?, d: Elem, next: Elem, used: nat, e: Elem)
    requires Collapsible(m, root, d, next, used) && e in m && e != d
    ensures ElemOk(Collapse(m, d, next), if d == root then next else root, e)
    ensures !m[e].IsLeaf() ==> Branching(Collapse(m, d, next)[e])
  {
    OnlyChildKeys(m, root, d, next, used);
    assert ElemOk(m, root, e) && ElemOk(m, root, d);
    if NodeOk(m, e, m[e]) {
      if e == m[d].parent {
        CollapseAbove(m, root, d, next, used, e);
      } else {
        CollapseElsewhere(m, root, d, next, used, e);
      }
      assert Branching(m[e]);
      BranchingKept(m[e], Collapse(m, d, next)[e]);
    }
  }

  /** Removing a node with a single branch restores the full invariant. */
  lemma CollapseOk(m: Cells, root: Elem?, d: Elem, next: Elem, used: nat)
    requires Collapsible(m, root, d, next, used)
    ensures ShapeOk(Collapse(m, d, next), if d == root then next else root, null)
    ensures KeysAt(Collapse(m, d, next), if d == root then next else root) == KeysAt(m, root)
  {
    OnlyChildKeys(m, root, d, next, used);
    hide ElemOk, Branching;
    var m' := Collapse(m, d, next);
    var root' := if d == root then next else root;
    forall e | e in m' ensures ElemOk(m', root', e) && (!m'[e].IsLeaf() ==> Branching(m'[e])) {
      CollapseElem(m, root, d, next, used, e);
    }
    assert root' in m';
  }
}
