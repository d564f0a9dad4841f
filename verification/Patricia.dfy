/**
  The Patricia trie of patricia.c as a mutable structure, refining a finite
  map from canonical keys to data.
 */
module Patricia {
  import opened Keys
  import opened Trie
  import opened TrieOrder

  /** The state of an iteration: the current element and the one after it. */
  class IterationState {
    var cur: Elem?
    var next: Elem?

    constructor ()
    {
      cur := null;
      next := null;
    }
  }

  class Patricia {
    const canonize: Key -> Key
    var root: Elem?
    var count: nat
    ghost var cells: Cells             // the elements and what they hold
    ghost var index: map<Key, Elem>    // the leaf of every stored key

    /** The fields of e hold what its cell says. */
    ghost static predicate Matches(e: Elem, c: Cell)
      reads e
    {
      e.nibnum == c.nibnum && e.down == c.down && e.parent == c.parent && e.parentVal == c.parentVal && e.key == c.key
        && e.data == c.data
    }

    ghost static predicate Synced(m: Cells)
      reads m.Keys
    {
      forall e {:trigger Matches(e, m[e])} :: e in m ==> Matches(e, m[e])
    }

    /** The fields of all elements but a and b hold what their cells say. */
    ghost static predicate SyncedBut(m: Cells, a: Elem?, b: Elem?)
      reads m.Keys
    {
      forall e {:trigger Matches(e, m[e])} :: e in m && e != a && e != b ==> Matches(e, m[e])
    }

    /** Every stored key is canonical and has its leaf. */
    ghost static predicate IndexOk(m: Cells, root: Elem?, index: map<Key, Elem>, canonize: Key -> Key) {
      && (root != null ==> root in m)
      && index.Keys == KeysAt(m, root)
      && (forall k {:trigger index[k]} :: k in index ==> IsLeafOf(m, index[k], k) && canonize(k) == k)
    }

    ghost static predicate IsLeafOf(m: Cells, e: Elem, k: Key) {
      e in m && m[e].IsLeaf() && m[e].key == k
    }

    /** The class invariant; canonize keeps lengths and is idempotent. */
    ghost predicate Valid()
      reads this, cells.Keys
    {
      && Synced(cells)
      && ShapeOk(cells, root, null)
      && IndexOk(cells, root, index, canonize)
      && count == |index|
      && CanonizeOk(canonize)
    }

    ghost static predicate CanonizeOk(f: Key -> Key) {
      forall k: Key {:trigger Canonizes(f, k)} :: Canonizes(f, k)
    }

    ghost static predicate Canonizes(f: Key -> Key, k: Key) {
      |f(k)| == |k| && f(f(k)) == f(k)
    }

    /** What the trie stands for. */
    ghost function Contents(): map<Key, object?>
      reads this
    {
      ContentsOf(cells, index)
    }

    ghost static function ContentsOf(m: Cells, index: map<Key, Elem>): map<Key, object?> {
      map k | k in index && index[k] in m :: m[index[k]].data
    }

    constructor (canonize: Key -> Key)
      requires CanonizeOk(canonize)
      ensures Valid() && this.canonize == canonize
      ensures cells == map[] && Contents() == map[]
    {
      this.canonize := canonize;
      root := null;
      count := 0;
      cells := map[];
      index := map[];
    }

    // ----- lookup -----

    /** Blind descent and one comparison find exactly the stored keys. */
    method ElemFind(key: Key) returns (leaf: Elem?)
      requires Valid()
      ensures canonize(key) in Contents() <==> leaf != null
      ensures leaf != null ==>
        leaf == index[canonize(key)] && leaf in cells && leaf.IsLeaf() && leaf.key == canonize(key)
    {
      var keylen := |key|;
      var ckey := canonize(key);
      assert Canonizes(canonize, key);
      var delem: Elem? := root;
      while delem != null && !delem.IsLeaf()
        invariant delem != null ==> delem in cells
        invariant ckey in index ==> delem != null && ckey in cells[delem].keys
        decreases if delem == null then {} else cells[delem].keys
      {
        assert Matches(delem, cells[delem]);
        ChildStep(cells, root, delem, ckey);
        assert ElemOk(cells, root, delem);
        var val := if delem.nibnum / 2 < keylen then NibbleVal(ckey, delem.nibnum) else 0;
        assert val == Nibble(ckey, delem.nibnum);
        delem := delem.down[val];
        if delem != null { assert ElemOk(cells, root, delem); }
      }
      if delem != null {
        LeafHolds(delem, ckey);
        StrcmpIsKeyLess(delem.key, ckey);
        if Strcmp(delem.key, ckey) != 0 { delem := null; }
      }
      leaf := delem;
    }

    /** A leaf holds its own key and is the one the index names. */
    lemma LeafHolds(e: Elem, k: Key)
      requires Valid() && e in cells && e.IsLeaf()
      ensures cells[e].keys == {e.key} && e.key in index && index[e.key] == e
    {
      assert Matches(e, cells[e]);
      assert ElemOk(cells, root, e);
      KeysBelowRoot(cells, root, null, e, e.key);
      var l := index[e.key];
      assert ElemOk(cells, root, l);
      LeafUnique(cells, root, null, e, l, e.key);
    }

    method Retrieve(key: Key) returns (data: object?)
      requires Valid()
      ensures data == if canonize(key) in Contents() then Contents()[canonize(key)] else null
    {
      var delem := ElemFind(key);
      if delem != null { assert Matches(delem, cells[delem]); }
      data := if delem != null then delem.data else null;
    }

    /** The cells after a leaf was given other data. */
    ghost static function WithData(m: Cells, leaf: Elem, data: object?): Cells
      requires leaf in m
    {
      m[leaf := m[leaf].(data := data)]
    }

    /** Data is no part of the shape. */
    static lemma DataOk(m: Cells, root: Elem?, index: map<Key, Elem>, canonize: Key -> Key, leaf: Elem, data: object?)
      requires ShapeOk(m, root, null) && IndexOk(m, root, index, canonize) && leaf in m
      ensures ShapeOk(WithData(m, leaf, data), root, null) && IndexOk(WithData(m, leaf, data), root, index, canonize)
    {
      var m' := WithData(m, leaf, data);
      forall e | e in m' ensures ElemOk(m', root, e) {
        assert ElemOk(m, root, e);
        if NodeOk(m, e, m[e]) {
          forall v: nat | v < POINTERS_PER_NODE ensures BranchOk(m', e, m'[e], v) {
            assert BranchOk(m, e, m[e], v);
          }
          forall k | k in m'[e].keys ensures BranchHas(m', m'[e], k) {
            assert BranchHas(m, m[e], k);
          }
        }
      }
      forall e | e in m' && !m'[e].IsLeaf() ensures Branching(m'[e]) {
        assert Branching(m[e]);
      }
    }

    /** Replaces the data of one entry; unlike addition it takes null. */
    method SetData(leaf: Elem, data: object?)
      requires Valid() && leaf in cells && leaf.IsLeaf()
      modifies this, leaf
      ensures Valid() && leaf.key == old(leaf.key) && leaf.key in old(Contents())
      ensures Contents() == old(Contents())[leaf.key := data] && index == old(index) && root == old(root)
      ensures cells.Keys == old(cells.Keys)
    {
      LeafHolds(leaf, leaf.key);
      assert Matches(leaf, cells[leaf]);
      DataOk(cells, root, index, canonize, leaf, data);
      ghost var m := cells;
      leaf.data := data;
      cells := WithData(m, leaf, data);
      forall e | e in cells ensures Matches(e, cells[e]) {
        if e != leaf { assert old(Matches(e, m[e])); }
      }
      DataContents(m, index, leaf, data);
    }

    static lemma DataContents(m: Cells, index: map<Key, Elem>, leaf: Elem, data: object?)
      requires leaf in m && m[leaf].key in index && index[m[leaf].key] == leaf
      requires forall k :: k in index ==> IsLeafOf(m, index[k], k)
      ensures ContentsOf(WithData(m, leaf, data), index) == ContentsOf(m, index)[m[leaf].key := data]
    {
    }

    // ----- insertion -----

    /** The leaf with the smallest key of a subtree. */
    method FirstLeaf(start: Elem) returns (leaf: Elem)
      requires Valid() && start in cells
      ensures leaf in cells && leaf.IsLeaf() && leaf.key in cells[start].keys
      ensures forall k :: k in cells[start].keys ==> k == leaf.key || KeyLess(leaf.key, k)
    {
      var delem := start;
      assert ElemOk(cells, root, delem) && Matches(delem, cells[delem]);
      while !delem.IsLeaf()
        invariant delem in cells && cells[delem].keys <= cells[start].keys
        invariant forall x, k :: x in cells[delem].keys && k in cells[start].keys - cells[delem].keys ==> KeyLess(x, k)
        invariant ElemOk(cells, root, delem) && Matches(delem, cells[delem])
        decreases cells[delem].keys
      {
        var node := delem;
        var val := 0;
        UsedBranch(node);
        while node.down[val] == null
          invariant 0 <= val < POINTERS_PER_NODE
          invariant forall w :: 0 <= w < val ==> node.down[w] == null
          invariant exists w :: val <= w < POINTERS_PER_NODE && node.down[w] != null
          decreases POINTERS_PER_NODE - val
        {
          val := val + 1;
        }
        delem := node.down[val];
        FirstBranch(cells, root, node, val);
        assert ElemOk(cells, root, delem) && Matches(delem, cells[delem]);
      }
      leaf := delem;
    }

    lemma UsedBranch(e: Elem)
      requires Valid() && e in cells && !e.IsLeaf() && Matches(e, cells[e])
      ensures |e.down| == POINTERS_PER_NODE && exists w :: 0 <= w < POINTERS_PER_NODE && e.down[w] != null
    {
      assert ElemOk(cells, root, e) && Branching(cells[e]);
    }

    /** Descends with ckey as far as there are nodes; path collects them. */
    method Descend(ckey: Key, keylen: nat) returns (prev: Elem?, val: int, delem: Elem?, ghost path: seq<Elem>)
      requires Valid() && keylen == |ckey|
      ensures delem != null ==> delem in cells && delem.IsLeaf()
      ensures delem == null && prev == null ==> root == null
      ensures PathOk(cells, root, path, ckey)
      ensures prev == (if path == [] then null else path[|path| - 1])
      ensures prev == null ==> delem == root
      ensures prev != null ==> prev in cells && delem == BranchOn(cells, prev, ckey)
      ensures prev != null && delem != null ==> delem.key in cells[prev].keys
      ensures val == if prev == null then NO_BRANCH else Nibble(ckey, cells[prev].nibnum)
      ensures ckey in index ==> delem != null && delem.key == ckey
    {
      prev, val, path := null, NO_BRANCH, [];
      delem := root;
      assert PathOk(cells, root, path, ckey);
      hide PathOk;
      while delem != null && !delem.IsLeaf()
        invariant delem != null ==> delem in cells && Matches(delem, cells[delem])
        invariant ckey in index ==> delem != null && ckey in cells[delem].keys
        invariant PathOk(cells, root, path, ckey)
        invariant prev == (if path == [] then null else path[|path| - 1])
        invariant prev == null ==> delem == root
        invariant prev != null ==> prev in cells && delem == BranchOn(cells, prev, ckey)
        invariant val == if prev == null then NO_BRANCH else Nibble(ckey, cells[prev].nibnum)
        invariant prev != null && delem != null ==> cells[delem].parent == prev && cells[delem].keys <= cells[prev].keys
        decreases KeysAt(cells, delem)
      {
        ChildStep(cells, root, delem, ckey);
        assert ElemOk(cells, root, delem);
        PathGrows(cells, root, path, delem, ckey);
        prev := delem;
        path := path + [prev];
        val := if delem.nibnum / 2 < keylen then NibbleVal(ckey, delem.nibnum) else 0;
        assert val == Nibble(ckey, delem.nibnum);
        delem := delem.down[val];
        if delem != null { assert Matches(delem, cells[delem]); }
      }
      if delem != null { LeafHolds(delem, ckey); }
    }

    /** The first nibble at which two different keys differ; no terminator is passed. */
    method FirstDifference(a: Key, b: Key) returns (i: nat)
      requires a != b
      ensures DiffersAt(a, b, i) && i / 2 <= |a| && i / 2 <= |b|
    {
      i := 0;
      ghost var d := FirstDifferenceExists(a, b);
      while NibbleVal(a, i) == NibbleVal(b, i)
        invariant i <= d && Agree(a, b, i) && i / 2 <= |a| && i / 2 <= |b|
        decreases d - i
      {
        i := i + 1;
      }
    }

    /** Climbs from the end of the descent to where nibble i has to be tested. */
    method Climb(prev0: Elem?, val0: int, i: nat, ghost path: seq<Elem>, ghost d: Key, ghost ckey: Key)
      returns (prev: Elem?, val: int)
      requires Valid() && EndOk(cells, root, path, d, ckey) && DiffersAt(ckey, d, i)
      requires prev0 == (if path == [] then null else path[|path| - 1])
      requires val0 == if prev0 == null then NO_BRANCH else Nibble(ckey, cells[prev0].nibnum)
      ensures PlaceOk(cells, root, prev, val, i, d, ckey)
    {
      prev, val := prev0, val0;
      ghost var t := |path|;
      if prev != null { assert Matches(prev, cells[prev]); }
      while prev != null && prev.nibnum > i
        invariant 0 <= t <= |path| && prev == (if t == 0 then null else path[t - 1])
        invariant prev != null ==> d in cells[prev].keys && Matches(prev, cells[prev])
        invariant t == |path| ==> val == val0
        invariant t < |path| ==>
          d in cells[path[t]].keys && i < cells[path[t]].nibnum && val == cells[path[t]].parentVal
        decreases t
      {
        ClimbStep(path, t - 1, d, ckey);
        val := prev.parentVal;
        prev := prev.parent;
        t := t - 1;
        if prev != null { assert Matches(prev, cells[prev]); }
      }
      if t == |path| {
        PlaceAtEnd(cells, root, path, i, d, ckey);
      } else {
        PlaceAbove(cells, root, path, t, i, d, ckey);
      }
    }

    lemma ClimbStep(path: seq<Elem>, t: nat, d: Key, ckey: Key)
      requires Valid() && PathOk(cells, root, path, ckey) && t < |path| && d in cells[path[t]].keys
      ensures cells[path[t]].parent == if t == 0 then null else path[t - 1]
      ensures t > 0 ==> path[t - 1] in cells && d in cells[path[t - 1]].keys
    {
      if t > 0 {
        assert LinkOk(cells, path, t, ckey);
        assert BranchOn(cells, path[t - 1], ckey) == path[t];
        assert ElemOk(cells, root, path[t - 1]);
        assert BranchOk(cells, path[t - 1], cells[path[t - 1]], Nibble(ckey, cells[path[t - 1]].nibnum));
      } else {
        assert ElemOk(cells, root, root);
      }
    }

    /** Puts a node testing nibble i into the edge from prev (or the root pointer) to c. */
    method Splice(prev: Elem?, val: int, i: nat, d: Key, ghost c: Elem, ghost m: Cells) returns (newnode: Elem)
      requires i / 2 <= |d| && prev != c && Synced(m)
      requires if prev == null then c == root else 0 <= val < |prev.down| && prev.down[val] == c
      modifies `root, c, prev
      ensures fresh(newnode) && newnode.nibnum == i && newnode.key == [] && newnode.data == null
      ensures newnode.down == NoBranches()[Nibble(d, i) := c]
      ensures newnode.parent == prev && newnode.parentVal == val
      ensures c.parent == newnode && c.parentVal == Nibble(d, i)
      ensures c.nibnum == old(c.nibnum) && c.down == old(c.down) && c.key == old(c.key) && c.data == old(c.data)
      ensures root == if prev == null then newnode else old(root)
      ensures prev != null ==> prev.down == old(prev.down)[val := newnode] && prev.nibnum == old(prev.nibnum)
      ensures prev != null ==> prev.parent == old(prev.parent) && prev.parentVal == old(prev.parentVal)
      ensures prev != null ==> prev.key == old(prev.key) && prev.data == old(prev.data)
      ensures SyncedBut(m, c, prev)
    {
      newnode := new Elem.Node(i, prev, val);
      if prev == null {
        newnode.down := newnode.down[NibbleVal(d, i) := root];
        root.parent := newnode;
        root.parentVal := NibbleVal(d, i);
        root := newnode;
      } else {
        newnode.down := newnode.down[NibbleVal(d, i) := prev.down[val]];
        prev.down[val].parent := newnode;
        prev.down[val].parentVal := NibbleVal(d, i);
        prev.down := prev.down[val := newnode];
      }
      forall e | e in m && e != c && e != prev ensures Matches(e, m[e]) {
        assert old(Matches(e, m[e]));
      }
    }

    /** Splitting the edge keeps the keys and all data; only newnode has a single branch. */
    method InsertNode(prev: Elem?, val: int, i: nat, d: Key, ghost ckey: Key, ghost c: Elem) returns (newnode: Elem)
      requires Valid() && PlaceOk(cells, root, prev, val, i, d, ckey) && i / 2 <= |d|
      requires prev != null ==> cells[prev].nibnum < i
      requires c == if prev == null then root else cells[prev].down[val]
      modifies this, cells.Keys
      ensures fresh(newnode) && newnode.nibnum == i && Splittable(old(cells), old(root), newnode, i, c, d)
      ensures cells == SplitEdge(old(cells), newnode, i, c, d)
      ensures root == if c == old(root) then newnode else old(root)
      ensures Synced(cells)
      ensures index == old(index) && count == old(count)
    {
      ghost var m, r := cells, root;
      PlaceLocal(prev, val, i, d, ckey, c);
      hide ShapeOk, PlaceOk, SplitEdge, Splittable;
      newnode := Splice(prev, val, i, d, c, m);
      PlaceSplits(m, r, prev, val, i, d, ckey, newnode);
      cells := SplitEdge(m, newnode, i, c, d);
      SpliceSynced(m, r, newnode, i, d, c);
    }

    lemma SpliceSynced(m: Cells, r: Elem?, n: Elem, i: nat, d: Key, c: Elem)
      requires Splittable(m, r, n, i, c, d)
      requires SyncedBut(m, c, m[c].parent)
      requires Matches(n, Cell(i, NoBranches()[Nibble(d, i) := c], m[c].parent, m[c].parentVal, [], null, m[c].keys, d))
      requires Matches(c, m[c].(parent := n, parentVal := Nibble(d, i)))
      requires m[c].parent != null ==>
        Matches(m[c].parent, m[m[c].parent].(down := m[m[c].parent].down[m[c].parentVal := n]))
      ensures Synced(SplitEdge(m, n, i, c, d))
    {
      var m' := SplitEdge(m, n, i, c, d);
      SplitEdgeCells(m, r, n, i, c, d);
      hide SplitEdge;
      forall e | e in m' ensures Matches(e, m'[e]) {
        if e != n && e != c && e != m[c].parent { assert Matches(e, m[e]); }
      }
    }

    lemma PlaceLocal(prev: Elem?, val: int, i: nat, d: Key, ckey: Key, c: Elem)
      requires Valid() && PlaceOk(cells, root, prev, val, i, d, ckey)
      requires prev != null ==> cells[prev].nibnum < i
      requires c == if prev == null then root else cells[prev].down[val]
      ensures c in cells && prev != c && Matches(c, cells[c])
      ensures if prev == null then c == root
              else prev in cells && 0 <= val < |prev.down| && prev.down[val] == c && Matches(prev, cells[prev])
    {
      assert Matches(c, cells[c]) && ElemOk(cells, root, c);
      if prev != null { assert Matches(prev, cells[prev]); }
    }

    /** Key k belongs in the empty branch v of node n, which holds key d. */
    ghost static predicate PutReady(m: Cells, root: Elem?, index: map<Key, Elem>, canonize: Key -> Key, n: Elem, d: Key,
                                    k: Key, v: nat) {
      && ShapeOk(m, root, n) && IndexOk(m, root, index, canonize)
      && n in m && m[n].IsNode() && d in m[n].keys && k !in index && canonize(k) == k
      && v == Nibble(k, m[n].nibnum) && m[n].down[v] == null && Agree(k, m[n].stem, m[n].nibnum)
    }

    static lemma PutOk(m: Cells, root: Elem?, index: map<Key, Elem>, canonize: Key -> Key, n: Elem, d: Key, leaf: Elem,
                       k: Key, data: object?, v: nat)
      requires PutReady(m, root, index, canonize, n, d, k, v) && leaf !in m
      ensures n in m && m[n].IsNode() && v < POINTERS_PER_NODE
      ensures Attachable(m, root, n, d, leaf, k, v) && k !in index
      ensures Attach(m, n, d, leaf, k, data, v).Keys == m.Keys + {leaf}
      ensures ShapeOk(Attach(m, n, d, leaf, k, data, v), root, null)
      ensures IndexOk(Attach(m, n, d, leaf, k, data, v), root, index[k := leaf], canonize)
      ensures |index[k := leaf]| == |index| + 1
    {
      KeysBelowRoot(m, root, n, n, d);
      AttachOk(m, root, n, d, leaf, k, data, v);
    }

    static lemma ContentsAfterPut(m: Cells, root: Elem?, index: map<Key, Elem>, canonize: Key -> Key, n: Elem, d: Key,
                                  leaf: Elem, k: Key, data: object?, v: nat)
      requires IndexOk(m, root, index, canonize) && Attachable(m, root, n, d, leaf, k, v)
      ensures ContentsOf(Attach(m, n, d, leaf, k, data, v), index[k := leaf]) == ContentsOf(m, index)[k := data]
    {
    }

    /** The pointer writes that hang a new leaf into branch val of newnode. */
    method Hang(newnode: Elem, val: nat, ckey: Key, data: object, ghost m: Cells) returns (leaf: Elem)
      requires val < |newnode.down| && Synced(m)
      modifies `count, newnode`down
      ensures fresh(leaf) && leaf.data == data && count == old(count) + 1
      ensures leaf.nibnum == -1 && leaf.down == []
      ensures leaf.parent == newnode && leaf.parentVal == val && leaf.key == ckey
      ensures newnode.down == old(newnode.down)[val := leaf] && SyncedBut(m, newnode, null)
    {
      leaf := new Elem.Leaf(ckey, data, newnode, val);
      newnode.down := newnode.down[val := leaf];
      count := count + 1;
      forall e | e in m && e != newnode ensures Matches(e, m[e]) {
        assert old(Matches(e, m[e]));
      }
    }

    /** Storing ckey in the empty branch of newnode that its nibble selects completes the trie. */
    method PutLeaf(newnode: Elem, ckey: Key, data: object, ghost d: Key) returns (leaf: Elem)
      requires Synced(cells) && count == |index| && CanonizeOk(canonize)
      requires newnode in cells && 0 <= newnode.nibnum && newnode.nibnum / 2 <= |ckey|
      requires PutReady(cells, root, index, canonize, newnode, d, ckey, Nibble(ckey, newnode.nibnum))
      modifies this, newnode
      ensures Valid() && fresh(leaf) && cells.Keys == old(cells.Keys) + {leaf}
      ensures index == old(index)[ckey := leaf] && leaf.data == data && leaf.key == ckey
      ensures Contents() == old(Contents())[ckey := data]
    {
      ghost var m := cells;
      var val := NibbleVal(ckey, newnode.nibnum);
      assert Matches(newnode, m[newnode]) && val < |newnode.down|;
      hide PutReady, ShapeOk, IndexOk, CanonizeOk, Nibble, ContentsOf;
      leaf := Hang(newnode, val, ckey, data, m);
      PutDone(m, newnode, d, leaf, ckey, data, val);
      Adopt(Attach(m, newnode, d, leaf, ckey, data, val), index[ckey := leaf]);
    }

    /** The ghost view follows once the fields are written. */
    ghost method Adopt(m: Cells, ix: map<Key, Elem>)
      requires Synced(m) && ShapeOk(m, root, null) && IndexOk(m, root, ix, canonize)
      requires count == |ix| && CanonizeOk(canonize)
      modifies `cells, `index
      ensures Valid() && cells == m && index == ix
    {
      cells := m;
      index := ix;
    }

    /** What holds of the cells with the leaf. */
    lemma PutDone(m: Cells, n: Elem, d: Key, leaf: Elem, k: Key, data: object?, v: nat)
      requires PutReady(m, root, index, canonize, n, d, k, v) && leaf !in m
      requires n in m && m[n].IsNode() && v < POINTERS_PER_NODE && SyncedBut(m, n, null)
      requires Matches(n, m[n].(down := m[n].down[v := leaf]))
      requires Matches(leaf, Cell(-1, [], n, v, k, data, {k}, k))
      ensures var m', ix := Attach(m, n, d, leaf, k, data, v), index[k := leaf];
              && Synced(m') && m'.Keys == m.Keys + {leaf} && |ix| == |index| + 1
              && ShapeOk(m', root, null) && IndexOk(m', root, ix, canonize)
              && ContentsOf(m', ix) == ContentsOf(m, index)[k := data]
    {
      PutOk(m, root, index, canonize, n, d, leaf, k, data, v);
      hide *;
      assert IndexOk(m, root, index, canonize) by { ReadyIndex(m, root, index, canonize, n, d, k, v); }
      ContentsAfterPut(m, root, index, canonize, n, d, leaf, k, data, v);
      PutSynced(m, root, n, d, leaf, k, data, v);
    }

    static lemma ReadyIndex(m: Cells, root: Elem?, index: map<Key, Elem>, canonize: Key -> Key, n: Elem, d: Key, k: Key,
                            v: nat)
      requires PutReady(m, root, index, canonize, n, d, k, v)
      ensures IndexOk(m, root, index, canonize) && n in m && m[n].IsNode() && v < POINTERS_PER_NODE
    {
    }

    lemma PutSynced(m: Cells, root: Elem?, n: Elem, d: Key, leaf: Elem, k: Key, data: object?, v: nat)
      requires Attachable(m, root, n, d, leaf, k, v)
      requires SyncedBut(m, n, null)
      requires Matches(n, m[n].(down := m[n].down[v := leaf]))
      requires Matches(leaf, Cell(-1, [], n, v, k, data, {k}, k))
      ensures Synced(Attach(m, n, d, leaf, k, data, v))
    {
      var m' := Attach(m, n, d, leaf, k, data, v);
      forall e | e in m' ensures Matches(e, m'[e]) {
        if e != leaf && e != n { assert Matches(e, m[e]); }
      }
    }

    method AddFirst(ckey: Key, data: object, val: int) returns (leaf: Elem)
      requires Valid() && root == null && val == NO_BRANCH && canonize(ckey) == ckey
      modifies this
      ensures Valid() && fresh(leaf) && fresh(cells.Keys - old(cells.Keys))
      ensures index == old(index)[ckey := leaf] && leaf.data == data && leaf.key == ckey
      ensures Contents() == old(Contents())[ckey := data]
    {
      leaf := new Elem.Leaf(ckey, data, null, val);
      root := leaf;
      count := count + 1;
      ghost var m := map[leaf := Cell(-1, [], null, val, ckey, data, {ckey}, ckey)];
      SingleOk(m, leaf, ckey, data, canonize);
      assert index == map[];
      Adopt(m, map[ckey := leaf]);
    }

    static lemma SingleOk(m: Cells, leaf: Elem, k: Key, data: object, canonize: Key -> Key)
      requires m == map[leaf := Cell(-1, [], null, NO_BRANCH, k, data, {k}, k)] && canonize(k) == k
      ensures ShapeOk(m, leaf, null) && IndexOk(m, leaf, map[k := leaf], canonize)
      ensures ContentsOf(m, map[k := leaf]) == map[k := data]
    {
      assert ElemOk(m, leaf, leaf);
    }

    /** Adds ckey next to the stored key of delem, where the descent ended. */
    method AddBeside(ckey: Key, data: object, prev0: Elem?, val0: int, delem: Elem, ghost path: seq<Elem>)
      returns (leaf: Elem, ghost n: Elem)
      requires Valid() && ckey !in index && canonize(ckey) == ckey
      requires delem in cells && delem.IsLeaf() && EndOk(cells, root, path, delem.key, ckey)
      requires prev0 == (if path == [] then null else path[|path| - 1])
      requires val0 == if prev0 == null then NO_BRANCH else Nibble(ckey, cells[prev0].nibnum)
      modifies this, cells.Keys
      ensures Valid() && fresh(leaf)
      ensures cells.Keys == old(cells.Keys) + {n, leaf} && (n in old(cells.Keys) || fresh(n))
      ensures index == old(index)[ckey := leaf] && leaf.data == data && leaf.key == ckey
      ensures Contents() == old(Contents())[ckey := data]
    {
      LeafHolds(delem, ckey);
      ghost var d := delem.key;
      var i := FirstDifference(ckey, delem.key);
      var prev, val := Climb(prev0, val0, i, path, delem.key, ckey);
      var newnode := MakePlace(prev, val, i, delem.key, ckey);
      ghost var k1 := cells.Keys;
      leaf := PutLeaf(newnode, ckey, data, d);
      n := newnode;
      assert cells.Keys == old(cells.Keys) + {n, leaf} by { TwoMore(old(cells.Keys), k1, cells.Keys, n, leaf); }
    }

    static lemma TwoMore(k0: set<Elem>, k1: set<Elem>, k2: set<Elem>, n: Elem, leaf: Elem)
      requires k1 == k0 + {n} && k2 == k1 + {leaf}
      ensures k2 == k0 + {n, leaf}
    {
    }

    /** Finds or makes the node that tests nibble i on the way to ckey. */
    method MakePlace(prev: Elem?, val: int, i: nat, d: Key, ghost ckey: Key) returns (newnode: Elem)
      requires Valid() && ckey !in index && canonize(ckey) == ckey
      requires PlaceOk(cells, root, prev, val, i, d, ckey) && DiffersAt(ckey, d, i) && i / 2 <= |d|
      modifies this, cells.Keys
      ensures Synced(cells) && PutReady(cells, root, index, canonize, newnode, d, ckey, Nibble(ckey, i))
      ensures newnode.nibnum == i && cells.Keys == old(cells.Keys) + {newnode}
      ensures newnode in old(cells.Keys) || fresh(newnode)
      ensures index == old(index) && count == old(count) && Contents() == old(Contents())
    {
      ghost var m, r := cells, root;
      assert prev != null ==> Matches(prev, m[prev]);
      if prev == null || prev.nibnum < i {
        ghost var c := EdgeAt(m, r, prev, val, i, d, ckey);
        newnode := InsertNode(prev, val, i, d, ckey, c);
        ContentsAfterSplit(m, r, index, canonize, newnode, i, c, d);
        ReadyAfterSplit(m, r, index, canonize, newnode, i, c, d, ckey);
      } else {
        newnode := prev;
        ReadyAtNode(m, r, index, canonize, prev, val, i, d, ckey);
      }
    }

    static lemma EdgeAt(m: Cells, root: Elem?, prev: Elem?, val: int, i: nat, d: Key, k: Key) returns (c: Elem)
      requires PlaceOk(m, root, prev, val, i, d, k) && (prev != null ==> m[prev].nibnum < i)
      ensures c == if prev == null then root else m[prev].down[val]
    {
      c := if prev == null then root else m[prev].down[val];
    }

    /** A node already testing nibble i has that branch free. */
    static lemma ReadyAtNode(m: Cells, root: Elem?, index: map<Key, Elem>, canonize: Key -> Key, n: Elem, val: int,
                             i: nat, d: Key, k: Key)
      requires ShapeOk(m, root, null) && IndexOk(m, root, index, canonize) && k !in index && canonize(k) == k
      requires PlaceOk(m, root, n, val, i, d, k) && DiffersAt(k, d, i) && i <= m[n].nibnum
      ensures PutReady(m, root, index, canonize, n, d, k, Nibble(k, i))
    {
      assert ElemOk(m, root, n);
      assert Agree(d, m[n].stem, i);
    }

    static lemma ContentsAfterSplit(m: Cells, root: Elem?, index: map<Key, Elem>, canonize: Key -> Key, n: Elem, i: nat,
                                    c: Elem, d: Key)
      requires IndexOk(m, root, index, canonize) && Splittable(m, root, n, i, c, d)
      ensures ContentsOf(SplitEdge(m, n, i, c, d), index) == ContentsOf(m, index)
    {
      SplitEdgeCells(m, root, n, i, c, d);
    }

    /** So has a node just inserted to test nibble i. */
    static lemma ReadyAfterSplit(m: Cells, root: Elem?, index: map<Key, Elem>, canonize: Key -> Key, n: Elem, i: nat,
                                 c: Elem, d: Key, k: Key)
      requires ShapeOk(m, root, null) && IndexOk(m, root, index, canonize) && k !in index && canonize(k) == k
      requires Splittable(m, root, n, i, c, d) && DiffersAt(k, d, i)
      ensures PutReady(SplitEdge(m, n, i, c, d), if c == root then n else root, index, canonize, n, d, k, Nibble(k, i))
    {
      SplitEdgeOk(m, root, n, i, c, d);
      SplitEdgeCells(m, root, n, i, c, d);
      hide SplitEdge, Splittable, ElemOk;
    }

    /** Where a new key goes: the end of its descent and a leaf to compare it with. */
    method Locate(ckey: Key, keylen: nat)
      returns (prev: Elem?, val: int, delem: Elem?, duplicate: bool, ghost path: seq<Elem>)
      requires Valid() && keylen == |ckey|
      ensures duplicate <==> ckey in index
      ensures prev == (if path == [] then null else path[|path| - 1])
      ensures prev != null ==> prev in cells && 0 <= cells[prev].nibnum
      ensures val == if prev == null then NO_BRANCH else Nibble(ckey, cells[prev].nibnum)
      ensures delem == null ==> root == null && prev == null
      ensures delem != null && !duplicate ==>
        delem in cells && delem.IsLeaf() && EndOk(cells, root, path, delem.key, ckey)
    {
      prev, val, delem, path := Descend(ckey, keylen);
      duplicate := false;
      if delem != null {
        LeafHolds(delem, ckey);
        StrcmpIsKeyLess(delem.key, ckey);
        duplicate := Strcmp(delem.key, ckey) == 0;
      }
      if delem == null && prev != null {
        delem := FirstLeaf(prev);
        LeafHolds(delem, ckey);
      }
      if delem != null { EndReached(prev, delem, path, ckey); }
    }

    /** The descent and the leaf chosen to compare with are a proper end of the path. */
    lemma EndReached(prev: Elem?, delem: Elem, path: seq<Elem>, ckey: Key)
      requires Valid() && PathOk(cells, root, path, ckey)
      requires prev == (if path == [] then null else path[|path| - 1])
      requires delem in cells && delem.IsLeaf() && cells[delem].keys == {delem.key}
      requires if prev == null then delem == root
               else
                 && delem.key in cells[prev].keys
                 && (BranchOn(cells, prev, ckey) == null || BranchOn(cells, prev, ckey) == delem)
      ensures EndOk(cells, root, path, delem.key, ckey)
    {
      assert Matches(delem, cells[delem]);
    }

    /** Adding stores a new key exactly once and leaves all others alone; a duplicate changes nothing. */
    method ElemAdd(key: Key, data: object?) returns (leaf: Elem?)
      requires Valid()
      modifies this, cells.Keys
      ensures Valid() && fresh(cells.Keys - old(cells.Keys))
      ensures leaf == null <==> data == null || canonize(key) in old(Contents())
      ensures leaf == null ==> Contents() == old(Contents()) && index == old(index)
      ensures leaf != null ==> Contents() == old(Contents())[canonize(key) := data]
      ensures leaf != null ==> leaf.key == canonize(key) && index == old(index)[canonize(key) := leaf]
    {
      if data == null { return null; }
      var keylen := |key|;
      var ckey := canonize(key);
      assert Canonizes(canonize, key);
      var prev, val, delem, duplicate, path := Locate(ckey, keylen);
      if duplicate { return null; }
      if delem == null {
        leaf := AddFirst(ckey, data, val);
      } else {
        ghost var n;
        leaf, n := AddBeside(ckey, data, prev, val, delem, path);
      }
    }

    method Add(key: Key, data: object?) returns (added: bool)
      requires Valid()
      modifies this, cells.Keys
      ensures Valid() && fresh(cells.Keys - old(cells.Keys))
      ensures added <==> data != null && canonize(key) !in old(Contents())
      ensures Contents() == if added then old(Contents())[canonize(key) := data] else old(Contents())
    {
      var leaf := ElemAdd(key, data);
      added := leaf != null;
    }

    // ----- removal -----

    /** Which branch of a node is the only one in use: none (-1), several (-2), or its number. */
    method SoleBranch(delem: Elem) returns (used: int)
      requires |delem.down| == POINTERS_PER_NODE
      ensures used == -1 ==> forall v :: 0 <= v < POINTERS_PER_NODE ==> delem.down[v] == null
      ensures used >= 0 ==> used < POINTERS_PER_NODE && delem.down[used] != null
      ensures used >= 0 ==> forall v :: 0 <= v < POINTERS_PER_NODE && v != used ==> delem.down[v] == null
      ensures used < -1 ==>
        exists v, w :: 0 <= v < w < POINTERS_PER_NODE && delem.down[v] != null && delem.down[w] != null
    {
      used := -1;
      ghost var first := 0;
      for i := 0 to POINTERS_PER_NODE
        invariant -2 <= used < i
        invariant used == -1 ==> forall v :: 0 <= v < i ==> delem.down[v] == null
        invariant used >= 0 ==>
          delem.down[used] != null && forall v :: 0 <= v < i && v != used ==> delem.down[v] == null
        invariant used == -2 ==> exists v, w :: 0 <= v < w < i && delem.down[v] != null && delem.down[w] != null
      {
        if delem.down[i] != null {
          if used == -1 { used := i; } else { used := -2; }
        }
      }
    }

    /** Unhooks leaf from branch val of prev. */
    method Unhook(prev: Elem, val: nat, leaf: Elem, ghost m: Cells)
      requires val < |prev.down| && Synced(m) && leaf in m && prev in m && leaf != prev
      requires leaf.parent == prev && leaf.parentVal == val
      modifies prev`down
      ensures prev.down == old(prev.down)[val := null]
      ensures Attached(m, leaf) && Synced(Detach(m, leaf))
    {
      assert Matches(leaf, m[leaf]) && Matches(prev, m[prev]);
      prev.down := prev.down[val := null];
      ghost var m' := Detach(m, leaf);
      forall e | e in m' ensures Matches(e, m'[e]) {
        assert old(Matches(e, m[e]));
      }
    }

    /** Puts next in the place of its parent delem. */
    method Lift(delem: Elem, next: Elem, ghost m: Cells, ghost used: nat)
      requires Synced(m) && Collapsible(m, root, delem, next, used)
      modifies `root, m.Keys
      ensures Synced(Collapse(m, delem, next)) && root == if delem == old(root) then next else old(root)
    {
      LiftLocal(delem, next, m, used);
      var val := delem.parentVal;
      var prev := delem.parent;
      if prev != null {
        prev.down := prev.down[val := next];
      } else {
        root := next;
      }
      next.parent := prev;
      next.parentVal := val;
      ghost var m' := Collapse(m, delem, next);
      forall e | e in m' ensures Matches(e, m'[e]) {
        assert old(Matches(e, m[e]));
      }
    }

    lemma LiftLocal(delem: Elem, next: Elem, m: Cells, used: nat)
      requires Synced(m) && Collapsible(m, root, delem, next, used)
      ensures delem != next && delem.parent == m[delem].parent && delem.parentVal == m[delem].parentVal
      ensures (delem.parent == null <==> delem == root) && delem.parent != next && delem.parent != delem
      ensures delem.parent != null ==> delem.parent in m && 0 <= delem.parentVal < |delem.parent.down|
    {
      assert Matches(delem, m[delem]) && ElemOk(m, root, delem);
      OnlyChildKeys(m, root, delem, next, used);
      if delem.parent != null { assert Matches(delem.parent, m[delem.parent]); }
    }

    /** What removing a leaf does to the shape, before its parent is looked at again. */
    static lemma Detached(m: Cells, root: Elem?, index: map<Key, Elem>, canonize: Key -> Key, leaf: Elem, prev: Elem)
      requires ShapeOk(m, root, null) && IndexOk(m, root, index, canonize)
      requires leaf in m && m[leaf].IsLeaf() && m[leaf].parent == prev && Attached(m, leaf)
      ensures leaf != root && prev in m && prev != leaf && prev in Detach(m, leaf)
      ensures ShapeOk(Detach(m, leaf), root, prev) && Detach(m, leaf)[prev].IsNode()
      ensures exists v :: 0 <= v < POINTERS_PER_NODE && Detach(m, leaf)[prev].down[v] != null
    {
      assert ElemOk(m, root, leaf);
      DetachOk(m, root, leaf);
      var m' := Detach(m, leaf);
      assert ElemOk(m', root, prev) && ElemOk(m, root, prev);
      var k :| k in m'[prev].keys;
      assert BranchHas(m', m'[prev], k);
    }

    static lemma IndexDetached(m: Cells, root: Elem?, index: map<Key, Elem>, canonize: Key -> Key, leaf: Elem)
      requires ShapeOk(m, root, null) && IndexOk(m, root, index, canonize)
      requires leaf in m && m[leaf].IsLeaf() && leaf != root && Attached(m, leaf)
      ensures IndexOk(Detach(m, leaf), root, index - {m[leaf].key}, canonize)
      ensures ContentsOf(Detach(m, leaf), index - {m[leaf].key}) == ContentsOf(m, index) - {m[leaf].key}
    {
      DetachOk(m, root, leaf);
      var k, m' := m[leaf].key, Detach(m, leaf);
      forall k' | k' in index && k' != k ensures IsLeafOf(m', index[k'], k') {
        assert IsLeafOf(m, index[k'], k');
      }
    }

    static lemma IndexCollapsed(m: Cells, root: Elem?, index: map<Key, Elem>, canonize: Key -> Key, d: Elem, next: Elem,
                                used: nat)
      requires Collapsible(m, root, d, next, used) && IndexOk(m, root, index, canonize)
      ensures IndexOk(Collapse(m, d, next), if d == root then next else root, index, canonize)
      ensures ContentsOf(Collapse(m, d, next), index) == ContentsOf(m, index)
    {
      CollapseOk(m, root, d, next, used);
      var m' := Collapse(m, d, next);
      forall k | k in index ensures IsLeafOf(m', index[k], k) {
        assert IsLeafOf(m, index[k], k);
      }
    }

    /** Unhooks a leaf from its parent and removes the parent if one branch is left. */
    method RemoveBelow(leaf: Elem, prev: Elem, val: nat) returns (ghost m: Cells)
      requires Valid() && leaf in cells && cells[leaf].IsLeaf()
      requires cells[leaf].parent == prev && cells[leaf].parentVal == val && Attached(cells, leaf)
      modifies `root, cells.Keys
      ensures Synced(m) && ShapeOk(m, root, null) && IndexOk(m, root, index - {cells[leaf].key}, canonize)
      ensures m.Keys <= cells.Keys
      ensures ContentsOf(m, index - {cells[leaf].key}) == ContentsOf(cells, index) - {cells[leaf].key}
    {
      ghost var k, m0 := cells[leaf].key, cells;
      assert Matches(leaf, m0[leaf]) && Matches(prev, m0[prev]);
      Detached(m0, root, index, canonize, leaf, prev);
      IndexDetached(m0, root, index, canonize, leaf);
      Unhook(prev, val, leaf, m0);
      m := Detach(m0, leaf);
      assert Matches(prev, m[prev]);
      var used := SoleBranch(prev);
      if used >= 0 {
        var next := prev.down[used];
        Collapses(m, root, prev, next, used);
        CollapseOk(m, root, prev, next, used);
        IndexCollapsed(m, root, index - {k}, canonize, prev, next, used);
        Lift(prev, next, m, used);
        m := Collapse(m, prev, next);
      } else {
        assert Branching(m[prev]);
      }
    }

    static lemma Collapses(m: Cells, root: Elem?, d: Elem, next: Elem, used: nat)
      requires ShapeOk(m, root, d) && d in m && m[d].IsNode() && used < POINTERS_PER_NODE && m[d].down[used] == next
      requires forall v :: 0 <= v < POINTERS_PER_NODE && v != used ==> m[d].down[v] == null
      ensures Collapsible(m, root, d, next, used)
    {
      assert ElemOk(m, root, d);
      assert BranchOk(m, d, m[d], used);
    }

    /** Deleting removes exactly the leaf's key; a node left with one branch goes too. */
    method ElemDelete(leaf: Elem)
      requires Valid() && leaf in cells && leaf.IsLeaf()
      modifies this, cells.Keys
      ensures Valid() && cells.Keys <= old(cells.Keys)
      ensures index == old(index) - {old(leaf.key)}
      ensures Contents() == old(Contents()) - {old(leaf.key)}
    {
      LeafPlace(leaf);
      ghost var k := leaf.key;
      ghost var m;
      var val := leaf.parentVal;
      var prev := leaf.parent;
      if prev != null {
        m := RemoveBelow(leaf, prev, val);
      } else {
        m := RemoveOnly(leaf);
      }
      DropCount(m, k);
    }

    /** The count goes down; a count of zero finds the root gone already. */
    method DropCount(ghost m: Cells, ghost k: Key)
      requires Synced(m) && ShapeOk(m, root, null) && IndexOk(m, root, index - {k}, canonize)
      requires count == |index| && CanonizeOk(canonize) && k in index
      modifies `count, `root, `cells, `index
      ensures Valid() && cells == m && index == old(index) - {k}
    {
      CountAfter(m, root, index, k);
      count := count - 1;
      if count == 0 {
        assert root == null;
        root := null;
      }
      Adopt(m, index - {k});
    }

    /** The last leaf goes and takes the root with it. */
    method RemoveOnly(leaf: Elem) returns (ghost m: Cells)
      requires Valid() && leaf == root && index.Keys == {cells[leaf].key}
      modifies `root
      ensures Synced(m) && ShapeOk(m, root, null) && IndexOk(m, root, index - {cells[leaf].key}, canonize)
      ensures m.Keys <= cells.Keys
      ensures ContentsOf(m, index - {cells[leaf].key}) == ContentsOf(cells, index) - {cells[leaf].key}
    {
      root := null;
      m := map[];
    }

    /** The count goes down by one, and reaches zero just when the root is gone. */
    static lemma CountAfter(m: Cells, root: Elem?, index: map<Key, Elem>, k: Key)
      requires ShapeOk(m, root, null) && (root != null ==> root in m)
      requires (index - {k}).Keys == KeysAt(m, root) && k in index
      ensures |index| > 0 && |index - {k}| == |index| - 1
      ensures |index - {k}| == 0 ==> root == null
    {
      assert (index - {k})[k := index[k]] == index;
      if root != null { assert ElemOk(m, root, root); }
    }

    lemma LeafPlace(leaf: Elem)
      requires Valid() && leaf in cells && leaf.IsLeaf()
      ensures leaf.parent == cells[leaf].parent
      ensures leaf.parentVal == cells[leaf].parentVal && leaf.key == cells[leaf].key
      ensures cells[leaf].IsLeaf() && Attached(cells, leaf)
      ensures leaf.key in index && (leaf.parent == null ==> leaf == root && index.Keys == {leaf.key})
      ensures leaf.parent != null ==> 0 <= leaf.parentVal
    {
      assert Matches(leaf, cells[leaf]) && ElemOk(cells, root, leaf);
      LeafHolds(leaf, leaf.key);
    }

    method Delete(key: Key) returns (data: object?)
      requires Valid()
      modifies this, cells.Keys
      ensures Valid() && cells.Keys <= old(cells.Keys)
      ensures data == if canonize(key) in old(Contents()) then old(Contents())[canonize(key)] else null
      ensures Contents() == old(Contents()) - {canonize(key)} && index == old(index) - {canonize(key)}
    {
      var leaf := ElemFind(key);
      if leaf == null { return null; }
      assert Matches(leaf, cells[leaf]);
      data := leaf.data;
      ElemDelete(leaf);
    }

    method Size() returns (n: nat)
      requires Valid()
      ensures n == |Contents()|
    {
      n := count;
      assert Contents().Keys == index.Keys;
      assert |Contents()| == |Contents().Keys| && |index| == |index.Keys|;
    }

    // ----- ordered iteration -----

    /** The next used branch of a node from val0 on; val is one past it. */
    method Scan(delem: Elem, val0: nat) returns (next: Elem?, val: nat)
      requires Valid() && delem in cells && cells[delem].IsNode() && val0 < POINTERS_PER_NODE
      ensures val0 < val <= POINTERS_PER_NODE && next == cells[delem].down[val - 1]
      ensures next == null ==> val == POINTERS_PER_NODE
      ensures AheadSet(cells, root, delem, val0) == AheadSet(cells, root, delem, val - 1)
    {
      assert Matches(delem, cells[delem]);
      val := val0;
      next := delem.down[val];
      val := val + 1;
      while next == null && val < POINTERS_PER_NODE
        invariant val0 < val <= POINTERS_PER_NODE && next == cells[delem].down[val - 1]
        invariant forall u :: val0 <= u < val - 1 ==> cells[delem].down[u] == null
      {
        next := delem.down[val];
        val := val + 1;
      }
      AheadOfGap(cells, root, delem, val0, val - 1);
    }

    /** Leaves finished nodes behind: up to a node with branches left, or out of the trie. */
    method ClimbOut(delem0: Elem, val0: nat) returns (delem: Elem?, val: int)
      requires Valid() && delem0 in cells && cells[delem0].IsNode() && val0 <= POINTERS_PER_NODE
      ensures delem != null ==> delem in cells && cells[delem].IsNode() && 0 <= val < POINTERS_PER_NODE
      ensures AheadSet(cells, root, delem, val) == AheadSet(cells, root, delem0, val0)
      ensures val0 < POINTERS_PER_NODE ==> delem == delem0 && val == val0
      ensures val0 == POINTERS_PER_NODE && delem != null ==> cells[delem0].keys < cells[delem].keys
    {
      delem, val := delem0, val0;
      assert Matches(delem, cells[delem]);
      while val >= POINTERS_PER_NODE
        invariant delem != null && delem in cells && cells[delem].IsNode() && 0 <= val <= POINTERS_PER_NODE
        invariant Matches(delem, cells[delem])
        invariant AheadSet(cells, root, delem, val) == AheadSet(cells, root, delem0, val0)
        invariant (delem == delem0 && val == val0)
                  || (val0 == POINTERS_PER_NODE && cells[delem0].keys < cells[delem].keys)
        decreases cells[delem].nibnum
      {
        StepOut(delem);
        val := delem.parentVal;
        delem := delem.parent;
        if delem == null { break; }
        assert Matches(delem, cells[delem]);
        val := val + 1;
      }
    }

    lemma StepOut(e: Elem)
      requires Valid() && e in cells && cells[e].IsNode()
      ensures cells[e].parent == null ==> AheadSet(cells, root, e, POINTERS_PER_NODE) == {}
      ensures cells[e].parent != null ==>
        var p := cells[e].parent;
        && p in cells && cells[p].IsNode() && 0 <= cells[e].parentVal < POINTERS_PER_NODE
        && cells[p].nibnum < cells[e].nibnum && cells[e].keys < cells[p].keys
        && AheadSet(cells, root, p, cells[e].parentVal + 1) == AheadSet(cells, root, e, POINTERS_PER_NODE)
    {
      assert ElemOk(cells, root, e);
      if cells[e].parent == null {
        AheadOfTop(cells, root);
      } else {
        var k :| k in cells[e].keys;
        Upward(cells, root, null, e, k);
        ChildStep(cells, root, cells[e].parent, k);
        AheadThroughEdge(cells, root, cells[e].parent, cells[e].parentVal);
      }
    }

    /** Everything is ahead of the first branch of the root. */
    lemma AllAhead()
      requires Valid() && root != null && cells[root].IsNode()
      ensures AheadSet(cells, root, root, 0) == Contents().Keys
    {
    }

    /** A branch just scanned leads on: past a leaf, or into a node. */
    lemma Advance(delem: Elem, val: nat, next: Elem)
      requires Valid() && delem in cells && cells[delem].IsNode()
      requires val < POINTERS_PER_NODE && next == cells[delem].down[val]
      ensures next in cells && Matches(next, cells[next]) && cells[next].keys < cells[delem].keys
      ensures next.IsLeaf() ==>
        && next.key in Contents() && Contents()[next.key] == next.data && index[next.key] == next
        && AheadSet(cells, root, delem, val) == AheadSet(cells, root, delem, val + 1) + {next.key}
        && next.key !in AheadSet(cells, root, delem, val + 1)
        && (forall k :: k in AheadSet(cells, root, delem, val + 1) ==> KeyLess(next.key, k))
      ensures !next.IsLeaf() ==>
        && cells[next].IsNode() && AheadSet(cells, root, next, 0) == AheadSet(cells, root, delem, val)
        && cells[next].keys <= AheadSet(cells, root, next, 0)
    {
      assert ElemOk(cells, root, delem) && BranchOk(cells, delem, cells[delem], val);
      assert ElemOk(cells, root, next) && Matches(next, cells[next]);
      var k :| k in cells[next].keys;
      ChildStep(cells, root, delem, k);
      if next.IsLeaf() {
        LeafHolds(next, next.key);
        AheadOfLeaf(cells, root, delem, val);
      } else {
        AheadThroughEdge(cells, root, delem, val);
        forall k | k in cells[next].keys ensures k in AheadSet(cells, root, next, 0) {
          KeysBelowRoot(cells, root, null, next, k);
        }
      }
    }

    /**
      Calls back once per entry, in increasing strcmp order of the keys, and
      ignores what the callback returns. That is what stopping at a nonzero
      result comes to exactly if no entry but the greatest has one.
     */
    method Foreach(cb: (Key, object?) -> int) returns (visited: seq<(Key, object?)>)
      requires Valid()
      ensures Enumerates(visited, Contents())
      ensures visited == Documented(visited, cb) <==> OnlyLastStops(Contents(), cb)
    {
      visited := VisitAll(cb);
      DocumentedIff(visited, Contents(), cb);
    }

    method VisitAll(cb: (Key, object?) -> int) returns (visited: seq<(Key, object?)>)
      requires Valid()
      ensures Enumerates(visited, Contents())
    {
      visited := [];
      var delem := root;
      if delem == null {
        WalkDone(visited, Contents());
        return;
      }
      assert Matches(delem, cells[delem]) && ElemOk(cells, root, delem);
      if delem.IsLeaf() {
        LeafHolds(delem, delem.key);
        WalkOne(visited, Contents(), {delem.key}, {}, delem.key);
        var ignored := cb(delem.key, delem.data);
        visited := [(delem.key, delem.data)];
        WalkDone(visited, Contents());
        return;
      }
      AllAhead();
      visited := Walk(delem, cb);
      WalkDone(visited, Contents());
    }

    /** Progress of a walk that met no leaf: up while nothing below is ahead, else down. */
    ghost predicate Closer(rest: set<Key>, e: Elem, e': Elem?)
      reads this
      requires e in cells && (e' != null ==> e' in cells)
    {
      || e' == null
      || (rest !! cells[e].keys && cells[e].keys < cells[e'].keys)
      || (!(rest !! cells[e].keys) && !(rest !! cells[e'].keys) && cells[e'].keys < cells[e].keys)
    }

    /** One round of the walk: to the next used branch, into it or past it, and out of finished nodes. */
    method Step(delem0: Elem, val0: nat) returns (leaf: Elem?, delem: Elem?, val: int)
      requires Valid() && delem0 in cells && cells[delem0].IsNode() && val0 < POINTERS_PER_NODE
      ensures delem != null ==> delem in cells && cells[delem].IsNode() && 0 <= val < POINTERS_PER_NODE
      ensures leaf == null ==>
        && AheadSet(cells, root, delem, val) == AheadSet(cells, root, delem0, val0)
        && Closer(AheadSet(cells, root, delem0, val0), delem0, delem)
      ensures leaf != null ==>
        && leaf in cells && leaf.IsLeaf()
        && leaf.key in Contents() && Contents()[leaf.key] == leaf.data && index[leaf.key] == leaf
        && AheadSet(cells, root, delem0, val0) == AheadSet(cells, root, delem, val) + {leaf.key}
        && leaf.key !in AheadSet(cells, root, delem, val)
        && (forall k :: k in AheadSet(cells, root, delem, val) ==> KeyLess(leaf.key, k))
    {
      var next;
      leaf, delem := null, delem0;
      next, val := Scan(delem, val0);
      if next != null {
        Advance(delem, val - 1, next);
        if next.IsLeaf() {
          leaf := next;
        } else {
          NodeAhead(delem, val0, next);
          delem := next;
          val := 0;
        }
      } else {
        NothingBelow(delem, val0);
      }
      delem, val := ClimbOut(delem, val);
    }

    lemma NothingBelow(e: Elem, v: nat)
      requires Valid() && e in cells && cells[e].IsNode() && cells[e].down[POINTERS_PER_NODE - 1] == null
      requires AheadSet(cells, root, e, v) == AheadSet(cells, root, e, POINTERS_PER_NODE - 1)
      ensures AheadSet(cells, root, e, v) == AheadSet(cells, root, e, POINTERS_PER_NODE)
      ensures AheadSet(cells, root, e, v) !! cells[e].keys
    {
      AheadOfGap(cells, root, e, POINTERS_PER_NODE - 1, POINTERS_PER_NODE);
    }

    lemma NodeAhead(e: Elem, v: nat, next: Elem)
      requires Valid() && e in cells && cells[e].IsNode() && next in cells
      requires cells[next].keys < cells[e].keys && cells[next].keys <= AheadSet(cells, root, e, v)
      ensures Closer(AheadSet(cells, root, e, v), e, next)
    {
      assert ElemOk(cells, root, next);
      var k :| k in cells[next].keys;
    }

    method Walk(start: Elem, cb: (Key, object?) -> int) returns (visited: seq<(Key, object?)>)
      requires Valid() && start == root && cells[start].IsNode()
      requires AheadSet(cells, root, start, 0) == Contents().Keys
      ensures Walked(visited, Contents(), {})
    {
      visited := [];
      var delem: Elem?, val := start, 0;
      ghost var rest := Contents().Keys;
      while delem != null
        invariant delem != null ==> delem in cells && cells[delem].IsNode() && 0 <= val < POINTERS_PER_NODE
        invariant rest == AheadSet(cells, root, delem, val)
        invariant Walked(visited, Contents(), rest)
        decreases delem != null, rest, rest !! KeysAt(cells, delem),
          if rest !! KeysAt(cells, delem) then Contents().Keys - KeysAt(cells, delem) else KeysAt(cells, delem)
      {
        var leaf;
        ghost var e := delem;
        leaf, delem, val := Step(delem, val);
        if leaf != null {
          WalkOne(visited, Contents(), rest, AheadSet(cells, root, delem, val), leaf.key);
          var ignored := cb(leaf.key, leaf.data);
          visited := visited + [(leaf.key, leaf.data)];
        } else {
          Shrinks(rest, e, delem);
        }
        rest := AheadSet(cells, root, delem, val);
      }
    }

    /** Going up shrinks what lies outside the node. */
    lemma Shrinks(rest: set<Key>, e: Elem, e': Elem?)
      requires Valid() && e in cells && (e' != null ==> e' in cells) && Closer(rest, e, e')
      ensures e' != null && rest !! cells[e'].keys ==>
        rest !! cells[e].keys && Contents().Keys - cells[e'].keys < Contents().Keys - cells[e].keys
      ensures e' != null && !(rest !! cells[e'].keys) && !(rest !! cells[e].keys) ==> cells[e'].keys < cells[e].keys
    {
      if e' != null && rest !! cells[e'].keys {
        var k :| k in cells[e'].keys && k !in cells[e].keys;
        KeysBelowRoot(cells, root, null, e', k);
        assert k in Contents().Keys - cells[e].keys;
      }
    }

    /** A node is branching, so there are at least two entries. */
    lemma TwoEntries()
      requires Valid() && root != null && cells[root].IsNode()
      ensures |Contents()| > 1
    {
      var x, y := TwoKeysBelow(cells, root);
      var rest := Contents().Keys - {x};
      assert Contents().Keys == index.Keys == rest + {x} && y in rest;
    }

    static lemma TwoKeysBelow(m: Cells, root: Elem?) returns (x: Key, y: Key)
      requires ShapeOk(m, root, null) && root != null && m[root].IsNode()
      ensures x != y && x in m[root].keys && y in m[root].keys
    {
      assert ElemOk(m, root, root) && Branching(m[root]);
      var v, w :| 0 <= v < w < POINTERS_PER_NODE && m[root].down[v] != null && m[root].down[w] != null;
      assert BranchOk(m, root, m[root], v) && BranchOk(m, root, m[root], w);
      assert ElemOk(m, root, m[root].down[v]) && ElemOk(m, root, m[root].down[w]);
      x :| x in m[m[root].down[v]].keys;
      y :| y in m[m[root].down[w]].keys;
    }

    /**
      Returns the first result of the callback that is not null. If there is
      none, only a trie with at most one entry returns at all: the loop goes on
      past the root.
     */
    method Search(cb: (Key, object?) -> object?) returns (r: Search)
      requires Valid()
      ensures forall k :: FoundFirst(Contents(), cb, k) ==> r == Returned(cb(k, Contents()[k]))
      ensures (forall k :: k in Contents() ==> cb(k, Contents()[k]) == null) ==>
        r == if |Contents()| <= 1 then Returned(null) else NullDereferenced
    {
      var delem := root;
      if delem == null {
        assert Contents().Keys == {};
        return Returned(null);
      }
      assert Matches(delem, cells[delem]) && ElemOk(cells, root, delem);
      if delem.IsLeaf() {
        LeafHolds(delem, delem.key);
        assert Contents().Keys == {delem.key};
        assert |Contents()| == |Contents().Keys|;
        return Returned(cb(delem.key, delem.data));
      }
      AllAhead();
      TwoEntries();
      r := SearchBelow(delem, cb);
    }

    method SearchBelow(start: Elem, cb: (Key, object?) -> object?) returns (r: Search)
      requires Valid() && start == root && cells[start].IsNode()
      requires AheadSet(cells, root, start, 0) == Contents().Keys
      ensures forall k :: FoundFirst(Contents(), cb, k) ==> r == Returned(cb(k, Contents()[k]))
      ensures (forall k :: k in Contents() ==> cb(k, Contents()[k]) == null) ==> r == NullDereferenced
    {
      var delem: Elem?, val := start, 0;
      ghost var rest := Contents().Keys;
      while delem != null
        invariant delem != null ==> delem in cells && cells[delem].IsNode() && 0 <= val < POINTERS_PER_NODE
        invariant rest == AheadSet(cells, root, delem, val)
        invariant forall k :: k in Contents() && k !in rest ==> cb(k, Contents()[k]) == null
        decreases delem != null, rest, rest !! KeysAt(cells, delem),
          if rest !! KeysAt(cells, delem) then Contents().Keys - KeysAt(cells, delem) else KeysAt(cells, delem)
      {
        var leaf;
        ghost var e := delem;
        leaf, delem, val := Step(delem, val);
        if leaf != null {
          var ret := cb(leaf.key, leaf.data);
          if ret != null {
            FirstIs(rest, AheadSet(cells, root, delem, val), cb, leaf.key);
            return Returned(ret);
          }
        } else {
          Shrinks(rest, e, delem);
        }
        rest := AheadSet(cells, root, delem, val);
      }
      r := NullDereferenced;
    }

    /** With nothing found before rest, a find at its least key is the first one. */
    lemma FirstIs(rest: set<Key>, rest': set<Key>, cb: (Key, object?) -> object?, l: Key)
      requires l in Contents() && cb(l, Contents()[l]) != null && rest == rest' + {l}
      requires forall k :: k in Contents() && k !in rest ==> cb(k, Contents()[k]) == null
      requires forall k :: k in rest' ==> KeyLess(l, k)
      ensures forall k :: FoundFirst(Contents(), cb, k) ==> k == l
    {
      forall k | FoundFirst(Contents(), cb, k) ensures k == l {
        KeyLessTotal(k, l);
      }
    }

    /** e is the leaf of the least key of a set, or null if the set is empty. */
    ghost predicate LeastOf(keys: set<Key>, e: Elem?)
      reads this, cells.Keys
    {
      if e == null then keys == {}
      else
        && e in cells && e.IsLeaf() && e.key in index && index[e.key] == e
        && e.key in keys && forall k :: k in keys ==> k == e.key || KeyLess(e.key, k)
    }

    /** The stored keys after k. */
    ghost function Above(k: Key): (s: set<Key>)
      reads this
      ensures s <= index.Keys
    {
      set x | x in index.Keys && KeyLess(k, x)
    }

    /** What is ahead right after a leaf is what comes after its key. */
    lemma AboveLeaf(leaf: Elem)
      requires Valid() && leaf in cells && leaf.IsLeaf()
      ensures leaf.parent == cells[leaf].parent && leaf.parentVal == cells[leaf].parentVal
      ensures leaf.parent == null ==> Above(leaf.key) == {}
      ensures leaf.parent != null ==>
        && leaf.parent in cells && cells[leaf.parent].IsNode() && 0 <= leaf.parentVal < POINTERS_PER_NODE
        && AheadSet(cells, root, leaf.parent, leaf.parentVal) == Above(leaf.key) + {leaf.key}
        && leaf.key !in Above(leaf.key)
    {
      LeafPlace(leaf);
      KeyLessTotal(leaf.key, leaf.key);
      var p, v := leaf.parent, leaf.parentVal;
      if p != null {
        LeafHolds(leaf, leaf.key);
        assert ElemOk(cells, root, leaf);
        Upward(cells, root, null, leaf, leaf.key);
        forall k | k in index.Keys ensures Ahead(cells, p, v, k) <==> k == leaf.key || KeyLess(leaf.key, k) {
          AroundChild(cells, root, p, v, k);
        }
      }
    }

    /** A leaf met on the way is the original one, or the one looked for: it never goes backwards. */
    lemma Found(leaf: Elem, next: Elem, rest: set<Key>, rest': set<Key>)
      requires Valid() && leaf in cells && leaf.IsLeaf() && next in cells && next.IsLeaf()
      requires rest == Above(leaf.key) || rest == Above(leaf.key) + {leaf.key}
      requires rest == rest' + {next.key} && next.key !in rest' && forall k :: k in rest' ==> KeyLess(next.key, k)
      ensures next == leaf ==> rest' == Above(leaf.key)
      ensures next != leaf ==> LeastOf(Above(leaf.key), next) && Strcmp(next.key, leaf.key) > 0
    {
      LeafHolds(leaf, leaf.key);
      LeafHolds(next, next.key);
      KeyLessTotal(leaf.key, next.key);
      StrcmpIsKeyLess(next.key, leaf.key);
    }

    /** Finds the leaf after a given one by walking on from it. */
    method Successor(leaf: Elem) returns (next: Elem?)
      requires Valid() && leaf in cells && leaf.IsLeaf()
      ensures LeastOf(Above(leaf.key), next)
    {
      AboveLeaf(leaf);
      LeafHolds(leaf, leaf.key);
      ghost var above := Above(leaf.key);
      var delem := leaf.parent;
      var val := leaf.parentVal;
      ghost var rest := if delem == null then {} else above + {leaf.key};
      while delem != null
        invariant delem != null ==> delem in cells && cells[delem].IsNode() && 0 <= val < POINTERS_PER_NODE
        invariant rest == AheadSet(cells, root, delem, val)
        invariant rest == above || rest == above + {leaf.key}
        decreases delem != null, rest, rest !! KeysAt(cells, delem),
          if rest !! KeysAt(cells, delem) then Contents().Keys - KeysAt(cells, delem) else KeysAt(cells, delem)
      {
        ghost var e := delem;
        next, delem, val := Step(delem, val);
        if next == null {
          Shrinks(rest, e, delem);
        } else {
          Found(leaf, next, rest, AheadSet(cells, root, delem, val));
          if next != leaf {
            if Strcmp(next.key, leaf.key) < 0 {
              assert false;
            }
            return;
          }
        }
        rest := AheadSet(cells, root, delem, val);
      }
      next := null;
    }

    method ForeachNext(state: IterationState)
      requires Valid() && (state.next != null ==> state.next in cells && state.next.IsLeaf())
      modifies state
      ensures old(state.cur) == null ==> state.cur == null && state.next == old(state.next)
      ensures old(state.cur) != null ==> state.cur == old(state.next)
      ensures old(state.cur) != null && old(state.next) == null ==> state.next == null
      ensures old(state.cur) != null && old(state.next) != null ==> LeastOf(Above(old(state.next.key)), state.next)
    {
      if state.cur == null { return; }
      state.cur := state.next;
      if state.next == null { return; }
      var leaf := state.next;
      state.next := Successor(leaf);
    }

    method ForeachStart(state: IterationState)
      requires Valid()
      modifies state
      ensures LeastOf(index.Keys, state.cur)
      ensures if state.cur == null then state.next == null else LeastOf(Above(state.cur.key), state.next)
    {
      if root != null {
        state.next := FirstLeaf(root);
        LeafHolds(state.next, state.next.key);
      } else {
        state.next := null;
      }
      state.cur := state.next;
      if state.next == null { return; }
      ForeachNext(state);
    }

    /** The data of the current element, or null. */
    function ForeachCur(state: IterationState): (data: object?)
      reads state, if state.cur != null then {state.cur} else {}
    {
      if state.cur != null then state.cur.data else null
    }

    /** The entries of c that a sweep keeps: those still to come and those not doomed. */
    ghost static function Kept(c: map<Key, object?>, rest: set<Key>, doomed: Key -> bool): map<Key, object?> {
      map k | k in c && (k in rest || !doomed(k)) :: c[k]
    }

    /** An iteration over c that deletes the doomed elements as it meets them, with rest to come. */
    ghost predicate Sweeping(state: IterationState, c: map<Key, object?>, rest: set<Key>, doomed: Key -> bool,
                             visited: seq<(Key, object?)>)
      reads this, cells.Keys, state
    {
      && Contents() == Kept(c, rest, doomed)
      && Walked(visited, c, rest)
      && (forall k :: k in c && k !in rest ==> c[k] != null)
      && LeastOf(rest, state.cur)
      && (state.cur != null ==> LeastOf(rest - {state.cur.key}, state.next))
    }

    /** Stored keys after the least one to come are exactly the others to come. */
    lemma RestIsAbove(c: map<Key, object?>, rest: set<Key>, doomed: Key -> bool, visited: seq<(Key, object?)>, k: Key)
      requires Valid() && Contents() == Kept(c, rest, doomed) && Walked(visited, c, rest)
      requires k in rest && forall x :: x in rest ==> x == k || KeyLess(k, x)
      ensures Above(k) == rest - {k}
    {
      assert index.Keys == Contents().Keys;
      forall x | x in index.Keys ensures KeyLess(k, x) <==> x in rest && x != k {
        KeyLessTotal(k, x);
        if x !in rest { VisitedBefore(visited, c, rest, x, k); }
      }
    }

    static lemma KeptLess(c: map<Key, object?>, rest: set<Key>, doomed: Key -> bool, k: Key)
      ensures Kept(c, rest - {k}, doomed) == if doomed(k) then Kept(c, rest, doomed) - {k} else Kept(c, rest, doomed)
    {
    }

    /** Deleting the current element leaves the next one in place. */
    method SweepOne(state: IterationState, ghost c: map<Key, object?>, ghost rest: set<Key>, doomed: Key -> bool,
                    ghost visited: seq<(Key, object?)>)
      requires Valid() && Sweeping(state, c, rest, doomed, visited) && state.cur != null
      modifies this, cells.Keys
      ensures Valid() && cells.Keys <= old(cells.Keys)
      ensures Contents() == Kept(c, rest - {old(state.cur.key)}, doomed)
      ensures LeastOf(rest - {old(state.cur.key)}, state.next)
    {
      KeptLess(c, rest, doomed, state.cur.key);
      if doomed(state.cur.key) {
        ghost var k, next := state.cur.key, state.next;
        ghost var kn := if next != null then next.key else k;
        assert index[k] == state.cur && canonize(k) == k;
        var data := Delete(state.cur.key);
        if next != null {
          assert IsLeafOf(cells, index[kn], kn);
          assert Matches(next, cells[next]);
        }
      }
    }

    /**
      The client loop over all elements, deleting the doomed ones while they
      are current. It meets every entry once, in order, up to the first one
      whose data is null, which ends the loop.
     */
    method Sweep(state: IterationState, doomed: Key -> bool)
      returns (visited: seq<(Key, object?)>, ghost rest: set<Key>)
      requires Valid()
      modifies this, cells.Keys, state
      ensures Valid() && cells.Keys <= old(cells.Keys)
      ensures Walked(visited, old(Contents()), rest)
      ensures Contents() == Kept(old(Contents()), rest, doomed)
      ensures rest == {} <==> forall k :: k in old(Contents()) ==> old(Contents())[k] != null
      ensures rest == {} ==> Enumerates(visited, old(Contents()))
      ensures StopsAt(old(Contents()), rest)
    {
      ghost var c := Contents();
      visited, rest := [], c.Keys;
      ForeachStart(state);
      SweepStarts(state, doomed);
      while ForeachCur(state) != null
        invariant Valid() && cells.Keys <= old(cells.Keys)
        invariant Sweeping(state, c, rest, doomed, visited)
        decreases rest
      {
        visited, rest := SweepStep(state, c, rest, doomed, visited);
      }
      SweepEnds(state, c, rest, doomed, visited);
    }

    method SweepStep(state: IterationState, ghost c: map<Key, object?>, ghost rest: set<Key>, doomed: Key -> bool,
                     visited: seq<(Key, object?)>)
      returns (visited': seq<(Key, object?)>, ghost rest': set<Key>)
      requires Valid() && Sweeping(state, c, rest, doomed, visited) && state.cur != null && state.cur.data != null
      modifies this, cells.Keys, state
      ensures Valid() && cells.Keys <= old(cells.Keys)
      ensures rest' < rest && Sweeping(state, c, rest', doomed, visited')
    {
      hide Kept, Walked, KeyLess, ShapeOk, IndexOk, CanonizeOk;
      CurrentData(state, c, rest, doomed, visited);
      ghost var k := state.cur.key;
      rest' := rest - {k};
      WalkOne(visited, c, rest, rest', k);
      visited' := visited + [(state.cur.key, state.cur.data)];
      SweepOne(state, c, rest, doomed, visited);
      assert cells.Keys <= old(cells.Keys);
      SweepNext(state, c, rest', doomed, visited');
    }

    lemma SweepEnds(state: IterationState, c: map<Key, object?>, rest: set<Key>, doomed: Key -> bool,
                    visited: seq<(Key, object?)>)
      requires Valid() && Sweeping(state, c, rest, doomed, visited) && ForeachCur(state) == null
      ensures rest == {} <==> forall k :: k in c ==> c[k] != null
      ensures rest == {} ==> Enumerates(visited, c)
      ensures StopsAt(c, rest)
    {
      if state.cur != null { CurrentData(state, c, rest, doomed, visited); }
      if rest == {} { WalkDone(visited, c); }
    }

    lemma SweepStarts(state: IterationState, doomed: Key -> bool)
      requires Valid() && LeastOf(index.Keys, state.cur)
      requires if state.cur == null then state.next == null else LeastOf(Above(state.cur.key), state.next)
      ensures Sweeping(state, Contents(), Contents().Keys, doomed, [])
    {
      var c := Contents();
      assert Kept(c, c.Keys, doomed) == c && c.Keys == index.Keys;
      if state.cur != null { RestIsAbove(c, c.Keys, doomed, [], state.cur.key); }
    }

    lemma CurrentData(state: IterationState, c: map<Key, object?>, rest: set<Key>, doomed: Key -> bool,
                      visited: seq<(Key, object?)>)
      requires Valid() && Sweeping(state, c, rest, doomed, visited) && state.cur != null
      ensures state.cur.key in rest && state.cur.key in c && c[state.cur.key] == state.cur.data
      ensures forall k :: k in rest - {state.cur.key} ==> KeyLess(state.cur.key, k)
    {
      assert Matches(state.cur, cells[state.cur]);
      assert Contents()[state.cur.key] == state.cur.data;
    }

    /** Moving on after the current element was kept or deleted. */
    method SweepNext(state: IterationState, ghost c: map<Key, object?>, ghost rest: set<Key>, ghost doomed: Key -> bool,
                     ghost visited: seq<(Key, object?)>)
      requires Valid() && state.cur != null && Contents() == Kept(c, rest, doomed)
      requires Walked(visited, c, rest) && LeastOf(rest, state.next)
      requires forall k :: k in c && k !in rest ==> c[k] != null
      modifies state
      ensures Sweeping(state, c, rest, doomed, visited)
    {
      if state.next != null { RestIsAbove(c, rest, doomed, visited, state.next.key); }
      ForeachNext(state);
    }

    /** Clearing destroys every entry once, in order, and empties the trie. */
    method Clear() returns (destroyed: seq<(Key, object?)>)
      requires Valid()
      modifies this, cells.Keys
      ensures Valid()
      ensures Contents() == map[] <==> forall k :: k in old(Contents()) ==> old(Contents())[k] != null
      ensures Contents() == map[] ==> Enumerates(destroyed, old(Contents())) && root == null && count == 0
      ensures Walked(destroyed, old(Contents()), Contents().Keys) && StopsAt(old(Contents()), Contents().Keys)
      ensures forall k :: k in Contents() ==> k in old(Contents()) && Contents()[k] == old(Contents())[k]
    {
      var state := new IterationState();
      ghost var rest, c;
      c := Contents();
      destroyed, rest := Sweep(state, _ => true);
      KeptNone(c, rest, _ => true);
      EmptyTrie();
    }

    static lemma KeptNone(c: map<Key, object?>, rest: set<Key>, doomed: Key -> bool)
      requires rest <= c.Keys && forall k :: doomed(k)
      ensures Kept(c, rest, doomed).Keys == rest
    {
    }

    lemma EmptyTrie()
      requires Valid()
      ensures Contents() == map[] ==> root == null && count == 0
    {
      if root != null {
        assert ElemOk(cells, root, root);
        var k :| k in cells[root].keys;
        assert k in Contents();
      }
      assert Contents().Keys == index.Keys;
    }
  }
}
