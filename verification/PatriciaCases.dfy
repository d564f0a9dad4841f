/**
  Small tries on which the code does other than what is said about it.
 */
module PatriciaCases {
  import opened Keys
  import opened Trie
  import opened TrieOrder
  import opened Patricia

  const KEY_A: Key := [0x61]
  const KEY_B: Key := [0x62]

  const CANONIZE: Key -> Key := k => k

  /** The trie of two keys, which are their own canonical form. */
  method TwoKeys(a: object, b: object) returns (dtree: Patricia)
    ensures dtree.Valid() && fresh(dtree) && fresh(dtree.cells.Keys)
    ensures dtree.canonize == CANONIZE && dtree.Contents() == map[KEY_A := a, KEY_B := b]
  {
    AThenB();
    hide *;
    dtree := new Patricia(CANONIZE);
    var added := dtree.Add(KEY_A, a);
    added := dtree.Add(KEY_B, b);
  }

  lemma AThenB()
    ensures Patricia.CanonizeOk(CANONIZE) && CANONIZE(KEY_A) == KEY_A && CANONIZE(KEY_B) == KEY_B
    ensures KEY_A != KEY_B && Strcmp(KEY_A, KEY_B) < 0 && Strcmp(KEY_B, KEY_A) > 0
  {
    assert KEY_A[0] == 0x61 && KEY_B[0] == 0x62;
  }

  /** There is one enumeration of the two entries. */
  lemma EnumerationIs(visited: seq<(Key, object?)>, a: object, b: object)
    requires Enumerates(visited, map[KEY_A := a, KEY_B := b])
    ensures visited == [(KEY_A, a), (KEY_B, b)]
  {
    AThenB();
    var c := map[KEY_A := a, KEY_B := b];
    assert (KEY_A, c[KEY_A]) in visited && (KEY_B, c[KEY_B]) in visited;
    forall n: nat | n < |visited| ensures visited[n] == (KEY_A, a) || visited[n] == (KEY_B, b) {
      assert visited[n] in visited;
    }
    StrcmpIsKeyLess(KEY_A, KEY_A);
    StrcmpIsKeyLess(KEY_B, KEY_B);
    if 2 < |visited| {
      hide *;
      PairIs(visited, c, 0, 1);
      PairIs(visited, c, 1, 2);
    }
  }

  /** Of two entries met, the first has the lesser key. */
  lemma PairIs(visited: seq<(Key, object?)>, c: map<Key, object?>, i: nat, j: nat)
    requires Enumerates(visited, c) && c.Keys == {KEY_A, KEY_B} && i < j < |visited|
    ensures visited[i].0 == KEY_A && visited[j].0 == KEY_B
  {
    AThenB();
    StrcmpIsKeyLess(KEY_A, KEY_A);
    StrcmpIsKeyLess(KEY_B, KEY_B);
    assert visited[i] in visited && visited[j] in visited;
  }

  /** A callback whose first result is nonzero is called for the second entry all the same. */
  method ForeachGoesOn(a: object, b: object)
    returns (dtree: Patricia, visited: seq<(Key, object?)>, documented: seq<(Key, object?)>)
    ensures dtree.Valid() && dtree.Contents() == map[KEY_A := a, KEY_B := b]
    ensures documented == Documented(visited, (k, data) => 1)
    ensures visited == [(KEY_A, a), (KEY_B, b)] && documented == [(KEY_A, a)]
  {
    dtree := TwoKeys(a, b);
    visited := dtree.Foreach((k, data) => 1);
    documented := Documented(visited, (k, data) => 1);
    EnumerationIs(visited, a, b);
  }

  /** An entry whose data was set to null ends clearing before it, and all entries after it stay. */
  method ClearStops(a: object, b: object) returns (dtree: Patricia, destroyed: seq<(Key, object?)>)
    ensures dtree.Valid() && destroyed == []
    ensures dtree.Contents() == map[KEY_A := null, KEY_B := b]
  {
    dtree := TwoKeys(a, b);
    AThenB();
    hide *;
    EmptyFirst(dtree, a, b);
    ghost var c := dtree.Contents();
    destroyed := dtree.Clear();
    assert dtree.Contents().Keys <= c.Keys;
    NothingCleared(c, destroyed, dtree.Contents());
  }

  /** Gives the first entry null data. */
  method EmptyFirst(dtree: Patricia, a: object, b: object)
    requires dtree.Valid() && dtree.Contents() == map[KEY_A := a, KEY_B := b]
    requires dtree.canonize(KEY_A) == KEY_A
    modifies dtree, dtree.cells.Keys
    ensures dtree.Valid() && dtree.cells.Keys == old(dtree.cells.Keys)
    ensures dtree.Contents() == map[KEY_A := null, KEY_B := b]
  {
    AThenB();
    var leaf := dtree.ElemFind(KEY_A);
    if leaf != null { dtree.SetData(leaf, null); }
  }

  lemma NothingBefore(x: (Key, object?), c: map<Key, object?>, rest: set<Key>)
    requires c.Keys == {KEY_A, KEY_B} && KEY_A in rest
    ensures !VisitOk(x, c, rest)
  {
    AThenB();
    StrcmpIsKeyLess(x.0, KEY_A);
    StrcmpIsKeyLess(KEY_A, KEY_A);
  }

  lemma NothingWalked(destroyed: seq<(Key, object?)>, c: map<Key, object?>, rest: set<Key>)
    requires c.Keys == {KEY_A, KEY_B} && KEY_A in rest && Walked(destroyed, c, rest)
    ensures destroyed == []
  {
    if destroyed != [] {
      NothingBefore(destroyed[0], c, rest);
      assert false;
    }
  }

  /** What stays begins with the entry that has no data. */
  lemma LeftHolds(c: map<Key, object?>, destroyed: seq<(Key, object?)>, left: map<Key, object?>)
    requires KEY_A in c && c[KEY_A] == null && c.Keys == {KEY_A, KEY_B} && c[KEY_B] != null
    requires Walked(destroyed, c, left.Keys) && StopsAt(c, left.Keys)
    ensures KEY_A in left && KEY_B in left
  {
    assert KEY_A in left.Keys;
    if KEY_B !in left.Keys {
      VisitedBefore(destroyed, c, left.Keys, KEY_B, KEY_A);
      AThenB();
      StrcmpIsKeyLess(KEY_B, KEY_A);
      assert false;
    }
  }

  lemma NothingCleared(c: map<Key, object?>, destroyed: seq<(Key, object?)>, left: map<Key, object?>)
    requires KEY_A in c && c[KEY_A] == null && c.Keys == {KEY_A, KEY_B} && c[KEY_B] != null
    requires Walked(destroyed, c, left.Keys) && StopsAt(c, left.Keys)
    requires forall k :: k in left ==> k in c && left[k] == c[k]
    ensures destroyed == [] && left == c
  {
    AThenB();
    StrcmpIsKeyLess(KEY_A, KEY_B);
    KeyLessTotal(KEY_A, KEY_B);
    LeftHolds(c, destroyed, left);
    NothingWalked(destroyed, c, left.Keys);
    assert left.Keys == c.Keys;
  }

  /** A search that finds nothing among two entries does not come back with null. */
  method SearchRunsOff(a: object, b: object) returns (dtree: Patricia, r: Search)
    ensures dtree.Valid() && dtree.Contents() == map[KEY_A := a, KEY_B := b] && r == NullDereferenced
  {
    dtree := TwoKeys(a, b);
    AThenB();
    ghost var c := dtree.Contents();
    assert |c.Keys| == |{KEY_A, KEY_B}|;
    r := dtree.Search((k, data) => null);
  }
}
