/**
  Keys of the Patricia trie: NUL-free C strings read as sequences of
  nibbles, padded with infinitely many zero nibbles, and the strcmp order.
 */
module Keys {

  /** A byte of a C string that is not the terminator. */
  type KeyByte = b: int | 1 <= b < 256 witness 1

  type Key = seq<KeyByte>

  /** Number of branches of a trie node. */
  const POINTERS_PER_NODE: nat := 16

  /** The nibble tested at position i; reads the terminator and beyond as 0. */
  function Nibble(k: Key, i: nat): (n: nat)
    ensures n < POINTERS_PER_NODE
  {
    if i / 2 < |k| then
      var b: int := k[i / 2];
      if i % 2 == 1 then b % 16 else b / 16
    else 0
  }

  /** Reading nibble i of a C string, which may reach its terminator but not pass it. */
  function NibbleVal(k: Key, i: nat): (n: nat)
    requires i / 2 <= |k|
    ensures n == Nibble(k, i)
  {
    var b: int := if i / 2 == |k| then 0 else k[i / 2];
    (if i % 2 == 1 then b else b / 16) % 16
  }

  /** i is the first nibble at which the two keys differ. */
  ghost predicate DiffersAt(a: Key, b: Key, i: nat) {
    && Nibble(a, i) != Nibble(b, i)
    && Agree(a, b, i)
  }

  /** The two keys have the same first n nibbles. */
  ghost predicate Agree(a: Key, b: Key, n: int) {
    forall j: nat :: j < n ==> Nibble(a, j) == Nibble(b, j)
  }

  /** Nibble-wise lexicographic order. */
  ghost predicate KeyLess(a: Key, b: Key) {
    exists i: nat :: DiffersAt(a, b, i) && Nibble(a, i) < Nibble(b, i)
  }

  /** The C library's strcmp on two NUL-terminated strings (bytes unsigned). */
  function Strcmp(a: Key, b: Key): int {
    if a == [] || b == [] then |a| - |b|
    else if a[0] != b[0] then a[0] - b[0]
    else Strcmp(a[1..], b[1..])
  }

  /** A byte is determined by its two nibbles, and bytes compare as they do. */
  lemma ByteOfNibbles(a: Key, b: Key, p: nat)
    requires p <= |a| && p <= |b|
    ensures p < |a| && p < |b| &&
            Nibble(a, 2 * p) == Nibble(b, 2 * p) && Nibble(a, 2 * p + 1) == Nibble(b, 2 * p + 1) ==>
      a[p] == b[p]
    ensures p < |a| && p == |b| ==> Nibble(a, 2 * p) != 0 || Nibble(a, 2 * p + 1) != 0
  {
    assert (2 * p) / 2 == p && (2 * p + 1) / 2 == p && (2 * p) % 2 == 0 && (2 * p + 1) % 2 == 1;
  }

  /** Different keys differ no later than at the terminator of the shorter one. */
  lemma FirstDifferenceExists(a: Key, b: Key) returns (i: nat)
    requires a != b
    ensures DiffersAt(a, b, i) && i / 2 <= |a| && i / 2 <= |b|
  {
    i := 0;
    while Nibble(a, i) == Nibble(b, i)
      invariant Agree(a, b, i)
      invariant i / 2 <= |a| && i / 2 <= |b|
      decreases |a| + |b| + 2 - i
    {
      NextInside(a, b, i);
      i := i + 1;
    }
  }

  /** If two different keys agree up to and including nibble i, nibble i + 1 is still inside both. */
  lemma NextInside(a: Key, b: Key, i: nat)
    requires a != b && Agree(a, b, i + 1)
    requires i / 2 <= |a| && i / 2 <= |b|
    ensures (i + 1) / 2 <= |a| && (i + 1) / 2 <= |b|
  {
    var p := i / 2;
    if i % 2 == 1 {
      assert i == 2 * p + 1;
      assert Nibble(a, 2 * p) == Nibble(b, 2 * p);
      assert Nibble(a, 2 * p + 1) == Nibble(b, 2 * p + 1);
      ByteOfNibbles(a, b, p);
      ByteOfNibbles(b, a, p);
      if p == |a| && p == |b| {
        forall q | 0 <= q < p ensures a[q] == b[q] {
          assert Nibble(a, 2 * q) == Nibble(b, 2 * q);
          assert Nibble(a, 2 * q + 1) == Nibble(b, 2 * q + 1);
          ByteOfNibbles(a, b, q);
        }
      }
    }
  }

  lemma DropNibbles(a: Key, i: nat)
    requires |a| > 0
    ensures Nibble(a, i + 2) == Nibble(a[1..], i)
  {
  }

  /** strcmp is the nibble-wise lexicographic order. */
  lemma {:induction false} StrcmpIsKeyLess(a: Key, b: Key)
    ensures Strcmp(a, b) < 0 <==> KeyLess(a, b)
    ensures Strcmp(a, b) == 0 <==> a == b
  {
    if a == b {
      if a != [] { StrcmpIsKeyLess(a[1..], b[1..]); }
    } else {
      var i := FirstDifferenceExists(a, b);
      StrcmpSign(a, b, i);
      if KeyLess(a, b) {
        var j: nat :| DiffersAt(a, b, j) && Nibble(a, j) < Nibble(b, j);
        assert i == j;
      }
    }
  }

  lemma {:induction false} StrcmpSign(a: Key, b: Key, i: nat)
    requires DiffersAt(a, b, i)
    ensures Strcmp(a, b) < 0 <==> Nibble(a, i) < Nibble(b, i)
    ensures Strcmp(a, b) != 0
    decreases i
  {
    if a == [] || b == [] || a[0] != b[0] {
      if i >= 2 {
        assert Nibble(a, 0) == Nibble(b, 0) && Nibble(a, 1) == Nibble(b, 1);
        ByteOfNibbles(a, b, 0);
        ByteOfNibbles(b, a, 0);
      } else if i == 1 {
        assert Nibble(a, 0) == Nibble(b, 0);
      }
    } else {
      assert i >= 2;
      DropNibbles(a, i - 2);
      DropNibbles(b, i - 2);
      forall j: nat | j < i - 2 ensures Nibble(a[1..], j) == Nibble(b[1..], j) {
        DropNibbles(a, j);
        DropNibbles(b, j);
      }
      StrcmpSign(a[1..], b[1..], i - 2);
    }
  }

  /** The order is a strict total order. */
  lemma KeyLessTotal(a: Key, b: Key)
    ensures a == b || KeyLess(a, b) || KeyLess(b, a)
    ensures !(KeyLess(a, b) && KeyLess(b, a))
    ensures a == b ==> !KeyLess(a, b)
  {
    StrcmpIsKeyLess(a, b);
    StrcmpIsKeyLess(b, a);
    if a != b {
      var i := FirstDifferenceExists(a, b);
      assert DiffersAt(b, a, i);
    }
  }

  lemma KeyLessTransitive(a: Key, b: Key, c: Key)
    requires KeyLess(a, b) && KeyLess(b, c)
    ensures KeyLess(a, c)
  {
    var i: nat :| DiffersAt(a, b, i) && Nibble(a, i) < Nibble(b, i);
    var j: nat :| DiffersAt(b, c, j) && Nibble(b, j) < Nibble(c, j);
    var m := if i < j then i else j;
    assert DiffersAt(a, c, m);
  }
}
