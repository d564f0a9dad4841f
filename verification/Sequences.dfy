/** Inserting into, removing from and moving within a sequence. */
module Sequences {

  ghost function Inserted<T>(s: seq<T>, p: nat, x: T): (r: seq<T>)
    requires p <= |s|
    ensures |r| == |s| + 1
  {
    s[..p] + [x] + s[p..]
  }

  function Removed<T>(s: seq<T>, p: nat): (r: seq<T>)
    requires p < |s|
    ensures |r| == |s| - 1
  {
    s[..p] + s[p + 1..]
  }

  /** The element at p moved to position q, the others in unchanged order. */
  ghost function Moved<T>(s: seq<T>, p: nat, q: nat): (r: seq<T>)
    requires p < |s| && q < |s|
    ensures |r| == |s|
  {
    Inserted(Removed(s, p), q, s[p])
  }

  /** Where the element at position i is after the move. */
  ghost function MovedTo(p: nat, q: nat, i: nat): nat {
    if i == p then q
    else if p < i <= q then i - 1
    else if q <= i < p then i + 1
    else i
  }

  lemma MovedAt<T>(s: seq<T>, p: nat, q: nat, i: nat)
    requires p < |s| && q < |s| && i < |s|
    ensures MovedTo(p, q, i) < |s| && Moved(s, p, q)[MovedTo(p, q, i)] == s[i]
    ensures MovedTo(q, p, MovedTo(p, q, i)) == i
  {
  }

  /** Read backwards: what is at position i after the move. */
  lemma MovedFrom<T>(s: seq<T>, p: nat, q: nat, i: nat)
    requires p < |s| && q < |s| && i < |s|
    ensures MovedTo(q, p, i) < |s| && Moved(s, p, q)[i] == s[MovedTo(q, p, i)]
    ensures MovedTo(p, q, MovedTo(q, p, i)) == i
  {
    MovedAt(s, p, q, MovedTo(q, p, i));
  }

  lemma MovedMultiset<T>(s: seq<T>, p: nat, q: nat)
    requires p < |s| && q < |s|
    ensures multiset(Moved(s, p, q)) == multiset(s)
  {
    var r := Removed(s, p);
    assert s == s[..p] + [s[p]] + s[p + 1..];
    assert r == r[..q] + r[q..];
    assert multiset(s) == multiset(r) + multiset{s[p]};
  }

  /** No element occurs twice. */
  ghost predicate Distinct<T>(s: seq<T>) {
    forall i, j {:trigger Differ(s, i, j)} :: 0 <= i < j < |s| ==> Differ(s, i, j)
  }

  ghost predicate Differ<T>(s: seq<T>, i: int, j: int)
    requires 0 <= i < |s| && 0 <= j < |s|
  {
    s[i] != s[j]
  }

  /** The element at position c is at no other. */
  lemma Unique<T>(s: seq<T>, c: int)
    requires Distinct(s)
    ensures 0 <= c < |s| ==> forall i {:trigger s[i]} :: 0 <= i < |s| && i != c ==> s[i] != s[c]
  {
    if 0 <= c < |s| {
      forall i | 0 <= i < |s| && i != c ensures s[i] != s[c] {
        assert if i < c then Differ(s, i, c) else Differ(s, c, i);
      }
    }
  }

  lemma MovedDistinct<T>(s: seq<T>, p: nat, q: nat)
    requires Distinct(s) && p < |s| && q < |s|
    ensures Distinct(Moved(s, p, q))
  {
    var m := Moved(s, p, q);
    forall i, j {:trigger Differ(m, i, j)} | 0 <= i < j < |m| ensures Differ(m, i, j) {
      MovedFrom(s, p, q, i);
      MovedFrom(s, p, q, j);
      Unique(s, MovedTo(q, p, i));
    }
  }

  lemma SameMembers<T>(a: seq<T>, b: seq<T>)
    requires multiset(a) == multiset(b)
    ensures forall x {:trigger x in a} :: x in a ==> x in b
    ensures forall x {:trigger x in b} :: x in b ==> x in a
    ensures forall i {:trigger a[i]} :: 0 <= i < |a| ==> a[i] in b
  {
    forall x | x in a ensures x in b { assert x in multiset(a); }
    forall x | x in b ensures x in a { assert x in multiset(b); }
  }

  ghost function Reversed<T>(s: seq<T>): (r: seq<T>)
    ensures |r| == |s| && forall i :: 0 <= i < |s| ==> r[i] == s[|s| - 1 - i]
  {
    seq(|s|, i requires 0 <= i < |s| => s[|s| - 1 - i])
  }
}
