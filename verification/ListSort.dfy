/**
  Why the list sort works, on sequences.

  The sort takes every node n in turn and walks the whole list with n2,
  moving n in front of a larger n2 that precedes it and behind a smaller n2
  that follows it, while both walks go on in the list being changed.
 */
module ListSort {
  import opened Comparators
  import opened Sequences

  ghost function Value<T>(v: map<T, Datum>, x: T): Datum {
    if x in v then v[x] else 0
  }

  ghost predicate Smaller<T>(v: map<T, Datum>, cmp: Comparator, x: T, y: T) {
    Less(cmp, Value(v, x), Value(v, y))
  }

  /** Every element smaller than the one at position i precedes it. */
  ghost predicate Settled<T>(s: seq<T>, v: map<T, Datum>, cmp: Comparator, i: int)
    requires 0 <= i < |s|
  {
    forall k {:trigger s[k]} :: 0 <= k < |s| && Smaller(v, cmp, s[k], s[i]) ==> k < i
  }

  /** All elements of p are settled. */
  ghost predicate AllSettled<T>(s: seq<T>, v: map<T, Datum>, cmp: Comparator, p: set<T>) {
    forall i {:trigger Settled(s, v, cmp, i)} :: 0 <= i < |s| && s[i] in p ==> Settled(s, v, cmp, i)
  }

  /** The elements smaller than s[p] among the first q precede it. */
  ghost predicate Passed<T>(s: seq<T>, v: map<T, Datum>, cmp: Comparator, p: int, q: int)
    requires 0 <= p < |s|
  {
    forall k {:trigger s[k]} :: 0 <= k < q && k < |s| && Smaller(v, cmp, s[k], s[p]) ==> k < p
  }

  /**
    Moving the element at p to q keeps the other processed elements settled:
    backwards always, forwards if q holds something smaller.
   */
  lemma MoveKeepsSettled<T>(s: seq<T>, v: map<T, Datum>, cmp: Comparator, done: set<T>, p: nat, q: nat)
    requires Consistent(cmp) && p < |s| && q < |s| && s[p] !in done && AllSettled(s, v, cmp, done)
    requires p < q ==> Smaller(v, cmp, s[q], s[p])
    ensures AllSettled(Moved(s, p, q), v, cmp, done)
  {
    var s' := Moved(s, p, q);
    forall i' | 0 <= i' < |s'| && s'[i'] in done ensures Settled(s', v, cmp, i') {
      MovedFrom(s, p, q, i');
      var i := MovedTo(q, p, i');
      assert Settled(s, v, cmp, i);
      forall k' | 0 <= k' < |s'| && Smaller(v, cmp, s'[k'], s'[i']) ensures k' < i' {
        MovedFrom(s, p, q, k');
        var k := MovedTo(q, p, k');
        assert Smaller(v, cmp, s[k], s[i]);
        if k == p && p < q {
          LessTransitive(cmp, Value(v, s[q]), Value(v, s[p]), Value(v, s[i]));
          assert Smaller(v, cmp, s[q], s[i]);
        }
      }
    }
  }

  /** When everything is settled the sequence is sorted. */
  lemma SettledIsSorted<T>(s: seq<T>, v: map<T, Datum>, cmp: Comparator, done: set<T>)
    requires Consistent(cmp) && AllSettled(s, v, cmp, done) && forall i :: 0 <= i < |s| ==> s[i] in done
    ensures forall i, j :: 0 <= i < j < |s| ==> cmp(Value(v, s[i]), Value(v, s[j])) <= 0
  {
    forall i, j | 0 <= i < j < |s| ensures cmp(Value(v, s[i]), Value(v, s[j])) <= 0 {
      assert Settled(s, v, cmp, i);
      LessIsStrict(cmp, Value(v, s[j]), Value(v, s[i]));
      assert !Smaller(v, cmp, s[j], s[i]);
    }
  }

  /**
    The state of the inner walk: n is at p, n2 at q, the outer walk goes on
    at t. Both q and t may be one past the end.
   */
  datatype Walk<T> = Walk(s: seq<T>, p: int, q: int, t: int)

  /** What holds whenever the inner walk looks at the next node. */
  ghost predicate WalkOk<T>(w: Walk<T>, v: map<T, Datum>, cmp: Comparator, done: set<T>) {
    && 0 <= w.p < |w.s| && 0 <= w.q <= |w.s| && 0 <= w.t <= |w.s| && w.t != w.p
    && Distinct(w.s)
    && AllSettled(w.s, v, cmp, done - {w.s[w.p]})
    && Passed(w.s, v, cmp, w.p, w.q)
    && (forall i {:trigger w.s[i]} :: 0 <= i < w.t ==> w.s[i] in done || i == w.p)
  }

  /** If n was settled before, it and everything smaller stay in front of t. */
  ghost predicate Confined<T>(w: Walk<T>, v: map<T, Datum>, cmp: Comparator)
    requires 0 <= w.p < |w.s|
  {
    w.p < w.t && forall k {:trigger w.s[k]} :: 0 <= k < |w.s| && Smaller(v, cmp, w.s[k], w.s[w.p]) ==> k < w.t
  }

  /** n goes to where n2 was, n2 and what lies between shift; the walk goes on at q'. */
  ghost function Shift<T>(w: Walk<T>, q': int): Walk<T>
    requires 0 <= w.p < |w.s| && 0 <= w.q < |w.s| && 0 <= w.t
  {
    Walk(Moved(w.s, w.p, w.q), w.q, q', if w.t == |w.s| then w.t else MovedTo(w.p, w.q, w.t))
  }

  /** How far the inner walk still has to go. */
  ghost function ToGo<T>(w: Walk<T>): int {
    |w.s| - w.q - (if w.p >= w.q then 1 else 0)
  }

  ghost function Phase<T>(w: Walk<T>): int {
    if w.p > w.q then 2 else if w.p == w.q then 1 else 0
  }

  /** Where the walk goes on after n was moved in front of n2: at n if that came next. */
  ghost function NextAfterBack<T>(w: Walk<T>): int {
    if w.p == w.q + 1 then w.q else w.q + 2
  }

  lemma ShiftBackOk<T>(w: Walk<T>, v: map<T, Datum>, cmp: Comparator, done: set<T>)
    requires Consistent(cmp) && WalkOk(w, v, cmp, done) && w.q < w.p && Smaller(v, cmp, w.s[w.p], w.s[w.q])
    ensures WalkOk(Shift(w, NextAfterBack(w)), v, cmp, done)
    ensures Confined(w, v, cmp) ==> Confined(Shift(w, NextAfterBack(w)), v, cmp) && Shift(w, NextAfterBack(w)).t == w.t
  {
    var w' := Shift(w, NextAfterBack(w));
    MoveKeepsSettled(w.s, v, cmp, done - {w.s[w.p]}, w.p, w.q);
    LessIsStrict(cmp, Value(v, w.s[w.p]), Value(v, w.s[w.q]));
    LessIsStrict(cmp, Value(v, w.s[w.p]), Value(v, w.s[w.p]));
    MovedDistinct(w.s, w.p, w.q);
    forall k | 0 <= k < |w'.s| ensures w'.s[k] == w.s[MovedTo(w.q, w.p, k)] {
      MovedFrom(w.s, w.p, w.q, k);
    }
  }

  lemma ShiftForthOk<T>(w: Walk<T>, v: map<T, Datum>, cmp: Comparator, done: set<T>)
    requires Consistent(cmp) && WalkOk(w, v, cmp, done) && w.p < w.q < |w.s| && Smaller(v, cmp, w.s[w.q], w.s[w.p])
    ensures WalkOk(Shift(w, w.q + 1), v, cmp, done)
    ensures Confined(w, v, cmp) ==> Confined(Shift(w, w.q + 1), v, cmp) && Shift(w, w.q + 1).t == w.t
  {
    var w' := Shift(w, w.q + 1);
    MoveKeepsSettled(w.s, v, cmp, done - {w.s[w.p]}, w.p, w.q);
    LessIsStrict(cmp, Value(v, w.s[w.p]), Value(v, w.s[w.p]));
    MovedDistinct(w.s, w.p, w.q);
    forall k | 0 <= k < |w'.s| ensures w'.s[k] == w.s[MovedTo(w.q, w.p, k)] {
      MovedFrom(w.s, w.p, w.q, k);
    }
  }
}
