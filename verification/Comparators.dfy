/** Comparison callbacks. */
module Comparators {
  import opened Common

  /** A pointer to caller data, known only through the comparator. */
  type Datum = int

  type Comparator = (Datum, Datum) -> int

  /** A consistent total preorder. */
  ghost predicate Consistent(cmp: Comparator) {
    && (forall a, b {:trigger Mirrored(cmp, a, b)} :: Mirrored(cmp, a, b))
    && (forall a, b, c {:trigger Chained(cmp, a, b, c)} :: Chained(cmp, a, b, c))
  }

  ghost predicate Mirrored(cmp: Comparator, a: Datum, b: Datum) {
    cmp(a, b) < 0 <==> cmp(b, a) > 0
  }

  ghost predicate Chained(cmp: Comparator, a: Datum, b: Datum, c: Datum) {
    cmp(a, b) <= 0 && cmp(b, c) <= 0 ==> cmp(a, c) <= 0 && (cmp(a, b) < 0 || cmp(b, c) < 0 ==> cmp(a, c) < 0)
  }

  /** The result says the same when it is stored into an int. */
  ghost predicate Fits(cmp: Comparator, a: Datum, b: Datum) {
    var v := cmp(a, b);
    (ToInt(v) < 0 <==> v < 0) && (ToInt(v) > 0 <==> v > 0)
  }

  /** The strict order of a comparator. */
  ghost predicate Less(cmp: Comparator, a: Datum, b: Datum) {
    cmp(a, b) < 0
  }

  lemma LessIsStrict(cmp: Comparator, a: Datum, b: Datum)
    requires Consistent(cmp)
    ensures !Less(cmp, a, a)
    ensures Less(cmp, a, b) <==> cmp(b, a) > 0
    ensures Less(cmp, a, b) ==> !Less(cmp, b, a)
  {
    assert Mirrored(cmp, a, b) && Mirrored(cmp, b, a) && Mirrored(cmp, a, a);
  }

  lemma LessTransitive(cmp: Comparator, a: Datum, b: Datum, c: Datum)
    requires Consistent(cmp) && Less(cmp, a, b) && Less(cmp, b, c)
    ensures Less(cmp, a, c)
  {
    assert Chained(cmp, a, b, c);
  }
}
