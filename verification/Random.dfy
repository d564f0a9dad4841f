/**
  The Mersenne Twister: an in-place block generator against the infinite
  recurrence it computes, its tempering, and draws from a range by rejection.
 */
module Random {
  import opened Common
  import opened Words

  /** Period parameters. */
  const N: nat := 624
  const M: nat := 397
  const MATRIX_A: Word := 0x9908_b0df
  const UPPER_MASK: Word := 0x8000_0000
  const LOWER_MASK: Word := 0x7fff_ffff

  function Xor(a: Word, b: Word): Word { a ^ b }

  function FoldTop(prev: Word): Word { prev ^ (prev >> 30) }

  /** One step of the seeding recurrence, in numbers wide enough and then reduced to a word. */
  function SeedStep(prev: Word, i: nat): Word
    requires i < N
  {
    ((1812433253 * Value(FoldTop(prev)) + i) % WORDS) as Word
  }

  /** The twist of two neighbouring words. */
  function Twist(upper: Word, lower: Word): Word {
    var y := (upper & UPPER_MASK) | (lower & LOWER_MASK);
    (y >> 1) ^ (if y & 1 == 0 then 0 else MATRIX_A)
  }

  /** The infinite sequence: the seeded words, then each word from three earlier ones. */
  function Term(seed: Word, n: nat): Word {
    if n == 0 then seed
    else if n < N then SeedStep(Term(seed, n - 1), n)
    else Xor(Term(seed, n - N + M), Twist(Term(seed, n - N), Term(seed, n - N + 1)))
  }

  function S11(y: Word): Word { y >> 11 }
  function S7(y: Word): Word { (y << 7) & 0x9d2c_5680 }
  function S15(y: Word): Word { (y << 15) & 0xefc6_0000 }
  function S18(y: Word): Word { y >> 18 }

  /** The four steps of tempering mix a word with a shifted and masked copy of itself. */
  function Temper(y: Word): Word {
    var a := Xor(y, S11(y));
    var b := Xor(a, S7(a));
    var c := Xor(b, S15(b));
    Xor(c, S18(c))
  }

  /** The k-th output: the tempered term N + k. */
  function Output(seed: Word, k: nat): Word {
    Temper(Term(seed, N + k))
  }

  // Tempering is a bijection on words.

  /** The inverse of tempering: each step is repeated until the shifted copies have moved out of the word. */
  function Untemper(z: Word): Word {
    var c := Xor(z, S18(z));
    var b := Xor(c, S15(c));
    var a := Xor(b, S7(Xor(b, S7(Xor(b, S7(Xor(b, S7(b))))))));
    Xor(a, Xor(S11(a), S11(S11(a))))
  }

  lemma XorCancels(a: Word, b: Word)
    ensures Xor(Xor(a, b), b) == a
  {
  }

  lemma XorAssociates(a: Word, b: Word, c: Word)
    ensures Xor(Xor(a, b), c) == Xor(a, Xor(b, c))
  {
  }

  lemma XorUnit(a: Word, b: Word)
    ensures Xor(a, b) == Xor(b, a) && Xor(a, 0) == a && Xor(a, a) == 0
  {
  }

  lemma XorLaws(a: Word, b: Word, c: Word)
    ensures Xor(Xor(a, b), b) == a && Xor(Xor(a, b), c) == Xor(a, Xor(b, c))
    ensures Xor(a, b) == Xor(b, a) && Xor(a, 0) == a && Xor(a, a) == 0
  {
    hide Xor;
    XorCancels(a, b);
    XorAssociates(a, b, c);
    XorUnit(a, b);
  }

  lemma S11Distributes(a: Word, b: Word)
    ensures S11(Xor(a, b)) == Xor(S11(a), S11(b))
  {
  }

  lemma S7Distributes(a: Word, b: Word)
    ensures S7(Xor(a, b)) == Xor(S7(a), S7(b))
  {
  }

  lemma S15Distributes(a: Word, b: Word)
    ensures S15(Xor(a, b)) == Xor(S15(a), S15(b))
  {
  }

  lemma S18Distributes(a: Word, b: Word)
    ensures S18(Xor(a, b)) == Xor(S18(a), S18(b))
  {
  }

  lemma ShiftsDistribute(a: Word, b: Word)
    ensures S11(Xor(a, b)) == Xor(S11(a), S11(b))
    ensures S7(Xor(a, b)) == Xor(S7(a), S7(b))
    ensures S15(Xor(a, b)) == Xor(S15(a), S15(b))
    ensures S18(Xor(a, b)) == Xor(S18(a), S18(b))
  {
    hide Xor, S11, S7, S15, S18;
    S11Distributes(a, b);
    S7Distributes(a, b);
    S15Distributes(a, b);
    S18Distributes(a, b);
  }

  /** Repeated often enough, each shift moves everything out of the word. */
  lemma ShiftsVanish(y: Word)
    ensures S18(S18(y)) == 0 && S15(S15(y)) == 0 && S11(S11(S11(y))) == 0
    ensures S7(S7(S7(S7(S7(y))))) == 0
    ensures S11(0) == 0
  {
  }

  lemma Inverse18(y: Word)
    ensures var z := Xor(y, S18(y)); Xor(z, S18(z)) == y
  {
    hide Xor, S18;
    ShiftsDistribute(y, S18(y));
    ShiftsVanish(y);
    XorLaws(S18(y), 0, 0);
    XorLaws(y, S18(y), S18(y));
  }

  lemma Inverse15(y: Word)
    ensures var z := Xor(y, S15(y)); Xor(z, S15(z)) == y
  {
    hide Xor, S15;
    ShiftsDistribute(y, S15(y));
    ShiftsVanish(y);
    XorLaws(S15(y), 0, 0);
    XorLaws(y, S15(y), S15(y));
  }

  lemma Inverse11(y: Word)
    ensures var z := Xor(y, S11(y)); Xor(z, Xor(S11(z), S11(S11(z)))) == y
    ensures var z := Xor(y, Xor(S11(y), S11(S11(y)))); Xor(z, S11(z)) == y
  {
    hide Xor, S11;
    var a, b := S11(y), S11(S11(y));
    ShiftsVanish(y);
    ShiftsDistribute(y, a);
    ShiftsDistribute(a, b);
    ShiftsDistribute(y, Xor(a, b));
    XorLaws(b, 0, 0);
    XorLaws(y, a, Xor(Xor(a, b), b));
    XorLaws(a, b, b);
    XorLaws(y, a, a);
    XorLaws(y, Xor(a, b), Xor(a, b));
    assert S11(Xor(a, b)) == b;
    assert S11(Xor(y, a)) == Xor(a, b) && S11(S11(Xor(y, a))) == b;
    assert Xor(Xor(a, b), b) == a;
  }

  /** Repeating the correction recovers the word from the top down. */
  lemma Inverse7(y: Word)
    ensures var z := Xor(y, S7(y)); Xor(z, S7(Xor(z, S7(Xor(z, S7(Xor(z, S7(z)))))))) == y
    ensures var z := Xor(y, S7(Xor(y, S7(Xor(y, S7(Xor(y, S7(y)))))))); Xor(z, S7(z)) == y
  {
    hide Xor, S7;
    var a := S7(y);
    var b := S7(a);
    var c := S7(b);
    var d := S7(c);
    ShiftsVanish(y);
    Corrects(y, a, b);
    Corrects(y, b, c);
    Corrects(y, c, d);
    Corrects(y, d, 0);
    XorLaws(y, 0, 0);
    Undoes(y);
  }

  /** If the error of an approximation is e, one correction leaves the error S7(e). */
  lemma Corrects(y: Word, e: Word, next: Word)
    requires next == S7(e)
    ensures var z := Xor(y, S7(y)); Xor(z, S7(Xor(y, e))) == Xor(y, next)
  {
    hide Xor, S7;
    ShiftsDistribute(y, e);
    XorLaws(y, S7(y), Xor(S7(y), next));
    XorLaws(S7(y), next, S7(y));
    XorLaws(S7(y), S7(y), next);
    XorLaws(next, 0, 0);
    XorLaws(0, next, next);
  }

  lemma Undoes(y: Word)
    ensures var z := Xor(y, S7(Xor(y, S7(Xor(y, S7(Xor(y, S7(y)))))))); Xor(z, S7(z)) == y
  {
    hide Xor, S7;
    var a := S7(y);
    var b := S7(a);
    var c := S7(b);
    var d := S7(c);
    ShiftsVanish(y);
    var s1 := Xor(y, a);
    ShiftsDistribute(y, a);
    var s2 := Xor(y, S7(s1));
    ShiftsDistribute(a, b);
    ShiftsDistribute(y, S7(s1));
    var s3 := Xor(y, S7(s2));
    ShiftsDistribute(y, S7(s2));
    ShiftsDistribute(b, c);
    ShiftsDistribute(a, S7(S7(s1)));
    var s4 := Xor(y, S7(s3));
    ShiftsDistribute(y, S7(s3));
    ShiftsDistribute(c, d);
    ShiftsDistribute(b, S7(S7(S7(s1))));
    ShiftsDistribute(a, S7(S7(s2)));
    XorLaws(d, 0, 0);
    assert S7(s4) == S7(s3);
    XorLaws(y, S7(s3), S7(s3));
  }

  lemma TemperIsBijection(y: Word)
    ensures Untemper(Temper(y)) == y
    ensures Temper(Untemper(y)) == y
  {
    hide Xor, S11, S7, S15, S18;
    var a := Xor(y, S11(y));
    var b := Xor(a, S7(a));
    var c := Xor(b, S15(b));
    Inverse11(y);
    Inverse7(a);
    Inverse15(b);
    Inverse18(c);
    var e := Xor(y, S18(y));
    var f := Xor(e, S15(e));
    var g := Xor(f, S7(Xor(f, S7(Xor(f, S7(Xor(f, S7(f))))))));
    Inverse18(y);
    Inverse15(e);
    Inverse7(f);
    Inverse11(g);
  }

  /** The generator after some draws. */
  class Generator {
    const mt: array<Word>
    var mti: nat
    ghost var seed: Word
    // index in the sequence of the word in slot 0
    ghost var first: nat
    ghost var drawn: nat

    ghost predicate Valid()
      reads this, mt
    {
      && mt.Length == N && mti <= N
      && (forall i {:trigger mt[i]} :: 0 <= i < N ==> mt[i] == Term(seed, first + i))
      && drawn + N == first + mti
    }

    constructor (s: Word)
      ensures Valid() && seed == s && drawn == 0 && fresh(mt)
    {
      mt := new Word[N];
      new;
      Reseed(s);
    }

    /** Fill the state from a seed, forgetting what was there. */
    method Reseed(s: Word)
      requires mt.Length == N
      modifies this, mt
      ensures Valid() && seed == s && drawn == 0
    {
      hide SeedStep, Twist, Xor;
      mt[0] := s;
      mti := 1;
      while mti < N
        invariant 1 <= mti <= N
        invariant forall i {:trigger mt[i]} :: 0 <= i < mti ==> mt[i] == Term(s, i)
      {
        mt[mti] := SeedStep(mt[mti - 1], mti);
        mti := mti + 1;
      }
      seed, first, drawn := s, 0, 0;
    }

    /** Words before position t are of the next block, the others of this one. */
    ghost predicate Regenerated(t: nat)
      reads this, mt
    {
      && mt.Length == N && t <= N
      && (forall i {:trigger mt[i]} :: 0 <= i < N ==> mt[i] == Term(seed, if i < t then first + N + i else first + i))
    }

    /** Replace the whole block in place by the next one. */
    method Regenerate()
      requires Valid() && mti == N
      modifies this, mt
      ensures Valid() && mti == 0 && seed == old(seed) && drawn == old(drawn)
    {
      hide Term, Twist, Xor;
      var t := 0;
      while t < N - M
        invariant t <= N - M && Regenerated(t) && seed == old(seed) && first == old(first) && drawn == old(drawn)
      {
        NextTerm(seed, first, t);
        mt[t] := Xor(mt[t + M], Twist(mt[t], mt[t + 1]));
        t := t + 1;
      }
      while t < N - 1
        invariant N - M <= t <= N - 1 && Regenerated(t)
        invariant seed == old(seed) && first == old(first) && drawn == old(drawn)
      {
        NextTerm(seed, first, t);
        mt[t] := Xor(mt[t + M - N], Twist(mt[t], mt[t + 1]));
        t := t + 1;
      }
      NextTerm(seed, first, N - 1);
      mt[N - 1] := Xor(mt[M - 1], Twist(mt[N - 1], mt[0]));
      assert Regenerated(N);
      first := first + N;
      mti := 0;
    }

    /** The next output of the sequence. */
    method RandomInt() returns (y: Word)
      requires Valid()
      modifies this, mt
      ensures Valid() && seed == old(seed) && drawn == old(drawn) + 1
      ensures y == Output(seed, old(drawn))
    {
      hide Xor, S11, S7, S15, S18, Term;
      if mti >= N {
        Regenerate();
      }
      y := mt[mti];
      mti := mti + 1;
      y := Xor(y, S11(y));
      y := Xor(y, S7(y));
      y := Xor(y, S15(y));
      y := Xor(y, S18(y));
      drawn := drawn + 1;
    }

    /**
      A draw from the range [begin, end) by rejection. How many words have to
      be drawn is up to the sequence; k is a number of words after which one is accepted.
     */
    method RandomIntRanged(begin: int, end: int, ghost k: nat) returns (r: int)
      requires Valid() && IsInt(begin) && IsInt(end) && Width(begin, end) != 0
      requires Output(seed, drawn + k) as int <= AcceptMax(Width(begin, end))
      modifies this, mt
      ensures Valid() && seed == old(seed)
      ensures old(drawn) < drawn <= old(drawn) + k + 1
      ensures FirstAccepted(seed, old(drawn), drawn - 1, AcceptMax(Width(begin, end)))
      ensures r == ToInt(begin + Output(seed, drawn - 1) as int % Width(begin, end))
      ensures begin < end ==> begin <= r < end
    {
      hide Output, Width, ToInt, AcceptMax;
      var dist := Width(begin, end);
      var max := AcceptBound(dist);
      var ret := DrawUpTo(max, k);
      r := ToInt(begin + ret as int % dist);
      if begin < end {
        InRange(begin, end, ret as int);
      }
    }

    /** The rejection loop. */
    method DrawUpTo(max: int, ghost k: nat) returns (ret: Word)
      requires Valid() && Output(seed, drawn + k) as int <= max
      modifies this, mt
      ensures Valid() && seed == old(seed) && old(drawn) < drawn <= old(drawn) + k + 1
      ensures ret == Output(seed, drawn - 1) && FirstAccepted(seed, old(drawn), drawn - 1, max)
    {
      hide Output;
      ret := RandomInt();
      while ret as int > max
        invariant Valid() && seed == old(seed) && old(drawn) < drawn <= old(drawn) + k + 1
        invariant ret == Output(seed, drawn - 1)
        invariant AllRejected(seed, old(drawn), drawn - 1, max)
        decreases old(drawn) + k - drawn
      {
        ret := RandomInt();
      }
    }
  }

  /** The bound of the accepted words, computed without leaving 32 bits. */
  method AcceptBound(dist: nat) returns (max: int)
    requires 0 < dist < 0x1_0000_0000
    ensures max == AcceptMax(dist)
  {
    if dist <= 0x8000_0000 {
      HalfRemainder(dist);
      var remain := 0x8000_0000 % dist * 2;
      assert remain < 0x1_0000_0000;
      if remain >= dist {
        remain := remain - dist;
      }
      max := 0xFFFF_FFFF - remain;
    } else {
      Remainder(1, dist, 0x1_0000_0000, 0x1_0000_0000 - dist);
      max := dist - 1;
    }
    assert 0 <= max < 0x1_0000_0000;
  }

  predicate IsInt(i: int) {
    -0x8000_0000 <= i < 0x8000_0000
  }

  /** The width of a range in unsigned arithmetic. */
  function Width(begin: int, end: int): (w: nat)
    ensures w < 0x1_0000_0000 && (end - begin - w) % 0x1_0000_0000 == 0
  {
    (end - begin) % 0x1_0000_0000
  }

  /** The largest accepted word: the accepted ones are as many as fill whole widths. */
  function AcceptMax(dist: nat): int
    requires 0 < dist < 0x1_0000_0000
  {
    0x1_0000_0000 - 0x1_0000_0000 % dist - 1
  }

  ghost predicate AllRejected(seed: Word, from: nat, to: nat, max: int) {
    forall m: nat {:trigger Output(seed, m)} :: from <= m < to ==> Output(seed, m) as int > max
  }

  /** Of the words from a position on, this is the first one not above the bound. */
  ghost predicate FirstAccepted(seed: Word, from: nat, at: nat, max: int) {
    from <= at && Output(seed, at) as int <= max && AllRejected(seed, from, at, max)
  }

  /** The remainder of 2^32 from that of 2^31. */
  lemma HalfRemainder(dist: nat)
    requires 0 < dist <= 0x8000_0000
    ensures var remain := 0x8000_0000 % dist * 2;
            remain < 0x1_0000_0000 && 0x1_0000_0000 % dist == if remain >= dist then remain - dist else remain
  {
    var q, m := 0x8000_0000 / dist, 0x8000_0000 % dist;
    var wrap := if m * 2 >= dist then 1 else 0;
    Remainder(2 * q + wrap, dist, 0x1_0000_0000, m * 2 - wrap * dist);
  }

  /** The accepted words are the largest multiple of the width that fits 32 bits, and more than half of all words. */
  lemma AcceptedIsLargestMultiple(dist: nat)
    requires 0 < dist < 0x1_0000_0000
    ensures 0x8000_0000 <= AcceptMax(dist) + 1 <= 0x1_0000_0000
    ensures (AcceptMax(dist) + 1) % dist == 0 && AcceptMax(dist) + 1 + dist > 0x1_0000_0000
  {
    var t := 0x1_0000_0000;
    Divides(t / dist, dist, AcceptMax(dist) + 1);
    if dist > 0x8000_0000 { Remainder(1, dist, t, t - dist); }
  }

  lemma Divides(q: int, dist: int, v: int)
    requires dist > 0 && v == q * dist
    ensures v % dist == 0
  {
    Remainder(q, dist, v, 0);
  }

  lemma Remainder(q: int, dist: int, v: int, r: int)
    requires dist > 0 && v == q * dist + r && 0 <= r < dist
    ensures v % dist == r && v / dist == q
  {
    var k := v / dist - q;
    assert k * dist == r - v % dist;
    if k >= 1 { Times(k, dist); } else if k <= -1 { Times(-k, dist); }
  }

  lemma Times(k: int, dist: int)
    requires k >= 1 && dist > 0
    ensures k * dist >= dist
  {
  }

  /** Accepted words with a given result. */
  ghost function Preimages(dist: nat, r: nat, bound: int): (s: set<int>)
    requires dist > 0
  {
    set y | 0 <= y < bound && y % dist == r
  }

  lemma {:induction false} PreimageCount(dist: nat, r: nat, q: nat)
    requires r < dist
    ensures |Preimages(dist, r, q * dist)| == q
  {
    if q == 0 {
      assert 0 * dist == 0 && Preimages(dist, r, 0) == {};
    } else {
      hide Preimages;
      PreimageCount(dist, r, q - 1);
      PreimageNext(dist, r, q - 1);
    }
  }

  lemma PreimageNext(dist: nat, r: nat, q: nat)
    requires r < dist
    ensures Preimages(dist, r, (q + 1) * dist) == Preimages(dist, r, q * dist) + {q * dist + r}
    ensures q * dist + r !in Preimages(dist, r, q * dist)
  {
    var y := q * dist + r;
    assert (q + 1) * dist == q * dist + dist;
    Remainder(q, dist, y, r);
    forall z | z in Preimages(dist, r, (q + 1) * dist) ensures z in Preimages(dist, r, q * dist) || z == y {
      if z >= q * dist {
        Remainder(q, dist, z, z - q * dist);
      }
    }
  }

  /** Every result of the range has equally many accepted words. */
  lemma ResultsEquallyLikely(dist: nat, r: nat)
    requires 0 < dist < 0x1_0000_0000 && r < dist
    ensures |Preimages(dist, r, AcceptMax(dist) + 1)| == (AcceptMax(dist) + 1) / dist
  {
    AcceptedIsLargestMultiple(dist);
    var q := (AcceptMax(dist) + 1) / dist;
    assert AcceptMax(dist) + 1 == q * dist;
    PreimageCount(dist, r, q);
  }

  /** An offset inside a proper range does not wrap. */
  lemma InRange(begin: int, end: int, y: int)
    requires IsInt(begin) && IsInt(end) && begin < end
    ensures Width(begin, end) == end - begin
    ensures begin <= ToInt(begin + y % Width(begin, end)) < end
  {
    var o := y % (end - begin);
    assert 0 <= o < end - begin;
  }

  lemma NextTerm(seed: Word, first: nat, t: nat)
    ensures Term(seed, first + N + t) ==
            Xor(Term(seed, first + t + M), Twist(Term(seed, first + t), Term(seed, first + t + 1)))
  {
    hide Xor, Twist;
  }
}
