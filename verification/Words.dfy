/** 32-bit words and the numbers they stand for. */
module Words {
  type Word = bv32

  const WORDS: int := 0x1_0000_0000

  /** The number a word stands for. */
  function Value(w: Word): (v: int)
    ensures 0 <= v < WORDS
  {
    w as int
  }

  ghost function Wide(w: bv33): int {
    w as int
  }

  lemma SumWide(a: Word, b: Word)
    ensures Wide((a as bv33) + (b as bv33)) == Value(a) + Value(b)
  {
  }

  lemma CarryWide(carry: bv1, low: Word)
    ensures Wide(((carry as bv33) << 32) | (low as bv33)) == WORDS * (carry as int) + Value(low)
  {
  }

  lemma Carry(a: Word, b: Word) returns (carry: bv1)
    ensures (a as bv33) + (b as bv33) == ((carry as bv33) << 32) | ((a + b) as bv33)
  {
    carry := (((a as bv33) + (b as bv33)) >> 32) as bv1;
  }

  lemma Reduced(q: int, v: int, n: int)
    requires n == WORDS * q + v && 0 <= v < WORDS
    ensures v == n % WORDS
  {
  }

  /** Adding words adds their numbers, modulo 2 to the 32. */
  lemma SumIs(a: Word, b: Word)
    ensures Value(a + b) == (Value(a) + Value(b)) % WORDS
  {
    hide *;
    var carry := Carry(a, b);
    SumWide(a, b);
    CarryWide(carry, a + b);
    Reduced(carry as int, Value(a + b), Value(a) + Value(b));
  }

  /** Counting up from zero reaches every number a word can hold. */
  ghost function Counted(n: nat): Word {
    if n == 0 then 0 else Counted(n - 1) + 1
  }

  lemma CountedUnfolds(n: nat)
    ensures Counted(n) == if n == 0 then 0 else Counted(n - 1) + 1
  {
  }

  lemma {:induction false} CountedIs(n: nat)
    requires n < WORDS
    ensures Value(Counted(n)) == n
  {
    hide *;
    CountedUnfolds(n);
    Zero();
    if n > 0 {
      CountedIs(n - 1);
      SumIs(Counted(n - 1), 1);
      One();
    }
  }

  lemma Zero()
    ensures Value(0) == 0
  {
  }

  lemma One()
    ensures Value(1) == 1
  {
  }

  lemma ThereAndBack(w: Word)
    ensures Value(w) as Word == w
  {
  }

  /** A number that fits is the number of its word. */
  lemma WordIs(n: nat)
    requires n < WORDS
    ensures Value(n as Word) == n
  {
    CountedIs(n);
    ThereAndBack(Counted(n));
  }
}
