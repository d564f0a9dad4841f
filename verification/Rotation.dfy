/**
  Exchanging two adjacent blocks by cycles of swaps: the arithmetic of the
  cycles, and what each swap achieves, on sequences.
 */
module Rotation {

  /** d is the greatest common divisor: it divides both numbers and is a combination of them. */
  ghost predicate IsGcd(d: int, a: int, b: int, x: int, y: int) {
    && d > 0
    && a % d == 0 && b % d == 0
    && x * a + y * b == d
  }

  // Facts about products.

  lemma MulBounds(g: int, z: int)
    requires g > 0
    ensures z >= 1 ==> g * z >= g
    ensures z <= -1 ==> g * z <= -g
    ensures z > 0 <==> g * z > 0
  {
  }

  lemma MulSub(p: int, q: int, n: int)
    ensures (p - q) * n == p * n - q * n
    ensures n * (p - q) == n * p - n * q
  {
  }

  lemma MulAdd(p: int, q: int, n: int)
    ensures (p + q) * n == p * n + q * n
    ensures n * (p + q) == n * p + n * q
  {
  }

  lemma MulSwap(d: int, g: int, b: int)
    ensures d * (g * b) == g * (d * b)
    ensures (g * b) * d == g * (b * d)
  {
  }

  lemma Cancel(g: int, p: int, q: int)
    requires g > 0 && g * p == g * q
    ensures p == q
  {
    MulSub(p, q, g);
    MulBounds(g, p - q);
  }

  lemma Multiple(e: int, k: int)
    requires e > 0
    ensures (e * k) % e == 0 && (e * k) / e == k
  {
    var m := e * k;
    MulSub(k, m / e, e);
    MulBounds(e, k - m / e);
  }

  lemma Residue(g: int, s: int, i: int)
    requires 0 <= i < g
    ensures (i + g * s) % g == i
  {
    var m := i + g * s;
    MulSub(m / g, s, g);
    MulBounds(g, m / g - s);
  }

  /** The algorithm of Euclid; the combination is kept for the proofs. */
  method Gcd(a0: nat, b0: nat) returns (d: nat, ghost x: int, ghost y: int)
    requires b0 > 0
    ensures IsGcd(d, a0, b0, x, y)
  {
    var a, b := a0, b0;
    // a and b as combinations of the inputs
    ghost var ax, az, bx, bz := 1, 0, 0, 1;
    var c := a % b;
    while c != 0
      invariant b > 0 && c == a % b
      invariant ax * a0 + az * b0 == a && bx * a0 + bz * b0 == b
      invariant forall e: nat {:trigger Divides(e, a)} :: Divides(e, a) && Divides(e, b) ==>
                Divides(e, a0) && Divides(e, b0)
      decreases b
    {
      ghost var q := a / b;
      ghost var cx, cz := ax - q * bx, az - q * bz;
      Remainder(ax, az, bx, bz, a0, b0, a, b);
      forall e: nat | Divides(e, b) && Divides(e, c) ensures Divides(e, a) {
        DividesBack(a, b, e);
      }
      a, b := b, c;
      ax, az, bx, bz := bx, bz, cx, cz;
      c := a % b;
    }
    d, x, y := b, bx, bz;
    assert Divides(d, a) && Divides(d, b);
  }

  ghost predicate Divides(e: nat, a: nat) {
    e > 0 && a % e == 0
  }

  lemma Remainder(ax: int, az: int, bx: int, bz: int, a0: int, b0: int, a: int, b: int)
    requires b > 0 && ax * a0 + az * b0 == a && bx * a0 + bz * b0 == b
    ensures (ax - a / b * bx) * a0 + (az - a / b * bz) * b0 == a % b
  {
    var q := a / b;
    calc {
      (ax - q * bx) * a0 + (az - q * bz) * b0;
      { MulSub(ax, q * bx, a0); MulSub(az, q * bz, b0); }
      ax * a0 - (q * bx) * a0 + az * b0 - (q * bz) * b0;
      { MulSwap(a0, q, bx); MulSwap(b0, q, bz); }
      a - q * (bx * a0) - q * (bz * b0);
      { MulAdd(bx * a0, bz * b0, q); }
      a - q * b;
    }
  }

  lemma DividesBack(a: nat, b: nat, e: nat)
    requires b > 0 && Divides(e, b) && Divides(e, a % b)
    ensures Divides(e, a)
  {
    var q, r := a / b, a % b;
    calc {
      a;
      q * (e * (b / e)) + e * (r / e);
      { MulSwap(q, e, b / e); MulAdd(q * (b / e), r / e, e); }
      e * (q * (b / e) + r / e);
    }
    Multiple(e, q * (b / e) + r / e);
  }

  /** A divisor of both numbers divides the combination, so it is no greater: the result is the greatest. */
  lemma GreatestDivisor(d: nat, a: nat, b: nat, x: int, y: int, e: nat)
    requires IsGcd(d, a, b, x, y) && Divides(e, a) && Divides(e, b)
    ensures e <= d
  {
    var p, q := a / e, b / e;
    MulSwap(x, e, p);
    MulSwap(y, e, q);
    MulAdd(x * p, y * q, e);
    assert d == e * (x * p + y * q);
    MulBounds(e, x * p + y * q);
  }

  // The cycles. Positions are relative to the first block, which has a elements; the second has b.

  datatype Blocks = Blocks(a: nat, b: nat, g: nat, x: int, y: int)

  ghost predicate Good(k: Blocks) {
    k.a > 0 && k.b > 0 && k.g > 0 && IsGcd(k.g, k.a, k.b, k.x, k.y)
  }

  function Next(k: Blocks, p: int): int {
    if p >= k.a then p - k.a else p + k.b
  }

  /** The position reached from the start of cycle i after j steps. */
  ghost function Pos(k: Blocks, i: int, j: nat): int {
    if j == 0 then k.a + i else Next(k, Pos(k, i, j - 1))
  }

  ghost function CycleLen(k: Blocks): int
    requires k.g > 0
  {
    (k.a + k.b) / k.g
  }

  /** Lengths in units of the common divisor. */
  lemma Units(k: Blocks) returns (a1: int, b1: int)
    requires Good(k)
    ensures k.a == k.g * a1 && k.b == k.g * b1 && a1 > 0 && b1 > 0
    ensures CycleLen(k) == a1 + b1 && k.a + k.b == k.g * (a1 + b1)
    ensures k.x * a1 + k.y * b1 == 1
    ensures k.b >= k.g
  {
    a1, b1 := k.a / k.g, k.b / k.g;
    MulAdd(a1, b1, k.g);
    Multiple(k.g, a1 + b1);
    MulBounds(k.g, a1);
    MulBounds(k.g, b1);
    MulSwap(k.x, k.g, a1);
    MulSwap(k.y, k.g, b1);
    MulAdd(k.x * a1, k.y * b1, k.g);
    Cancel(k.g, k.x * a1 + k.y * b1, 1);
  }

  /** Steps add the length of the second block modulo the whole length; in units. */
  lemma {:induction false} PosForm(k: Blocks, a1: int, b1: int, i: int, j: nat) returns (s: int, c: int)
    requires k.g > 0 && k.a == k.g * a1 && k.b == k.g * b1 && a1 > 0 && b1 > 0 && 0 <= i < k.g
    ensures Pos(k, i, j) == i + k.g * s && 0 <= s < a1 + b1
    ensures s == a1 + j * b1 - c * (a1 + b1)
  {
    if j == 0 {
      s, c := a1, 0;
    } else {
      s, c := PosForm(k, a1, b1, i, j - 1);
      MulSub(j, 1, b1);
      UnitsCompare(k.g, i, s, a1);
      if Pos(k, i, j - 1) >= k.a {
        MulSub(s, a1, k.g);
        MulAdd(c, 1, a1 + b1);
        s, c := s - a1, c + 1;
      } else {
        MulAdd(s, b1, k.g);
        s := s + b1;
      }
    }
  }

  lemma UnitsCompare(g: int, i: int, s: int, a1: int)
    requires 0 <= i < g
    ensures i + g * s >= g * a1 <==> s >= a1
  {
    MulSub(s, a1, g);
    MulBounds(g, s - a1);
  }

  /** Each position belongs to the cycle of its residue, and to no other. */
  lemma PosResidue(k: Blocks, i: int, j: nat)
    requires Good(k) && 0 <= i < k.g
    ensures 0 <= Pos(k, i, j) < k.a + k.b && Pos(k, i, j) % k.g == i
  {
    var a1, b1 := Units(k);
    var s, c := PosForm(k, a1, b1, i, j);
    Residue(k.g, s, i);
    UnitsCompare(k.g, i, s, 0);
    UnitsCompare(k.g, i, s, a1 + b1);
  }

  /** The positions of one cycle, up to its length, are different. */
  lemma PosDistinct(k: Blocks, i: int, j: nat, m: nat)
    requires Good(k) && 0 <= i < k.g && j < m < j + CycleLen(k)
    ensures Pos(k, i, j) != Pos(k, i, m)
  {
    var a1, b1 := Units(k);
    var len, d := a1 + b1, m - j;
    var s, c := PosForm(k, a1, b1, i, j);
    var r, e := PosForm(k, a1, b1, i, m);
    if Pos(k, i, j) == Pos(k, i, m) {
      hide IsGcd, Pos;
      var t := e - c;
      Cancel(k.g, s, r);
      MulSub(m, j, b1);
      MulSub(e, c, len);
      LengthDivides(k.x, k.y, a1, b1, d, t);
      MulBounds(len, d * k.x + (k.y - k.x) * t);
    }
  }

  lemma LengthDivides(x: int, y: int, a1: int, b1: int, d: int, t: int)
    requires x * a1 + y * b1 == 1 && d * b1 == t * (a1 + b1)
    ensures d == (a1 + b1) * (d * x + (y - x) * t)
  {
    var len := a1 + b1;
    calc {
      len * (d * x + (y - x) * t);
      { MulAdd(d * x, (y - x) * t, len); MulSwap(y - x, t, len); MulSwap(len, y - x, t); }
      len * (d * x) + (y - x) * (t * len);
      len * (d * x) + (y - x) * (d * b1);
      { MulSwap(len, d, x); MulSwap(y - x, d, b1); MulSwap(y, d, b1); }
      d * (len * x) + d * ((y - x) * b1);
      { MulAdd(len * x, (y - x) * b1, d); MulSub(y, x, b1); MulAdd(a1, b1, x); }
      d * (a1 * x + b1 * x + (y * b1 - x * b1));
      d;
    }
  }

  /** Every position is reached in its cycle. */
  lemma PosCovers(k: Blocks, q: int) returns (j: nat)
    requires Good(k) && 0 <= q < k.a + k.b
    ensures j < CycleLen(k) && Pos(k, q % k.g, j) == q
  {
    var a1, b1 := Units(k);
    var u := UnitOf(q, k.g, a1 + b1);
    var z;
    j, z := ReachUnit(k.x, k.y, a1, b1, u);
    var s, c := PosForm(k, a1, b1, q % k.g, j);
    hide IsGcd, Pos;
    SameUnit(a1, b1, j, s, c, u, z);
  }

  lemma UnitOf(q: int, g: int, len: int) returns (u: int)
    requires g > 0 && 0 <= q < g * len
    ensures 0 <= u < len && q == q % g + g * u
  {
    u := q / g;
    UnitsCompare(g, q % g, u, 0);
    UnitsCompare(g, q % g, u, len);
  }

  lemma ReachUnit(x: int, y: int, a1: int, b1: int, u: int) returns (j: nat, z: int)
    requires x * a1 + y * b1 == 1 && a1 > 0 && b1 > 0
    ensures j < a1 + b1 && u - a1 == j * b1 + (a1 + b1) * z
  {
    var e, w;
    e, j, w := StepsTo(a1, b1, u, y - x);
    StepsReach(x, y, a1, b1, e, j, w);
    z := e * x + w * b1;
  }

  lemma SameUnit(a1: int, b1: int, j: int, s: int, c: int, u: int, z: int)
    requires 0 <= s < a1 + b1 && 0 <= u < a1 + b1
    requires s == a1 + j * b1 - c * (a1 + b1) && u - a1 == j * b1 + (a1 + b1) * z
    ensures s == u
  {
    MulAdd(z, c, a1 + b1);
    MulBounds(a1 + b1, z + c);
  }

  lemma StepsTo(a1: int, b1: int, s: int, f: int) returns (e: int, j: nat, w: int)
    requires a1 > 0 && b1 > 0
    ensures e == s - a1 && j < a1 + b1 && e * f == j + (a1 + b1) * w
  {
    e := s - a1;
    var steps := e * f;
    j, w := steps % (a1 + b1), steps / (a1 + b1);
  }

  lemma StepsReach(x: int, y: int, a1: int, b1: int, e: int, j: int, w: int)
    requires x * a1 + y * b1 == 1 && e * (y - x) == j + (a1 + b1) * w
    ensures e == j * b1 + (a1 + b1) * (e * x + w * b1)
  {
    var len := a1 + b1;
    calc {
      j * b1 + len * (e * x + w * b1);
      { MulAdd(e * x, w * b1, len); MulSwap(len, w, b1); MulSwap(b1, len, w); }
      j * b1 + len * (e * x) + (len * w) * b1;
      { MulAdd(j, len * w, b1); }
      (j + len * w) * b1 + len * (e * x);
      (e * (y - x)) * b1 + len * (e * x);
      { MulSwap(b1, e, y - x); MulSwap(len, e, x); }
      e * ((y - x) * b1) + e * (len * x);
      { MulAdd((y - x) * b1, len * x, e); MulSub(y, x, b1); MulAdd(a1, b1, x); }
      e * (y * b1 - x * b1 + (a1 * x + b1 * x));
      e;
    }
  }

  /** The whole length of steps leads back to the start. */
  lemma PosCloses(k: Blocks, i: int)
    requires Good(k) && 0 <= i < k.g
    ensures CycleLen(k) > 1 && Pos(k, i, CycleLen(k)) == k.a + i
  {
    var a1, b1 := Units(k);
    var s, c := PosForm(k, a1, b1, i, a1 + b1);
    MulSub(b1, c, a1 + b1);
    MulBounds(a1 + b1, b1 - c);
  }
}
