/** Exchanging two adjacent blocks of an argument vector in place. */
module Permute {
  import opened Rotation
  import opened Sequences

  /** The cycle a position is on. */
  ghost function Class(k: Blocks, q: int): int
    requires k.g > 0
  {
    q % k.g
  }

  /** The argument at position q has gone where it belongs: its block goes to the other end. */
  ghost predicate Placed<T>(k: Blocks, was: seq<T>, now: seq<T>, q: int)
    requires |was| == |now| == k.a + k.b && 0 <= q < k.a + k.b
  {
    now[Next(k, q)] == was[q]
  }

  /** Cycles before the i-th are done, the others untouched. */
  ghost predicate CyclesDone<T>(k: Blocks, was: seq<T>, now: seq<T>, i: int) {
    && |was| == |now| == k.a + k.b && k.g > 0
    && (forall q {:trigger Placed(k, was, now, q)} :: 0 <= q < k.a + k.b && Class(k, q) < i ==> Placed(k, was, now, q))
    && (forall q {:trigger now[q]} :: 0 <= q < k.a + k.b && Class(k, q) >= i ==> now[q] == was[q])
  }

  /** Each position of a path leads to the next, the last to the first. */
  ghost predicate Steps(path: seq<int>, k: Blocks) {
    && |path| > 1
    && (forall m {:trigger StepOk(path, k, m)} :: 0 <= m < |path| ==> StepOk(path, k, m))
  }

  ghost predicate StepOk(path: seq<int>, k: Blocks, m: int)
    requires 0 <= m < |path|
  {
    0 <= path[m] < k.a + k.b && Next(k, path[m]) == path[Around(m, |path|)]
  }

  /** The path of cycle i: different positions, all of the class of i and no others. */
  ghost predicate PathOf(path: seq<int>, k: Blocks, i: int) {
    && Steps(path, k) && Distinct(path) && path[0] == k.a + i && k.g > 0
    && (forall q {:trigger q in path} :: 0 <= q < k.a + k.b ==> (q in path <==> Class(k, q) == i))
  }

  ghost function Around(m: int, n: int): int {
    if m + 1 < n then m + 1 else 0
  }

  ghost function PathSeq(k: Blocks, i: int): (path: seq<int>)
    requires Good(k) && 0 <= i < k.g
    ensures PathOf(path, k, i) && |path| == CycleLen(k)
  {
    PosCloses(k, i);
    var path := seq(CycleLen(k), m requires 0 <= m => Pos(k, i, m));
    PathIs(path, k, i);
    path
  }

  lemma PathIs(path: seq<int>, k: Blocks, i: int)
    requires Good(k) && 0 <= i < k.g && |path| == CycleLen(k)
    requires forall m {:trigger path[m]} :: 0 <= m < |path| ==> path[m] == Pos(k, i, m)
    ensures PathOf(path, k, i)
  {
    hide IsGcd, CycleLen;
    PosCloses(k, i);
    var len := CycleLen(k);
    forall m, n {:trigger Differ(path, m, n)} | 0 <= m < n < len ensures Differ(path, m, n) {
      PosDistinct(k, i, m, n);
    }
    forall m {:trigger StepOk(path, k, m)} | 0 <= m < len ensures StepOk(path, k, m) {
      PosResidue(k, i, m);
      assert Next(k, Pos(k, i, m)) == Pos(k, i, m + 1);
    }
    forall q {:trigger q in path} | 0 <= q < k.a + k.b ensures q in path <==> Class(k, q) == i {
      if q in path {
        var m :| 0 <= m < len && path[m] == q;
        PosResidue(k, i, m);
      }
      if Class(k, q) == i {
        var j := PosCovers(k, q);
        assert path[j] == q;
      }
    }
  }

  ghost predicate InBounds(path: seq<int>, n: int) {
    forall m {:trigger path[m]} :: 0 <= m < |path| ==> 0 <= path[m] < n
  }

  /** The first j swaps of a cycle are done: what was reached moved on, and the start holds what is still to go. */
  ghost predicate SwapsDone<T>(path: seq<int>, n: int, was: seq<T>, now: seq<T>, j: nat) {
    && |was| == |now| == n && |path| > 1 && j <= |path|
    && InBounds(path, n)
    && (forall m {:trigger SwapAt(path, was, now, j, m)} :: 1 <= m < |path| ==> SwapAt(path, was, now, j, m))
    && now[path[0]] == was[path[if j < |path| then j else j - 1]]
    && (forall q {:trigger now[q]} :: 0 <= q < n && q !in path ==> now[q] == was[q])
  }

  ghost predicate SwapAt<T>(path: seq<int>, was: seq<T>, now: seq<T>, j: nat, m: int)
    requires 1 <= m < |path| && |was| == |now| && InBounds(path, |now|)
  {
    now[path[m]] == was[path[if m <= j then m - 1 else m]]
  }

  /** The next swap. */
  lemma NextSwap<T>(path: seq<int>, n: int, was: seq<T>, now: seq<T>, j: nat)
    requires SwapsDone(path, n, was, now, j) && j < |path| && Distinct(path)
    ensures var pos, start := path[Around(j, |path|)], path[0];
            SwapsDone(path, n, was, now[pos := now[start]][start := now[pos]], j + 1)
  {
    var c := Around(j, |path|);
    var pos, start := path[c], path[0];
    var next := now[pos := now[start]][start := now[pos]];
    Unique(path, c);
    Unique(path, 0);
    hide Distinct;
    forall m {:trigger SwapAt(path, was, next, j + 1, m)} | 1 <= m < |path| ensures SwapAt(path, was, next, j + 1, m) {
      assert SwapAt(path, was, now, j, m);
      if m == c {
        assert next[path[m]] == now[start];
      } else {
        assert path[m] != pos && path[m] != start;
        assert next[path[m]] == now[path[m]];
      }
    }
    assert next[start] == now[pos];
    if c != 0 { assert SwapAt(path, was, now, j, c); }
  }

  /** All swaps of a cycle. */
  lemma CycleDone<T>(k: Blocks, path: seq<int>, was: seq<T>, before: seq<T>, now: seq<T>, i: int)
    requires Good(k) && CyclesDone(k, was, before, i) && PathOf(path, k, i)
    requires SwapsDone(path, k.a + k.b, before, now, |path|)
    ensures CyclesDone(k, was, now, i + 1)
  {
    forall q {:trigger Placed(k, was, now, q)} | 0 <= q < |now| && Class(k, q) < i + 1 ensures Placed(k, was, now, q) {
      PlacedByCycle(k, path, was, before, now, i, q);
    }
    hide IsGcd, Next, Class, Placed, Distinct, Steps;
    forall q {:trigger now[q]} | 0 <= q < |now| && Class(k, q) >= i + 1 ensures now[q] == was[q] {
      assert q !in path;
      assert before[q] == was[q];
    }
  }

  lemma PlacedByCycle<T>(k: Blocks, path: seq<int>, was: seq<T>, before: seq<T>, now: seq<T>, i: int, q: int)
    requires Good(k) && CyclesDone(k, was, before, i) && PathOf(path, k, i)
    requires SwapsDone(path, k.a + k.b, before, now, |path|)
    requires 0 <= q < k.a + k.b && Class(k, q) < i + 1
    ensures Placed(k, was, now, q)
  {
    NextClass(k, q);
    hide IsGcd, Next, Class, PathOf, SwapsDone, CyclesDone;
    var r := Next(k, q);
    OfClass(path, k, i, q);
    OfClass(path, k, i, r);
    if Class(k, q) == i {
      MovedOn(path, k, before, now, q);
      StillThere(k, was, before, i, q);
    } else {
      assert now[r] == before[r] by { LeftAlone(path, k, before, now, r); }
      AlreadyPlaced(k, was, before, i, q);
    }
  }

  lemma OfClass(path: seq<int>, k: Blocks, i: int, q: int)
    requires PathOf(path, k, i) && 0 <= q < k.a + k.b
    ensures q in path <==> Class(k, q) == i
    ensures Steps(path, k)
  {
  }

  lemma MovedOn<T>(path: seq<int>, k: Blocks, before: seq<T>, now: seq<T>, q: int)
    requires SwapsDone(path, k.a + k.b, before, now, |path|) && Steps(path, k) && q in path
    ensures 0 <= q < |now| && 0 <= Next(k, q) < |now| && now[Next(k, q)] == before[q]
  {
    hide Next, Distinct;
    var m :| 0 <= m < |path| && path[m] == q;
    var n := Around(m, |path|);
    assert StepOk(path, k, m) && StepOk(path, k, n);
    if n != 0 { assert SwapAt(path, before, now, |path|, n); }
  }

  lemma LeftAlone<T>(path: seq<int>, k: Blocks, before: seq<T>, now: seq<T>, r: int)
    requires SwapsDone(path, k.a + k.b, before, now, |path|) && 0 <= r < k.a + k.b && r !in path
    ensures now[r] == before[r]
  {
  }

  lemma StillThere<T>(k: Blocks, was: seq<T>, before: seq<T>, i: int, q: int)
    requires CyclesDone(k, was, before, i) && 0 <= q < k.a + k.b && Class(k, q) == i
    ensures before[q] == was[q]
  {
  }

  lemma AlreadyPlaced<T>(k: Blocks, was: seq<T>, before: seq<T>, i: int, q: int)
    requires CyclesDone(k, was, before, i) && 0 <= q < k.a + k.b && Class(k, q) < i
    ensures Placed(k, was, before, q)
  {
  }

  lemma NextClass(k: Blocks, q: int)
    requires Good(k) && 0 <= q < k.a + k.b
    ensures 0 <= Next(k, q) < k.a + k.b && Class(k, Next(k, q)) == Class(k, q)
  {
    var j := PosCovers(k, q);
    ClassBelow(k, q);
    PosResidue(k, q % k.g, j + 1);
    assert Pos(k, q % k.g, j + 1) == Next(k, q);
  }

  lemma ClassBelow(k: Blocks, q: int)
    requires k.g > 0
    ensures 0 <= Class(k, q) < k.g
  {
  }

  /** All cycles: the blocks are exchanged, each in its old order. */
  lemma BlocksExchanged<T>(k: Blocks, was: seq<T>, now: seq<T>)
    requires Good(k) && CyclesDone(k, was, now, k.g)
    ensures now == was[k.a..] + was[..k.a]
  {
    hide IsGcd, Class;
    forall p | 0 <= p < k.a + k.b ensures now[p] == (was[k.a..] + was[..k.a])[p] {
      var q := if p < k.b then p + k.a else p - k.b;
      ClassBelow(k, q);
      assert Placed(k, was, now, q);
    }
  }

  // The loops as functions on the two blocks.

  ghost function Exchange<T>(s: seq<T>, p: int, q: int): (r: seq<T>)
    ensures |r| == |s|
  {
    if 0 <= p < |s| && 0 <= q < |s| then s[p := s[q]][q := s[p]] else s
  }

  ghost function Swapped<T>(s: seq<T>, path: seq<int>, j: nat): (r: seq<T>)
    ensures |r| == |s|
  {
    if j == 0 || j > |path| then s
    else Exchange(Swapped(s, path, j - 1), path[Around(j - 1, |path|)], path[0])
  }

  lemma {:induction false} SwappedIs<T>(s: seq<T>, path: seq<int>, j: nat)
    requires |path| > 1 && Distinct(path) && j <= |path| && InBounds(path, |s|)
    ensures SwapsDone(path, |s|, s, Swapped(s, path, j), j)
  {
    if j > 0 {
      SwappedIs(s, path, j - 1);
      hide SwapsDone, Distinct;
      NextSwap(path, |s|, s, Swapped(s, path, j - 1), j - 1);
    }
  }

  ghost function Cycled<T>(k: Blocks, s: seq<T>, i: nat): (r: seq<T>)
    requires Good(k) && i <= k.g
    ensures |r| == |s|
  {
    if i == 0 then s else
      var path := PathSeq(k, i - 1);
      Swapped(Cycled(k, s, i - 1), path, |path|)
  }

  lemma {:induction false} CycledIs<T>(k: Blocks, s: seq<T>, i: nat)
    requires Good(k) && |s| == k.a + k.b && i <= k.g
    ensures CyclesDone(k, s, Cycled(k, s, i), i)
  {
    hide IsGcd, CyclesDone, PathOf, CycleLen, Swapped;
    if i > 0 {
      CycledIs(k, s, i - 1);
      CycledNext(k, s, Cycled(k, s, i - 1), PathSeq(k, i - 1), i - 1);
    } else {
      NoneDone(k, s);
    }
  }

  lemma CycledNext<T>(k: Blocks, s: seq<T>, before: seq<T>, path: seq<int>, i: int)
    requires Good(k) && CyclesDone(k, s, before, i) && PathOf(path, k, i) && |before| == k.a + k.b
    ensures CyclesDone(k, s, Swapped(before, path, |path|), i + 1)
  {
    hide IsGcd, CyclesDone, SwapsDone, Swapped, Distinct, PathOf, Steps, InBounds;
    PathBounds(path, k, i);
    SwappedIs(before, path, |path|);
    CycleDone(k, path, s, before, Swapped(before, path, |path|), i);
  }

  lemma PathBounds(path: seq<int>, k: Blocks, i: int)
    requires PathOf(path, k, i)
    ensures |path| > 1 && Distinct(path) && InBounds(path, k.a + k.b) && Steps(path, k)
  {
    hide Distinct;
    forall m {:trigger path[m]} | 0 <= m < |path| ensures 0 <= path[m] < k.a + k.b {
      assert StepOk(path, k, m);
    }
  }

  lemma NoneDone<T>(k: Blocks, s: seq<T>)
    requires Good(k) && |s| == k.a + k.b
    ensures CyclesDone(k, s, s, 0)
  {
    hide IsGcd, Class;
    forall q ensures Class(k, q) >= 0 { ClassBelow(k, q); }
  }

  /** All cycles together exchange the blocks. */
  lemma CycledExchanges<T>(k: Blocks, s: seq<T>)
    requires Good(k) && |s| == k.a + k.b
    ensures Cycled(k, s, k.g) == s[k.a..] + s[..k.a]
  {
    hide IsGcd, CyclesDone, Cycled;
    CycledIs(k, s, k.g);
    BlocksExchanged(k, s, Cycled(k, s, k.g));
  }

  // The loops. The vector is pre + x + post, and only x changes.

  ghost function Around3<T>(pre: seq<T>, x: seq<T>, post: seq<T>): seq<T> {
    pre + x + post
  }

  /** One more swap, seen in the whole vector. */
  lemma SwappedStep<T>(pre: seq<T>, x: seq<T>, post: seq<T>, k: Blocks, path: seq<int>, j: nat)
    requires Steps(path, k) && j < |path| && |x| == k.a + k.b
    ensures var n := Around(j, |path|);
            && 0 <= n < |path| && 0 <= path[j] < |x| && 0 <= path[n] < |x| && 0 <= path[0] < |x|
            && path[n] == (if path[j] >= k.a then path[j] - k.a else path[j] + k.b)
            && (var r, p, q := Around3(pre, Swapped(x, path, j), post), |pre| + path[n], |pre| + path[0];
                r[p := r[q]][q := r[p]] == Around3(pre, Swapped(x, path, j + 1), post))
  {
    hide Around3;
    var n := Around(j, |path|);
    assert StepOk(path, k, j) && StepOk(path, k, n) && StepOk(path, k, 0);
    ExchangeInside(pre, Swapped(x, path, j), post, path[n], path[0]);
  }

  lemma ExchangeInside<T>(pre: seq<T>, x: seq<T>, post: seq<T>, p: int, q: int)
    requires 0 <= p < |x| && 0 <= q < |x|
    ensures var r := Around3(pre, x, post);
            r[|pre| + p := r[|pre| + q]][|pre| + q := r[|pre| + p]] == Around3(pre, Exchange(x, p, q), post)
  {
  }

  method Swap<T>(nargv: array<T>, pos: nat, cstart: nat)
    requires pos < nargv.Length && cstart < nargv.Length
    modifies nargv
    ensures nargv[..] == old(nargv[..])[pos := old(nargv[..])[cstart]][cstart := old(nargv[..])[pos]]
  {
    var swap := nargv[pos];
    nargv[pos] := nargv[cstart];
    nargv[cstart] := swap;
  }

  /** One cycle of swaps. */
  method RunCycle<T>(nargv: array<T>, mid: nat, nnonopts: nat, nopts: nat, cstart: nat, cyclelen: nat,
                     ghost k: Blocks, ghost path: seq<int>, ghost pre: seq<T>, ghost x: seq<T>, ghost post: seq<T>)
    requires 0 < nnonopts == k.a && mid == |pre| + k.a && 0 < nopts == k.b && |x| == k.a + k.b
    requires Steps(path, k) && |path| == cyclelen > 1 && cstart == |pre| + path[0]
    requires nargv[..] == Around3(pre, x, post)
    modifies nargv
    ensures nargv[..] == Around3(pre, Swapped(x, path, cyclelen), post)
  {
    hide Around3, Steps;
    assert Swapped(x, path, 0) == x;
    hide Swapped;
    assert |nargv[..]| == |pre| + |x| + |post| by { Length3(pre, x, post); }
    var pos := cstart;
    var j := 0;
    while j < cyclelen
      invariant 0 <= j <= cyclelen
      invariant pos == |pre| + path[if j < cyclelen then j else 0]
      invariant nargv[..] == Around3(pre, Swapped(x, path, j), post)
    {
      SwappedStep(pre, x, post, k, path, j);
      if pos >= mid {
        pos := pos - nnonopts;
      } else {
        pos := pos + nopts;
      }
      Swap(nargv, pos, cstart);
      j := j + 1;
    }
  }

  lemma Length3<T>(pre: seq<T>, x: seq<T>, post: seq<T>)
    ensures |Around3(pre, x, post)| == |pre| + |x| + |post|
  {
  }

  /** Number and length of the cycles. */
  method Cycles(nnonopts: nat, nopts: nat) returns (ncycle: nat, cyclelen: nat, ghost k: Blocks)
    requires nnonopts > 0 && nopts > 0
    ensures Good(k) && k.a == nnonopts && k.b == nopts && k.g == ncycle && cyclelen == CycleLen(k)
  {
    ghost var x, y;
    ncycle, x, y := Gcd(nnonopts, nopts);
    k := Blocks(nnonopts, nopts, ncycle, x, y);
    PosCloses(k, 0);
    cyclelen := (nnonopts + nopts) / ncycle;
  }

  method RunCycles<T>(nargv: array<T>, mid: nat, nnonopts: nat, nopts: nat, ncycle: nat, cyclelen: nat,
                      ghost k: Blocks, ghost pre: seq<T>, ghost x: seq<T>, ghost post: seq<T>)
    requires nnonopts == k.a && mid == |pre| + k.a && nopts == k.b && |x| == k.a + k.b
    requires Good(k) && ncycle == k.g && cyclelen == CycleLen(k)
    requires nargv[..] == Around3(pre, x, post)
    modifies nargv
    ensures nargv[..] == Around3(pre, Cycled(k, x, k.g), post)
  {
    hide IsGcd, CycleLen, Around3, Swapped, Steps;
    PosCloses(k, 0);
    var i := 0;
    while i < ncycle
      invariant 0 <= i <= ncycle
      invariant nargv[..] == Around3(pre, Cycled(k, x, i), post)
    {
      RunCycle(nargv, mid, nnonopts, nopts, mid + i, cyclelen, k, PathSeq(k, i), pre, Cycled(k, x, i), post);
      i := i + 1;
    }
  }

  /** Exchange the block [lo, mid) with the block [mid, hi). */
  method PermuteArgs<T>(lo: nat, mid: nat, hi: nat, nargv: array<T>)
    requires lo < mid < hi <= nargv.Length
    modifies nargv
    ensures var v := old(nargv[..]); nargv[..] == v[..lo] + (v[mid..hi] + v[lo..mid]) + v[hi..]
  {
    hide IsGcd, CycleLen, Cycled;
    ghost var v := nargv[..];
    var nnonopts := mid - lo;
    var nopts := hi - mid;
    var ncycle, cyclelen, k := Cycles(nnonopts, nopts);
    CycledExchanges(k, v[lo..hi]);
    assert v == Around3(v[..lo], v[lo..hi], v[hi..]);
    assert v[lo..hi][k.a..] == v[mid..hi] && v[lo..hi][..k.a] == v[lo..mid];
    RunCycles(nargv, mid, nnonopts, nopts, ncycle, cyclelen, k, v[..lo], v[lo..hi], v[hi..]);
  }
}
