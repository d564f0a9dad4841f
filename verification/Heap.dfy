/**
  The block heap: a slab allocator that looks for a free slot only in the first
  block of its list and in its one spare block.
 */
module Heap {
  import opened Sequences
  import Rotation

  /** In a slot's header: the number of the next free slot, none, or the mark of a slot in use. */
  const NONE: int := -1
  const IN_USE: int := -2

  /** The free list of a block, as its headers chain it. */
  ghost predicate Chained(header: seq<int>, first: int, free: seq<int>) {
    && Distinct(free)
    && (forall k {:trigger free[k]} :: 0 <= k < |free| ==> 0 <= free[k] < |header|)
    && first == Link(free, 0)
    && (forall k {:trigger ChainAt(header, free, k)} :: 0 <= k < |free| ==> ChainAt(header, free, k))
    && (forall i {:trigger header[i]} :: 0 <= i < |header| && i !in free ==> header[i] == IN_USE)
  }

  ghost predicate ChainAt(header: seq<int>, free: seq<int>, k: int)
    requires 0 <= k < |free| && 0 <= free[k] < |header|
  {
    header[free[k]] == Link(free, k + 1)
  }

  ghost function Link(free: seq<int>, k: int): int {
    if 0 <= k < |free| then free[k] else NONE
  }

  lemma TakeChained(header: seq<int>, first: int, free: seq<int>)
    requires Chained(header, first, free) && free != []
    ensures 0 <= first < |header| && first == free[0]
    ensures Chained(header[first := IN_USE], header[first], free[1..])
  {
    var h, f := header[first := IN_USE], free[1..];
    assert ChainAt(header, free, 0);
    Unique(free, 0);
    forall k {:trigger f[k]} | 0 <= k < |f| ensures 0 <= f[k] < |h| { assert f[k] == free[k + 1]; }
    forall i, j {:trigger Differ(f, i, j)} | 0 <= i < j < |f|
      ensures Differ(f, i, j) { assert Differ(free, i + 1, j + 1); }
    forall k {:trigger ChainAt(h, f, k)} | 0 <= k < |f| ensures ChainAt(h, f, k) {
      assert ChainAt(header, free, k + 1);
      assert f[k] == free[k + 1];
    }
    forall k {:trigger free[k]} | 1 <= k < |free| ensures free[k] in f { assert f[k - 1] == free[k]; }
  }

  lemma GiveChained(header: seq<int>, first: int, free: seq<int>, i: int)
    requires Chained(header, first, free) && 0 <= i < |header| && i !in free
    ensures Chained(header[i := first], i, [i] + free)
  {
    var h, f := header[i := first], [i] + free;
    forall a, b {:trigger Differ(f, a, b)} | 0 <= a < b < |f| ensures Differ(f, a, b) {
      if a > 0 { assert Differ(free, a - 1, b - 1); }
    }
    forall k {:trigger ChainAt(h, f, k)} | 0 <= k < |f| ensures ChainAt(h, f, k) {
      if k > 0 { assert ChainAt(header, free, k - 1); }
    }
  }

  /** A block of slots. Memory comes zeroed from the system or the default allocator. */
  class Block {
    var header: seq<int>
    var firstFree: int
    var numAllocated: nat
    ghost var free: seq<int>

    ghost predicate Valid()
      reads this
    {
      Chained(header, firstFree, free) && numAllocated + |free| == |header|
    }

    /** A new block chains all its slots. */
    constructor (elems: nat)
      ensures Valid() && |header| == elems && numAllocated == 0
      ensures forall i {:trigger i in free} :: i in free <==> 0 <= i < elems
    {
      header, firstFree, numAllocated, free := [], NONE, 0, [];
      new;
      var a := 0;
      while a < elems
        invariant 0 <= a <= elems && |header| == a && |free| == a && numAllocated == 0
        invariant Chained(header, firstFree, free)
        invariant forall i {:trigger i in free} :: i in free <==> 0 <= i < a
      {
        ghost var h := header + [IN_USE];
        Longer(header, firstFree, free);
        GiveChained(h, firstFree, free, a);
        assert header + [firstFree] == h[a := firstFree];
        header := header + [firstFree];
        firstFree := a;
        free := [a] + free;
        a := a + 1;
      }
    }

    /** Pull the first free slot from the list. */
    method Take() returns (i: nat)
      requires Valid() && free != []
      modifies this
      ensures Valid() && |header| == |old(header)| && numAllocated == old(numAllocated) + 1
      ensures i == old(free)[0] < |header| && free == old(free)[1..]
    {
      TakeChained(header, firstFree, free);
      i := firstFree;
      firstFree := header[i];
      header := header[i := IN_USE];
      numAllocated := numAllocated + 1;
      free := free[1..];
    }

    /** Put a slot back in front of the list. */
    method Give(i: nat)
      requires Valid() && i < |header| && i !in free && numAllocated > 0
      modifies this
      ensures Valid() && |header| == |old(header)| && numAllocated == old(numAllocated) - 1
      ensures free == [i] + old(free)
    {
      GiveChained(header, firstFree, free, i);
      header := header[i := firstFree];
      firstFree := i;
      numAllocated := numAllocated - 1;
      free := [i] + free;
    }
  }

  lemma Longer(header: seq<int>, first: int, free: seq<int>)
    requires Chained(header, first, free)
    ensures Chained(header + [IN_USE], first, free) && |header| !in free
  {
    var h := header + [IN_USE];
    forall k {:trigger ChainAt(h, free, k)} | 0 <= k < |free| ensures ChainAt(h, free, k) {
      assert ChainAt(header, free, k);
    }
  }

  // The order of the block list, and the number of free slots, over the lengths of the free lists.

  /** Blocks with free slots come before full ones. */
  ghost predicate Ordered(frees: seq<nat>) {
    forall i, j {:trigger Before(frees, i, j)} :: 0 <= i < j < |frees| ==> Before(frees, i, j)
  }

  ghost predicate Before(frees: seq<nat>, i: int, j: int)
    requires 0 <= i < j < |frees|
  {
    frees[i] == 0 ==> frees[j] == 0
  }

  ghost predicate Partial(frees: seq<nat>, elems: nat) {
    forall i {:trigger frees[i]} :: 0 <= i < |frees| ==> frees[i] < elems
  }

  ghost function Sum(frees: seq<nat>): nat {
    if frees == [] then 0 else frees[0] + Sum(frees[1..])
  }

  lemma {:induction false} SumConcat(a: seq<nat>, b: seq<nat>)
    ensures Sum(a + b) == Sum(a) + Sum(b)
  {
    if a == [] {
      assert a + b == b;
    } else {
      assert (a + b)[1..] == a[1..] + b;
      SumConcat(a[1..], b);
    }
  }

  lemma SumOne(n: nat)
    ensures Sum([n]) == n
  {
    assert [n][1..] == [];
  }

  /** If the first block is full, all are. */
  lemma {:induction false} FullFromHead(frees: seq<nat>)
    requires Ordered(frees) && (frees != [] ==> frees[0] == 0)
    ensures Sum(frees) == 0
    ensures forall i {:trigger frees[i]} :: 0 <= i < |frees| ==> frees[i] == 0
  {
    if frees != [] {
      var rest := frees[1..];
      forall i, j {:trigger Before(rest, i, j)} | 0 <= i < j < |rest|
        ensures Before(rest, i, j) { assert Before(frees, i + 1, j + 1); }
      forall i {:trigger frees[i]} | 0 < i < |frees| ensures frees[i] == 0 { assert Before(frees, 0, i); }
      assert rest != [] ==> rest[0] == frees[1];
      FullFromHead(rest);
    }
  }

  /** A block changes its number of free slots where it stands. */
  lemma Changed(frees: seq<nat>, p: nat, n: nat)
    requires p < |frees| && Ordered(frees) && n > 0 && frees[p] > 0
    ensures Ordered(frees[p := n]) && Sum(frees[p := n]) == Sum(frees) - frees[p] + n
  {
    var g := frees[p := n];
    forall i, j {:trigger Before(g, i, j)} | 0 <= i < j < |g| ensures Before(g, i, j) { assert Before(frees, i, j); }
    Split(frees, p);
    Split(g, p);
    assert g[..p] == frees[..p] && g[p + 1..] == frees[p + 1..];
  }

  lemma Split(frees: seq<nat>, p: nat)
    requires p < |frees|
    ensures Sum(frees) == Sum(frees[..p]) + frees[p] + Sum(frees[p + 1..])
  {
    hide Sum;
    var a, x, b := frees[..p], frees[p], frees[p + 1..];
    SumConcat(a, [x] + b);
    SumConcat([x], b);
    SumOne(x);
    assert frees == a + ([x] + b);
  }

  /** A block leaves the list. */
  lemma Left(frees: seq<nat>, p: nat)
    requires p < |frees| && Ordered(frees)
    ensures Ordered(Removed(frees, p)) && Sum(Removed(frees, p)) == Sum(frees) - frees[p]
  {
    var g := Removed(frees, p);
    forall i, j {:trigger Before(g, i, j)} | 0 <= i < j < |g| ensures Before(g, i, j) {
      assert Before(frees, if i < p then i else i + 1, if j < p then j else j + 1);
    }
    Split(frees, p);
    SumConcat(frees[..p], frees[p + 1..]);
  }

  /** A block with free slots joins at the head, or a full one at the end. */
  lemma Joined(frees: seq<nat>, n: nat)
    requires Ordered(frees)
    ensures n > 0 ==> Ordered([n] + frees)
    ensures Ordered(frees + [0])
    ensures Sum([n] + frees) == Sum(frees) + n && Sum(frees + [0]) == Sum(frees)
  {
    var g, h := [n] + frees, frees + [0];
    if n > 0 {
      forall i, j {:trigger Before(g, i, j)} | 0 <= i < j < |g| ensures Before(g, i, j) {
        if i > 0 { assert Before(frees, i - 1, j - 1); }
      }
    }
    forall i, j {:trigger Before(h, i, j)} | 0 <= i < j < |h| ensures Before(h, i, j) {
      if j < |frees| { assert Before(frees, i, j); }
    }
    SumConcat([n], frees);
    SumConcat(frees, [0]);
    SumOne(n);
    SumOne(0);
  }

  /** A list without one of its blocks. */
  function Without(blocks: seq<Block>, b: Block): seq<Block> {
    if blocks == [] then [] else if blocks[0] == b then blocks[1..] else [blocks[0]] + Without(blocks[1..], b)
  }

  lemma {:induction false} WithoutIs(blocks: seq<Block>, p: nat)
    requires Distinct(blocks) && p < |blocks|
    ensures Without(blocks, blocks[p]) == Removed(blocks, p)
    decreases p
  {
    if p > 0 {
      assert Differ(blocks, 0, p);
      var rest := blocks[1..];
      forall i, j {:trigger Differ(rest, i, j)} | 0 <= i < j < |rest|
        ensures Differ(rest, i, j) { assert Differ(blocks, i + 1, j + 1); }
      WithoutIs(rest, p - 1);
      assert Removed(blocks, p) == [blocks[0]] + Removed(rest, p - 1);
    }
  }

  /** Sizes in bytes: a block's own header, a slot's header, a page. */
  datatype Sizes = Sizes(block: nat, slot: nat, page: nat)

  function AtLeastTwo(n: nat): nat {
    if n < 2 then 2 else n
  }

  function Pages(allocSize: nat, n: nat, sizes: Sizes): int
    requires sizes.page > 0
  {
    (sizes.block + allocSize * n + sizes.page - 1) / sizes.page
  }

  /** As many slots as fit the pages that n slots need. */
  function PageElems(allocSize: nat, n: nat, sizes: Sizes): int
    requires allocSize > 0 && sizes.page > 0
  {
    (Pages(allocSize, n, sizes) * sizes.page - sizes.block) / allocSize
  }

  /**
    Rounding never lowers the number of elements, fills the fewest pages that n elements need up to less than one
    slot, and overruns none.
   */
  lemma PageElemsEnough(allocSize: nat, n: nat, sizes: Sizes)
    requires allocSize > 0 && sizes.page > 0
    ensures var bytes, m := Pages(allocSize, n, sizes) * sizes.page, PageElems(allocSize, n, sizes);
            && m >= n && sizes.block + allocSize * m <= bytes < sizes.block + allocSize * m + allocSize
            && bytes - sizes.page < sizes.block + allocSize * n <= bytes
  {
    var need := sizes.block + allocSize * n;
    var pages := Pages(allocSize, n, sizes);
    RoundedUp(need, sizes.page);
    var room := pages * sizes.page - sizes.block;
    assert room >= allocSize * n;
    DivAtLeast(room, allocSize, n);
  }

  lemma RoundedUp(need: nat, page: nat)
    requires page > 0
    ensures need <= (need + page - 1) / page * page < need + page
  {
    var v := need + page - 1;
    assert v == v / page * page + v % page;
  }

  lemma DivAtLeast(v: int, d: int, n: int)
    requires d > 0 && v >= d * n
    ensures v / d >= n && d * (v / d) <= v < d * (v / d) + d
  {
    var q := v / d;
    if q < n { DivGap(d, n, q); }
  }

  lemma DivGap(d: int, n: int, q: int)
    requires d > 0 && q < n
    ensures d * n >= d * q + d
  {
    Rotation.MulSub(n, q, d);
    Rotation.MulBounds(d, n - q);
  }

  class Heap {
    const elems: nat
    var blocks: seq<Block>
    var emptyBlock: Block?
    var freeElems: nat
    // numbers of free slots, block by block, and the slots handed out and not returned
    ghost var frees: seq<nat>
    ghost var live: set<(Block, int)>

    ghost predicate BlockOk(b: Block, n: nat)
      reads b
    {
      b.Valid() && |b.header| == elems && |b.free| == n
    }

    ghost predicate LiveIn(b: Block)
      reads this`live, b
    {
      forall s: int {:trigger (b, s) in live} :: 0 <= s < elems ==> ((b, s) in live <==> s !in b.free)
    }

    /** A block of the list: its free slots are counted, the others are live. */
    ghost predicate Listed(b: Block, n: nat)
      reads this`live, b
    {
      BlockOk(b, n) && LiveIn(b)
    }

    ghost predicate ListedAt(i: int)
      requires 0 <= i < |blocks| == |frees|
      reads this`blocks, this`frees, this`live, blocks
    {
      Listed(blocks[i], frees[i])
    }

    ghost predicate EmptyOk()
      reads this`blocks, this`emptyBlock, emptyBlock
    {
      emptyBlock != null ==> emptyBlock !in blocks && BlockOk(emptyBlock, elems)
    }

    ghost predicate Counted()
      reads this`emptyBlock, this`freeElems, this`frees
    {
      freeElems == Sum(frees) + (if emptyBlock != null then elems else 0)
    }

    ghost predicate LiveListed()
      reads this`blocks, this`live
    {
      forall e {:trigger e in live} :: e in live ==> e.0 in blocks && 0 <= e.1 < elems
    }

    /** Everything but the order of the list, and that no listed block is wholly free. */
    ghost predicate Sound()
      reads this, blocks, emptyBlock
    {
      && elems >= 2 && |frees| == |blocks| && Distinct(blocks)
      && (forall i {:trigger ListedAt(i)} :: 0 <= i < |blocks| ==> ListedAt(i))
      && EmptyOk() && Counted() && LiveListed()
    }

    ghost predicate Valid()
      reads this, blocks, emptyBlock
    {
      Sound() && Ordered(frees) && Partial(frees, elems)
    }

    /** An empty heap; only with the system's allocator is the number of elements rounded to whole pages. */
    constructor (elemSize: nat, n: nat, sizes: Sizes, rounded: bool)
      requires elemSize > 0 && sizes.page > 0
      ensures Valid() && live == {}
      ensures elems >= n && elems >= 2 && (rounded || elems == n || elems == 2)
      ensures elems == if rounded then PageElems(elemSize + sizes.slot, AtLeastTwo(n), sizes) else AtLeastTwo(n)
    {
      PageElemsEnough(elemSize + sizes.slot, AtLeastTwo(n), sizes);
      elems := if rounded then PageElems(elemSize + sizes.slot, AtLeastTwo(n), sizes) else AtLeastTwo(n);
      blocks, emptyBlock, freeElems, frees, live := [], null, 0, [], {};
    }

    /** One more block, wholly free, unless there is one. */
    method Expand()
      requires Valid()
      modifies this`emptyBlock, this`freeElems
      ensures Valid() && emptyBlock != null
      ensures old(emptyBlock) != null ==> emptyBlock == old(emptyBlock) && freeElems == old(freeElems)
      ensures old(emptyBlock) == null ==> fresh(emptyBlock) && freeElems == old(freeElems) + elems
    {
      if emptyBlock != null {
        return;
      }
      var block := new Block(elems);
      FreeAll(block);
      emptyBlock := block;
      freeElems := freeElems + elems;
      assert forall i {:trigger ListedAt(i)} :: 0 <= i < |blocks| ==> old(ListedAt(i));
      assert block !in blocks;
    }

    lemma BlockFacts(b: Block, n: nat)
      requires BlockOk(b, n)
      ensures Distinct(b.free) && forall k {:trigger b.free[k]} :: 0 <= k < |b.free| ==> 0 <= b.free[k] < elems
    {
    }

    lemma FreeAll(b: Block)
      requires b.Valid() && b.numAllocated == 0 && |b.header| == elems
      ensures BlockOk(b, elems)
    {
    }

    /** The head of the list has a free slot, or no listed block has: then the spare block has. */
    lemma SlotExists()
      requires Valid() && freeElems > 0
      ensures blocks == [] || frees[0] == 0 ==> emptyBlock != null
    {
      if blocks == [] || frees[0] == 0 {
        FullFromHead(frees);
      }
    }

    /** Hand out the first free slot of a listed block. */
    method TakeFrom(b: Block, ghost p: nat) returns (i: nat)
      requires Sound() && p < |blocks| && b == blocks[p] && frees[p] > 0
      modifies b, this`freeElems, this`frees, this`live
      ensures Sound() && i < elems && (b, i as int) !in old(live) && live == old(live) + {(b, i as int)}
      ensures frees == old(frees)[p := old(frees)[p] - 1] && freeElems == old(freeElems) - 1
    {
      assert ListedAt(p);
      Unique(blocks, p);
      Split(frees, p);
      Split(frees[p := frees[p] - 1], p);
      assert frees[p := frees[p] - 1][..p] == frees[..p] && frees[p := frees[p] - 1][p + 1..] == frees[p + 1..];
      Unique(b.free, 0);
      i := b.Take();
      freeElems := freeElems - 1;
      live := live + {(b, i as int)};
      frees := frees[p := frees[p] - 1];
      TakenFrom(old(b.free), b.free);
      assert Listed(b, frees[p]);
      forall j {:trigger ListedAt(j)} | 0 <= j < |blocks| ensures ListedAt(j) {
        assert old(ListedAt(j));
      }
      assert EmptyOk() && Counted() && LiveListed();
    }

    /** Move a block to the head or the end of the list. */
    method MoveBlock(b: Block, head: bool, ghost p: nat)
      requires Sound() && p < |blocks| && b == blocks[p]
      modifies this`blocks, this`frees
      ensures Sound() && blocks == Moved(old(blocks), p, if head then 0 else |old(blocks)| - 1)
      ensures frees == Moved(old(frees), p, if head then 0 else |old(frees)| - 1)
    {
      hide Sum, Chained, Moved, Distinct;
      ghost var q := if head then 0 else |blocks| - 1;
      WithoutIs(blocks, p);
      AtTheEnds(blocks, p);
      MovedDistinct(blocks, p, q);
      blocks := if head then [b] + Without(blocks, b) else Without(blocks, b) + [b];
      frees := Moved(frees, p, q);
      assert blocks == Moved(old(blocks), p, q);
      forall i {:trigger ListedAt(i)} | 0 <= i < |blocks| ensures ListedAt(i) {
        MovedFrom(old(blocks), p, q, i);
        MovedFrom(old(frees), p, q, i);
        assert old(ListedAt(MovedTo(q, p, i)));
      }
      MovedSum(old(frees), p, q);
      MovedMultiset(old(blocks), p, q);
      SameMembers(old(blocks), blocks);
      assert EmptyOk() && Counted() && LiveListed();
    }

    /** Allocate: the first block of the list, or the spare block. A new block is made only when no slot is free. */
    method Alloc() returns (b: Block, i: nat)
      requires Valid()
      modifies this, blocks, emptyBlock
      ensures Valid() && i < elems && b in blocks
      ensures (b, i as int) !in old(live) && live == old(live) + {(b, i as int)}
      ensures freeElems == old(freeElems) - 1 + if old(freeElems) == 0 then elems else 0
    {
      if freeElems == 0 {
        Expand();
      }
      SlotExists();
      if blocks != [] {
        assert ListedAt(0);
      }
      if blocks == [] || blocks[0].firstFree == NONE {
        b, i := AllocFromEmpty();
      } else {
        b, i := AllocFromHead();
      }
    }

    /** A free slot of the first block, which moves to the end when that was its last. */
    method AllocFromHead() returns (b: Block, i: nat)
      requires Valid() && blocks != [] && frees[0] > 0
      modifies this`blocks, this`freeElems, this`frees, this`live, blocks[0]
      ensures Valid() && i < elems && b in blocks
      ensures (b, i as int) !in old(live) && live == old(live) + {(b, i as int)} && freeElems == old(freeElems) - 1
    {
      hide Ordered, Sum;
      b := blocks[0];
      ghost var f := frees;
      i := TakeFrom(b, 0);
      assert ListedAt(0);
      Left(f, 0);
      RemovedForgets(f, 0, f[0] - 1);
      if b.firstFree == NONE {
        MovedOrdered(frees, 0, false);
        MoveBlock(b, false, 0);
        MovedAt(old(blocks), 0, |old(blocks)| - 1, 0);
        PartialMoved(f[0 := f[0] - 1], elems, 0, |f| - 1);
      } else {
        Changed(f, 0, f[0] - 1);
      }
    }

    /** A slot of the spare block, which joins the list at its head. */
    method AllocFromEmpty() returns (b: Block, i: nat)
      requires Valid() && emptyBlock != null && (blocks == [] || frees[0] == 0)
      modifies this`blocks, this`emptyBlock, this`freeElems, this`frees, this`live, emptyBlock
      ensures Valid() && i < elems && b in blocks
      ensures (b, i as int) !in old(live) && live == old(live) + {(b, i as int)} && freeElems == old(freeElems) - 1
    {
      hide Ordered, Sum, Chained;
      b := emptyBlock;
      BlockFacts(b, elems);
      assert b !in blocks && forall e {:trigger e in live} :: e in live ==> e.0 != b;
      Unique(b.free, 0);
      AllSlotsFree(b.free, elems);
      Joined(frees, elems - 1);
      i := b.Take();
      freeElems := freeElems - 1;
      live := live + {(b, i as int)};
      emptyBlock := null;
      blocks := [b] + blocks;
      frees := [elems - 1] + frees;
      TakenFrom(old(emptyBlock.free), b.free);
      assert Listed(b, elems - 1);
      forall j {:trigger ListedAt(j)} | 0 <= j < |blocks| ensures ListedAt(j) {
        if j > 0 { assert old(ListedAt(j - 1)); }
      }
      forall j, k {:trigger Differ(blocks, j, k)} | 0 <= j < k < |blocks| ensures Differ(blocks, j, k) {
        if j > 0 { assert Differ(old(blocks), j - 1, k - 1); }
      }
      assert EmptyOk() && Counted() && LiveListed();
    }

    /** Put a slot back into its block, which stays where it is. */
    method GiveTo(b: Block, i: nat, ghost p: nat)
      requires Sound() && p < |blocks| && b == blocks[p] && (b, i as int) in live
      modifies b, this`freeElems, this`frees, this`live
      ensures Sound() && live == old(live) - {(b, i as int)}
      ensures frees == old(frees)[p := old(frees)[p] + 1] && frees[p] == elems - b.numAllocated
      ensures freeElems == old(freeElems) + 1 && b.numAllocated == old(b.numAllocated) - 1
    {
      assert ListedAt(p);
      Unique(blocks, p);
      Split(frees, p);
      Split(frees[p := frees[p] + 1], p);
      assert frees[p := frees[p] + 1][..p] == frees[..p] && frees[p := frees[p] + 1][p + 1..] == frees[p + 1..];
      SomeInUse(b.free, i, elems);
      b.Give(i);
      freeElems := freeElems + 1;
      live := live - {(b, i as int)};
      frees := frees[p := frees[p] + 1];
      assert Listed(b, frees[p]);
      forall j {:trigger ListedAt(j)} | 0 <= j < |blocks| ensures ListedAt(j) {
        assert old(ListedAt(j));
      }
      assert EmptyOk() && Counted() && LiveListed();
    }

    /** Return the spare block to the system. */
    method Shrink()
      requires Sound() && emptyBlock != null
      modifies this`emptyBlock, this`freeElems
      ensures Sound() && emptyBlock == null && freeElems == old(freeElems) - elems
    {
      emptyBlock := null;
      freeElems := freeElems - elems;
      assert forall i {:trigger ListedAt(i)} :: 0 <= i < |blocks| ==> old(ListedAt(i));
    }

    /** A wholly free block becomes the spare block. */
    method Spare(b: Block, ghost p: nat)
      requires Sound() && p < |blocks| && b == blocks[p] && frees[p] == elems && emptyBlock == null
      modifies this`blocks, this`emptyBlock, this`frees
      ensures Sound() && frees == Removed(old(frees), p) && emptyBlock == b
    {
      hide Sum, Distinct, Removed;
      assert ListedAt(p);
      AllSlotsFree(b.free, elems);
      hide Chained;
      WithoutIs(blocks, p);
      RemovedDistinct(blocks, p);
      RemovedMembers(blocks, p);
      RemovedAt(frees, p);
      SumRemoved(frees, p);
      blocks := Without(blocks, b);
      frees := Removed(frees, p);
      emptyBlock := b;
      forall j {:trigger ListedAt(j)} | 0 <= j < |blocks| ensures ListedAt(j) {
        assert old(ListedAt(if j < p then j else j + 1));
      }
      forall e {:trigger e in live} | e in live ensures e.0 in blocks && 0 <= e.1 < elems {
        assert e.0 in old(blocks) && (e.0, e.1) in live;
        assert e.0 != b;
      }
      assert EmptyOk() && Counted();
    }

    /** Free: a full block comes to the head, a wholly free one becomes the spare block and an earlier spare goes. */
    method Free(b: Block, i: nat)
      requires Valid() && (b, i as int) in live
      modifies this, b
      ensures Valid() && live == old(live) - {(b, i as int)}
      ensures emptyBlock == if old(b.numAllocated) == 1 then b else old(emptyBlock)
      ensures freeElems == old(freeElems) + 1 - if old(b.numAllocated) == 1 && old(emptyBlock) != null then elems else 0
    {
      ghost var p: nat :| p < |blocks| && blocks[p] == b;
      ghost var f := frees;
      GiveTo(b, i, p);
      Left(f, p);
      RemovedForgets(f, p, f[p] + 1);
      PartialRemoved(f, elems, p);
      if b.numAllocated == 0 {
        if emptyBlock != null {
          Shrink();
        }
        Spare(b, p);
      } else if b.numAllocated == elems - 1 {
        MovedOrdered(frees, p, true);
        PartialMoved(frees, elems, p, 0);
        MoveBlock(b, true, p);
      } else {
        Changed(f, p, f[p] + 1);
      }
    }
  }

  /** As many different free slots as slots: all are free. */
  lemma AllSlotsFree(free: seq<int>, n: nat)
    requires Distinct(free) && |free| == n
    requires forall k {:trigger free[k]} :: 0 <= k < |free| ==> 0 <= free[k] < n
    ensures forall s {:trigger s in free} :: 0 <= s < n ==> s in free
  {
    var used := set s | s in free;
    DistinctSize(free);
    assert used <= UpTo(n);
    SameSize(used, UpTo(n));
    assert forall s {:trigger s in free} :: 0 <= s < n ==> s in UpTo(n);
  }

  lemma SameSize(a: set<int>, b: set<int>)
    requires a <= b && |a| == |b|
    ensures a == b
  {
    assert b == a + (b - a);
    assert |b - a| == 0;
  }

  lemma {:induction false} DistinctSize(s: seq<int>)
    requires Distinct(s)
    ensures |set x | x in s| == |s|
  {
    var all := set x | x in s;
    if s == [] {
      assert all == {};
    } else {
      var r := s[1..];
      forall i, j {:trigger Differ(r, i, j)} | 0 <= i < j < |r|
        ensures Differ(r, i, j) { assert Differ(s, i + 1, j + 1); }
      DistinctSize(r);
      Unique(s, 0);
      TakenFrom(s, r);
      assert all == (set x | x in r) + {s[0]};
    }
  }

  ghost function UpTo(n: nat): (r: set<int>)
    ensures |r| == n && forall s {:trigger s in r} :: s in r <==> 0 <= s < n
  {
    if n == 0 then {} else UpTo(n - 1) + {n - 1}
  }

  /** A slot that is not free leaves fewer free slots than slots. */
  lemma SomeInUse(free: seq<int>, i: int, n: nat)
    requires Distinct(free) && |free| <= n && 0 <= i < n && i !in free
    requires forall k {:trigger free[k]} :: 0 <= k < |free| ==> 0 <= free[k] < n
    ensures |free| < n
  {
    if |free| == n { AllSlotsFree(free, n); }
  }

  lemma PartialRemoved(frees: seq<nat>, elems: nat, p: nat)
    requires p < |frees| && Partial(frees, elems)
    ensures Partial(Removed(frees, p), elems)
    ensures frees[p] + 1 < elems ==> Partial(frees[p := frees[p] + 1], elems)
  {
  }

  lemma PartialMoved(frees: seq<nat>, elems: nat, p: nat, q: nat)
    requires p < |frees| && q < |frees| && Partial(frees, elems)
    ensures Partial(Moved(frees, p, q), elems)
  {
    var m := Moved(frees, p, q);
    forall i {:trigger m[i]} | 0 <= i < |m| ensures m[i] < elems { MovedFrom(frees, p, q, i); }
  }

  lemma TakenFrom(was: seq<int>, now: seq<int>)
    requires was != [] && now == was[1..] && Distinct(was)
    ensures forall s {:trigger s in now} :: s in now <==> s in was && s != was[0]
  {
    Unique(was, 0);
    forall s {:trigger s in now} ensures s in now <==> s in was && s != was[0] {
      if s in now { var k :| 0 <= k < |now| && now[k] == s; assert was[k + 1] == s; }
      if s in was && s != was[0] { var k :| 0 <= k < |was| && was[k] == s; assert now[k - 1] == s; }
    }
  }

  lemma MovedSum(frees: seq<nat>, p: nat, q: nat)
    requires p < |frees| && q < |frees|
    ensures Sum(Moved(frees, p, q)) == Sum(frees)
  {
    SumRemoved(frees, p);
    SumInserted(Removed(frees, p), q, frees[p]);
  }

  lemma SumInserted(r: seq<nat>, q: nat, n: nat)
    requires q <= |r|
    ensures Sum(Inserted(r, q, n)) == Sum(r) + n
  {
    hide Sum;
    var a, b := r[..q], r[q..];
    SumConcat(a, [n] + b);
    SumConcat([n], b);
    SumConcat(a, b);
    SumOne(n);
    assert r == a + b;
    assert Inserted(r, q, n) == a + ([n] + b);
  }

  lemma RemovedAt<T>(s: seq<T>, p: nat)
    requires p < |s|
    ensures forall i {:trigger Removed(s, p)[i]} :: 0 <= i < |s| - 1 ==>
            Removed(s, p)[i] == s[if i < p then i else i + 1]
  {
  }

  lemma AtTheEnds<T>(s: seq<T>, p: nat)
    requires p < |s|
    ensures Moved(s, p, 0) == [s[p]] + Removed(s, p) && Moved(s, p, |s| - 1) == Removed(s, p) + [s[p]]
  {
    var r := Removed(s, p);
    assert r[..0] + [s[p]] + r[0..] == [s[p]] + r;
    assert r[..|r|] + [s[p]] + r[|r|..] == r + [s[p]];
  }

  lemma MovedOrdered(frees: seq<nat>, p: nat, head: bool)
    requires p < |frees| && Ordered(Removed(frees, p)) && (if head then frees[p] > 0 else frees[p] == 0)
    ensures Ordered(Moved(frees, p, if head then 0 else |frees| - 1))
  {
    Joined(Removed(frees, p), frees[p]);
    AtTheEnds(frees, p);
  }

  /** Removing a block forgets what its number was. */
  lemma RemovedForgets(frees: seq<nat>, p: nat, n: nat)
    requires p < |frees|
    ensures Removed(frees[p := n], p) == Removed(frees, p)
  {
  }

  lemma SumRemoved(frees: seq<nat>, p: nat)
    requires p < |frees|
    ensures Sum(Removed(frees, p)) == Sum(frees) - frees[p]
  {
    Split(frees, p);
    SumConcat(frees[..p], frees[p + 1..]);
  }

  lemma RemovedMembers(s: seq<Block>, p: nat)
    requires p < |s|
    ensures forall x {:trigger x in s} :: x in s && x != s[p] ==> x in Removed(s, p)
  {
    forall x {:trigger x in s} | x in s && x != s[p] ensures x in Removed(s, p) {
      var k :| 0 <= k < |s| && s[k] == x;
      assert Removed(s, p)[if k < p then k else k - 1] == x;
    }
  }

  lemma RemovedDistinct<T>(s: seq<T>, p: nat)
    requires Distinct(s) && p < |s|
    ensures Distinct(Removed(s, p))
    ensures forall i {:trigger Removed(s, p)[i]} :: 0 <= i < |s| - 1 ==>
            Removed(s, p)[i] == s[if i < p then i else i + 1]
    ensures forall i {:trigger Removed(s, p)[i]} :: 0 <= i < |s| - 1 ==> Removed(s, p)[i] != s[p]
  {
    var r := Removed(s, p);
    Unique(s, p);
    forall i, j {:trigger Differ(r, i, j)} | 0 <= i < j < |r| ensures Differ(r, i, j) {
      assert Differ(s, if i < p then i else i + 1, if j < p then j else j + 1);
    }
  }
}
