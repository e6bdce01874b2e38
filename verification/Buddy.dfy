/** Buddy blocks and sets of them: what splitting and coalescing in src/mm/pmm.c do to
    the free blocks, independently of the lists and descriptors that represent them. */
module Buddy {
  import opened Bits

  const MAX_ORDER: nat := 11

  // ---- bits of page frame numbers ------------------------------------------------

  /** The low k bits of p are zero. */
  predicate LowZero(p: nat, k: nat) {
    k == 0 || (p % 2 == 0 && LowZero(p / 2, k - 1))
  }

  /** p ^ (1 << k) */
  function Flip(p: nat, k: nat): nat {
    if k == 0 then (if p % 2 == 0 then p + 1 else p - 1)
    else 2 * Flip(p / 2, k - 1) + p % 2
  }

  lemma {:induction false} SameUp(p: nat, q: nat, k: nat, n: nat)
    requires k <= n && Shr(p, k) == Shr(q, k)
    ensures Shr(p, n) == Shr(q, n)
    decreases n
  {
    if k < n {
      SameUp(p, q, k, n - 1);
      ShrStep(p, n - 1);
      ShrStep(q, n - 1);
    }
  }

  lemma {:induction false} LowZeroDown(p: nat, k: nat, n: nat)
    requires k <= n && LowZero(p, n)
    ensures LowZero(p, k)
  {
    if k > 0 {
      LowZeroDown(p / 2, k - 1, n - 1);
    }
  }

  /** Lying in the 2^k pages from an aligned start is a matter of the high bits. */
  lemma {:induction false} RangeIsShr(s: nat, p: nat, k: nat)
    requires LowZero(s, k)
    ensures s <= p < s + Pow2(k) <==> Shr(p, k) == Shr(s, k)
  {
    if k > 0 {
      RangeIsShr(s / 2, p / 2, k - 1);
    }
  }

  lemma {:induction false} FlipFacts(p: nat, k: nat)
    ensures Flip(p, k) == (if Shr(p, k) % 2 == 0 then p + Pow2(k) else p - Pow2(k))
    ensures Shr(Flip(p, k), k) == (if Shr(p, k) % 2 == 0 then Shr(p, k) + 1 else Shr(p, k) - 1)
    ensures Flip(Flip(p, k), k) == p
    ensures LowZero(p, k) ==> LowZero(Flip(p, k), k)
    ensures Shr(p, k) % 2 == 0 && LowZero(p, k) ==> LowZero(p, k + 1)
  {
    hide Flip, LowZero, Shr, Pow2;
    FlipOnce(p, k);
    FlipOnce(Flip(p, k), k);
    if k > 0 {
      FlipFacts(p / 2, k - 1);
    }
  }

  /** One step of each of the functions involved. */
  lemma FlipOnce(p: nat, k: nat)
    ensures Flip(p, k) == if k == 0 then (if p % 2 == 0 then p + 1 else p - 1) else 2 * Flip(p / 2, k - 1) + p % 2
    ensures LowZero(p, k) <==> k == 0 || (p % 2 == 0 && LowZero(p / 2, k - 1))
    ensures LowZero(p, k + 1) <==> p % 2 == 0 && LowZero(p / 2, k)
    ensures LowZero(p / 2, 0)
    ensures Shr(p, k) == if k == 0 then p else Shr(p / 2, k - 1)
    ensures Pow2(k) == if k == 0 then 1 else 2 * Pow2(k - 1)
  {
  }

  // ---- blocks ----------------------------------------------------------------------

  /** 2^order pages starting at page frame `start`. */
  datatype Block = Block(start: nat, order: nat)

  predicate Aligned(b: Block) {
    b.order <= MAX_ORDER && LowZero(b.start, b.order)
  }

  predicate Covers(b: Block, p: nat) {
    b.start <= p < b.start + Pow2(b.order)
  }

  function BuddyOf(b: Block): Block {
    Block(Flip(b.start, b.order), b.order)
  }

  /** The block a merge with the buddy yields: it starts at the lower of the two. */
  function Merged(b: Block): Block {
    Block(if BuddyOf(b).start < b.start then BuddyOf(b).start else b.start, b.order + 1)
  }

  /** The blocks partition `avail`: aligned, inside it, disjoint, and covering it. */
  ghost predicate Tiles(avail: set<nat>, blocks: set<Block>) {
    && (forall b :: b in blocks ==> Aligned(b))
    && (forall b, p: nat :: b in blocks && Covers(b, p) ==> p in avail)
    && (forall a, b, p: nat :: a in blocks && b in blocks && Covers(a, p) && Covers(b, p) ==> a == b)
    && (forall p :: p in avail ==> exists b :: b in blocks && Covers(b, p))
  }

  /** Aligned blocks that share a page are nested. */
  lemma Nested(a: Block, b: Block, p: nat, q: nat)
    requires Aligned(a) && Aligned(b) && a.order <= b.order
    requires Covers(a, p) && Covers(b, p) && Covers(a, q)
    ensures Covers(b, q)
  {
    RangeIsShr(a.start, p, a.order);
    RangeIsShr(a.start, q, a.order);
    RangeIsShr(b.start, p, b.order);
    RangeIsShr(b.start, q, b.order);
    SameUp(p, q, a.order, b.order);
  }

  /** The buddy is another aligned block of the same size, buddyhood is mutual, and the
      two together are exactly the merged block. */
  lemma BuddyFacts(b: Block)
    requires Aligned(b) && b.order < MAX_ORDER
    ensures Aligned(BuddyOf(b)) && BuddyOf(b) != b && BuddyOf(BuddyOf(b)) == b
    ensures Aligned(Merged(b)) && Merged(BuddyOf(b)) == Merged(b)
    ensures BuddyOf(b).start == b.start + Pow2(b.order) || BuddyOf(b).start + Pow2(b.order) == b.start
    ensures forall p: nat :: Covers(Merged(b), p) <==> Covers(b, p) || Covers(BuddyOf(b), p)
    ensures forall p: nat :: !(Covers(b, p) && Covers(BuddyOf(b), p))
  {
    FlipFacts(b.start, b.order);
    FlipFacts(BuddyOf(b).start, b.order);
  }

  // ---- coalescing ----------------------------------------------------------------

  /** What coalesce_buddies makes of the free blocks when b is freed. */
  ghost function Coalesce(free: set<Block>, b: Block): set<Block>
    decreases MAX_ORDER - b.order
  {
    if b.order < MAX_ORDER && BuddyOf(b) in free
    then Coalesce(free - {BuddyOf(b)}, Merged(b))
    else free + {b}
  }

  lemma MergeTiles(avail: set<nat>, blocks: set<Block>, b: Block)
    requires Tiles(avail, blocks) && b in blocks && BuddyOf(b) in blocks && b.order < MAX_ORDER
    ensures Tiles(avail, blocks - {b, BuddyOf(b)} + {Merged(b)})
    ensures Merged(b) !in blocks
  {
    BuddyFacts(b);
    var m := Merged(b);
    assert Covers(b, b.start) && Covers(m, b.start);
    forall p | p in avail ensures exists c :: c in blocks - {b, BuddyOf(b)} + {m} && Covers(c, p) {
      var c :| c in blocks && Covers(c, p);
      assert (if c == b || c == BuddyOf(b) then m else c) in blocks - {b, BuddyOf(b)} + {m};
    }
  }

  /** Freeing a live block of a partition leaves a partition. */
  lemma {:induction false} CoalesceTiles(avail: set<nat>, free: set<Block>, live: set<Block>, b: Block)
    requires Tiles(avail, free + live + {b}) && free !! live && b !in free && b !in live
    ensures Tiles(avail, Coalesce(free, b) + live)
    ensures Coalesce(free, b) !! live
    decreases MAX_ORDER - b.order
  {
    if b.order < MAX_ORDER && BuddyOf(b) in free {
      MergeTiles(avail, free + live + {b}, b);
      BuddyFacts(b);
      assert free + live + {b} - {b, BuddyOf(b)} + {Merged(b)} == (free - {BuddyOf(b)}) + live + {Merged(b)};
      CoalesceTiles(avail, free - {BuddyOf(b)}, live, Merged(b));
    } else {
      assert free + live + {b} == (free + {b}) + live;
    }
  }

  // ---- splitting --------------------------------------------------------------------

  /** The upper halves that split_block puts back when it cuts b down to `target`. */
  ghost function Halves(b: Block, target: nat): set<Block>
    decreases b.order
  {
    if b.order <= target then {}
    else {Block(b.start + Pow2(b.order - 1), b.order - 1)} + Halves(Block(b.start, b.order - 1), target)
  }

  lemma LowerHalf(b: Block)
    requires Aligned(b) && b.order > 0
    ensures var lo := Block(b.start, b.order - 1);
            Aligned(lo) && BuddyOf(lo) == Block(b.start + Pow2(b.order - 1), b.order - 1) && Merged(lo) == b
  {
    LowZeroDown(b.start, b.order - 1, b.order);
    FlipFacts(b.start, b.order - 1);
    LastBit(b.start, b.order - 1);
  }

  lemma {:induction false} LastBit(p: nat, k: nat)
    requires LowZero(p, k + 1)
    ensures Shr(p, k) % 2 == 0
  {
    if k > 0 {
      LastBit(p / 2, k - 1);
    }
  }

  lemma HalveTiles(avail: set<nat>, blocks: set<Block>, b: Block)
    requires Tiles(avail, blocks) && b in blocks && b.order > 0
    ensures var lo := Block(b.start, b.order - 1);
            Tiles(avail, blocks - {b} + {lo, BuddyOf(lo)}) && lo !in blocks && BuddyOf(lo) !in blocks
  {
    LowerHalf(b);
    var lo := Block(b.start, b.order - 1);
    BuddyFacts(lo);
    assert Covers(lo, lo.start) && Covers(BuddyOf(lo), BuddyOf(lo).start);
    forall p | p in avail ensures exists c :: c in blocks - {b} + {lo, BuddyOf(lo)} && Covers(c, p) {
      var c :| c in blocks && Covers(c, p);
      assert (if c != b then c else if Covers(lo, p) then lo else BuddyOf(lo)) in blocks - {b} + {lo, BuddyOf(lo)};
    }
  }

  /** Splitting a block of a partition leaves a partition: the block of the wanted order
      at the same start, and the upper halves. */
  lemma {:induction false} SplitTiles(avail: set<nat>, rest: set<Block>, b: Block, target: nat)
    requires Tiles(avail, rest + {b}) && b !in rest && target <= b.order
    ensures Tiles(avail, rest + Halves(b, target) + {Block(b.start, target)})
    ensures Halves(b, target) !! rest && Block(b.start, target) !in rest && Block(b.start, target) !in Halves(b, target)
    decreases b.order
  {
    if target < b.order {
      var lo := Block(b.start, b.order - 1);
      HalveTiles(avail, rest + {b}, b);
      LowerHalf(b);
      BuddyFacts(lo);
      var rest' := rest + {BuddyOf(lo)};
      assert rest + {b} - {b} + {lo, BuddyOf(lo)} == rest' + {lo};
      SplitTiles(avail, rest', lo, target);
      assert rest' + Halves(lo, target) == rest + Halves(b, target);
    } else {
      assert rest + Halves(b, target) == rest;
    }
  }
}
