/** The laws of the buddy allocator over whole runs of allocations and matching frees:
    memory stays partitioned, no new pair of free buddies appears, and the free blocks
    come back exactly whenever the live blocks do. */
module BuddyLaws {
  import opened Bits
  import opened Buddy

  datatype State = State(free: set<Block>, live: set<Block>)

  ghost predicate Inv(avail: set<nat>, s: State) {
    Tiles(avail, s.free + s.live) && s.free !! s.live
  }

  /** pmm_alloc_pages takes the free block b for a request of this order. */
  ghost predicate Allocates(s: State, s': State, b: Block, order: nat) {
    && b in s.free && order <= b.order
    && s' == State(s.free - {b} + Halves(b, order), s.live + {Block(b.start, order)})
  }

  /** pmm_free_pages returns the live block b. */
  ghost predicate Frees(s: State, s': State, b: Block) {
    b in s.live && s' == State(Coalesce(s.free, b), s.live - {b})
  }

  ghost predicate Step(s: State, s': State) {
    (exists b, order :: Allocates(s, s', b, order)) || (exists b :: Frees(s, s', b))
  }

  /** Free blocks below the largest order whose buddy is free too. */
  ghost function Pairs(free: set<Block>): set<Block> {
    set b | b in free && b.order < MAX_ORDER && BuddyOf(b) in free
  }

  // ---- each step -----------------------------------------------------------------

  lemma {:induction false} HalvesFacts(b: Block, target: nat)
    requires Aligned(b) && target <= b.order
    ensures forall h :: h in Halves(b, target) ==>
              target <= h.order < b.order && Aligned(h) && BuddyOf(h) == Block(b.start, h.order)
    decreases b.order
  {
    hide BuddyOf, Covers, Merged, LowZero;
    if target < b.order {
      var low := Block(b.start, b.order - 1);
      LowerHalf(b);
      BuddyFacts(low);
      HalvesFacts(low, target);
    }
  }

  /** Allocation keeps the partition. */
  lemma AllocKeepsInv(avail: set<nat>, s: State, s': State, b: Block, order: nat)
    requires Inv(avail, s) && Allocates(s, s', b, order)
    ensures Inv(avail, s')
  {
    var rest := s.free - {b} + s.live;
    assert rest + {b} == s.free + s.live;
    SplitTiles(avail, rest, b, order);
    assert rest + Halves(b, order) + {Block(b.start, order)} == s'.free + s'.live;
  }

  lemma AllocMakesNoPairs(avail: set<nat>, s: State, s': State, b: Block, order: nat)
    requires Inv(avail, s) && Allocates(s, s', b, order)
    ensures Pairs(s'.free) <= Pairs(s.free)
  {
    AllocKeepsInv(avail, s, s', b, order);
    HalvesFacts(b, order);
    var taken := Block(b.start, order);
    assert taken in s'.live && Covers(taken, b.start);
    forall c | c in Pairs(s'.free) ensures c in Pairs(s.free) {
      if c in Halves(b, order) {
        assert Covers(BuddyOf(c), b.start);
      } else if BuddyOf(c) in Halves(b, order) {
        BuddyFacts(c);
        assert Covers(c, b.start);
      }
    }
  }

  lemma FreeKeepsInv(avail: set<nat>, s: State, s': State, b: Block)
    requires Inv(avail, s) && Frees(s, s', b)
    ensures Inv(avail, s')
  {
    assert s.free + s.live == s.free + (s.live - {b}) + {b};
    CoalesceTiles(avail, s.free, s.live - {b}, b);
  }

  lemma {:induction false} CoalesceMakesNoPairs(free: set<Block>, b: Block)
    requires Aligned(b) && forall c :: c in free ==> Aligned(c)
    ensures Pairs(Coalesce(free, b)) <= Pairs(free)
    decreases MAX_ORDER - b.order
  {
    if b.order < MAX_ORDER {
      BuddyFacts(b);
    }
    if b.order < MAX_ORDER && BuddyOf(b) in free {
      CoalesceMakesNoPairs(free - {BuddyOf(b)}, Merged(b));
    } else {
      forall c | c in Pairs(free + {b}) ensures c in Pairs(free) {
        BuddyFacts(c);
      }
    }
  }

  lemma StepKeeps(avail: set<nat>, s: State, s': State)
    requires Inv(avail, s) && Step(s, s')
    ensures Inv(avail, s') && Pairs(s'.free) <= Pairs(s.free)
  {
    if b, order :| Allocates(s, s', b, order) {
      AllocKeepsInv(avail, s, s', b, order);
      AllocMakesNoPairs(avail, s, s', b, order);
    } else {
      var b :| Frees(s, s', b);
      FreeKeepsInv(avail, s, s', b);
      assert b in s.free + s.live;
      CoalesceMakesNoPairs(s.free, b);
    }
  }

  // ---- whole runs ------------------------------------------------------------------

  ghost predicate IsRun(run: seq<State>) {
    |run| > 0 && forall i :: 0 <= i < |run| - 1 ==> Step(run[i], run[i + 1])
  }

  /** Over every run, free and live blocks partition the available pages, and no pair of
      free buddies appears that was not there at the start. */
  lemma {:induction false} RunKeeps(avail: set<nat>, run: seq<State>, i: nat)
    requires IsRun(run) && Inv(avail, run[0]) && i < |run|
    ensures Inv(avail, run[i]) && Pairs(run[i].free) <= Pairs(run[0].free)
  {
    if i > 0 {
      RunKeeps(avail, run, i - 1);
      assert Step(run[i - 1], run[i - 1 + 1]);
      StepKeeps(avail, run[i - 1], run[i]);
    }
  }

  // ---- allocation undone by free -----------------------------------------------------

  lemma {:induction false} HalvesStep(b: Block, t: nat)
    requires t < b.order
    ensures Halves(b, t) == Halves(b, t + 1) + {Block(b.start + Pow2(t), t)}
    ensures Block(b.start + Pow2(t), t) !in Halves(b, t + 1)
    ensures forall h :: h in Halves(b, t) ==> t <= h.order < b.order
    decreases b.order
  {
    if t + 1 < b.order {
      HalvesStep(Block(b.start, b.order - 1), t);
    }
  }

  /** Freeing the split-off block climbs back through the upper halves to b. */
  lemma {:induction false} Reassembles(rest: set<Block>, b: Block, t: nat)
    requires Aligned(b) && t <= b.order
    requires rest !! Halves(b, t)
    ensures Coalesce(rest + Halves(b, t), Block(b.start, t)) == Coalesce(rest, b)
    decreases b.order - t
  {
    if t == b.order {
      assert rest + Halves(b, t) == rest;
    } else {
      var lo, hi := Block(b.start, t), Block(b.start + Pow2(t), t);
      LowZeroDown(b.start, t + 1, b.order);
      LowerHalf(Block(b.start, t + 1));
      HalvesStep(b, t);
      assert BuddyOf(lo) == hi && Merged(lo) == Block(b.start, t + 1);
      assert rest + Halves(b, t) - {hi} == rest + Halves(b, t + 1);
      Reassembles(rest, b, t + 1);
    }
  }

  /** From a state in which the chosen block has no free buddy, freeing what was just
      allocated restores the state. */
  lemma AllocFreeRoundTrip(avail: set<nat>, s: State, mid: State, end: State, b: Block, order: nat)
    requires Inv(avail, s) && b !in Pairs(s.free)
    requires Allocates(s, mid, b, order) && Frees(mid, end, Block(b.start, order))
    ensures end == s
  {
    AllocKeepsInv(avail, s, mid, b, order);
    var rest := s.free - {b} + s.live;
    assert rest + {b} == s.free + s.live;
    SplitTiles(avail, rest, b, order);
    Reassembles(s.free - {b}, b, order);
    if b.order < MAX_ORDER {
      BuddyFacts(b);
    }
    assert Coalesce(s.free - {b}, b) == s.free;
    assert end.live == s.live;
  }

  // ---- the free blocks are determined by the free pages ------------------------------------

  /** Where the buddy of b starts, no block but one starting there can lie: the reason
      why a stale descriptor inside a larger block is never taken for a buddy. */
  lemma BuddyHeads(avail: set<nat>, blocks: set<Block>, b: Block, c: Block)
    requires Tiles(avail, blocks) && b in blocks && c in blocks && b.order < MAX_ORDER
    requires Covers(c, BuddyOf(b).start)
    ensures c.start == BuddyOf(b).start && c.order <= b.order
  {
    var q := BuddyOf(b).start;
    BuddyFacts(b);
    assert Covers(b, b.start) && Covers(BuddyOf(b), q) && Covers(Merged(b), q) && Covers(Merged(b), b.start);
    if c.order > b.order {
      Nested(Merged(b), c, q, b.start);
    }
    assert Covers(c, c.start);
    Nested(c, BuddyOf(b), q, c.start);
  }

  /** In a partition without free buddies no block is finer than it has to be. */
  lemma {:induction false} NoFiner(avail: set<nat>, blocks: set<Block>, g: Block, b: Block)
    requires Tiles(avail, blocks) && Pairs(blocks) == {} && b in blocks
    requires Aligned(g) && Covers(g, b.start) && forall p: nat :: Covers(g, p) ==> p in avail
    ensures b.order >= g.order
    decreases b.order
  {
    if b.order < g.order {
      BuddyFacts(b);
      var q := BuddyOf(b).start;
      assert Covers(Merged(b), b.start) && Covers(Merged(b), q) by { assert Covers(b, b.start) && Covers(BuddyOf(b), q); }
      Nested(Merged(b), g, b.start, q);
      var c :| c in blocks && Covers(c, q);
      BuddyHeads(avail, blocks, b, c);
      assert b !in Pairs(blocks);
      assert c != BuddyOf(b);
      NoFiner(avail, blocks, g, c);
    }
  }

  lemma CanonicalHalf(avail: set<nat>, f: set<Block>, g: set<Block>, b: Block)
    requires Tiles(avail, f) && Tiles(avail, g) && Pairs(f) == {} && Pairs(g) == {} && b in f
    ensures b in g
  {
    assert Covers(b, b.start) && b.start in avail;
    var c :| c in g && Covers(c, b.start);
    NoFiner(avail, f, c, b);
    assert Covers(c, c.start);
    Nested(c, b, b.start, c.start);
    NoFiner(avail, g, b, c);
    Nested(b, c, b.start, b.start);
  }

  /** Two partitions of the same pages without free buddies are the same. */
  lemma Canonical(avail: set<nat>, f: set<Block>, g: set<Block>)
    requires Tiles(avail, f) && Tiles(avail, g) && Pairs(f) == {} && Pairs(g) == {}
    ensures f == g
  {
    forall b | b in f ensures b in g { CanonicalHalf(avail, f, g, b); }
    forall b | b in g ensures b in f { CanonicalHalf(avail, g, f, b); }
  }

  /** The pages not covered by a live block. */
  ghost function FreePages(avail: set<nat>, live: set<Block>): set<nat> {
    set p | p in avail && forall b :: b in live ==> !Covers(b, p)
  }

  lemma FreeTiles(avail: set<nat>, s: State)
    requires Inv(avail, s)
    ensures Tiles(FreePages(avail, s.live), s.free)
  {
    var blocks := s.free + s.live;
    forall b, p: nat | b in s.free && Covers(b, p) ensures p in FreePages(avail, s.live) {
      assert b in blocks;
      forall c | c in s.live ensures !Covers(c, p) {
        assert c in blocks;
      }
    }
    forall p | p in FreePages(avail, s.live) ensures exists b :: b in s.free && Covers(b, p) {
      var b :| b in blocks && Covers(b, p);
    }
    forall b | b in s.free ensures Aligned(b) {
      assert b in blocks;
    }
  }

  /** Round trip of any run: started without free buddies, a run that ends with the live
      blocks it started with ends with exactly the free blocks it started with. */
  lemma RunRoundTrip(avail: set<nat>, run: seq<State>)
    requires IsRun(run) && Inv(avail, run[0]) && Pairs(run[0].free) == {}
    requires run[|run| - 1].live == run[0].live
    ensures run[|run| - 1].free == run[0].free
  {
    var last := run[|run| - 1];
    RunKeeps(avail, run, |run| - 1);
    FreeTiles(avail, run[0]);
    FreeTiles(avail, last);
    Canonical(FreePages(avail, last.live), run[0].free, last.free);
  }
}
