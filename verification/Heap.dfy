/** The kernel heap of src/mm/heap.c: headers in memory, relinked and resized in place. The
    lock makes each public call atomic and is not modelled. */
module Heap {
  import opened HeapBlocks
  import opened HeapList

  const MAGIC: nat := 0xDEADBEEF
  const HEADER: nat := 32
  const MIN_BLOCK: nat := 48
  const INITIAL: nat := 65536
  const EXPANSION: nat := 16384
  const U32: nat := 0x1_0000_0000
  const U64: nat := 0x1_0000_0000_0000_0000
  /** Where the kernel sees physical address 0. */
  const KERNEL: nat := 0xFFFF_8000_0000_0000

  /** Memory for the heap comes from the zones below 4 GB, never from page 0. */
  predicate RegionOk(r: nat, n: nat) {
    r % 16 == 0 && KERNEL < r && r + n <= KERNEL + U32
  }

  // ---- the request size ---------------------------------------------------------------

  /** The block size kmalloc looks for, in 64-bit arithmetic. */
  function Padded(size: nat): nat {
    var aligned := ((size + 15) % U64) / 16 * 16;
    var padded := (aligned + HEADER) % U64;
    if padded < MIN_BLOCK then MIN_BLOCK else padded
  }

  /** The padded size covers the request unless the 64-bit addition wrapped. */
  lemma PaddedCovers(size: nat)
    requires size < U64
    ensures Padded(size) % 16 == 0 && MIN_BLOCK <= Padded(size) < U64
    ensures Padded(size) - HEADER >= size <==> size <= U64 - 48
    ensures size <= U64 - 48 ==> Padded(size) < size + 48 + 16
    ensures size > U64 - 48 ==> Padded(size) == MIN_BLOCK
  {
  }

  /** split_block computes what remains in 64-bit unsigned arithmetic. */
  function Remaining(blockSize: nat, size: nat): nat
    requires size < U64
  {
    (blockSize + U64 - size) % U64
  }

  // ---- the state ------------------------------------------------------------------------

  ghost predicate HeadersOk(mem: Memory, fl: seq<nat>, live: set<nat>, m: Sizes) {
    && (forall b :: b in m <==> b in fl || b in live)
    && (forall b :: b in live ==> b !in fl)
    && (forall b :: b in m ==> b in mem && mem[b].size == m[b] && mem[b].magic == MAGIC)
    && (forall b :: b in live ==> !mem[b].free)
  }

  ghost predicate ShapeOk(m: Sizes) {
    forall b :: b in m ==> RegionOk(b, m[b]) && m[b] % 16 == 0 && m[b] >= MIN_BLOCK
  }

  /** No free block ends where another one starts. */
  ghost predicate Apart(fl: seq<nat>, m: Sizes) {
    forall b, c :: b in fl && c in fl && b in m ==> b + m[b] != c
  }

  predicate InSpan(a: nat, from: nat, n: nat) { from <= a < from + n }

  ghost function Span(from: nat, n: nat): set<nat> {
    set a: nat | a < from + n && InSpan(a, from, n)
  }

  class Allocator {
    const start: nat
    var mem: Memory
    var freeList: nat
    var allocCount: nat
    var freeCount: nat
    var totalAllocated: nat
    var totalFreed: nat
    var currentUsage: nat
    var peakUsage: nat

    ghost var fl: seq<nat>
    ghost var live: set<nat>
    ghost var sizes: Sizes
    ghost var arena: set<nat>
    ghost var expanded: bool

    /** Lists, headers and tiling; the statistics may be one step behind. */
    ghost predicate Core()
      reads this
    {
      && ListOk(mem, freeList, fl)
      && HeadersOk(mem, fl, live, sizes)
      && ShapeOk(sizes)
      && Tiles(arena, sizes)
      && live <= sizes.Keys
    }

    ghost predicate Valid()
      reads this
    {
      && Core() && currentUsage == Sum(sizes, live)
      && totalAllocated == totalFreed + currentUsage && currentUsage <= peakUsage
      && (!expanded ==> Apart(fl, sizes) && arena == Span(start, INITIAL))
    }

    /** heap_init with a 64 KB region from the physical allocator. */
    constructor (region: nat)
      requires RegionOk(region, INITIAL)
      ensures Valid() && !expanded && arena == Span(region, INITIAL) && start == region && live == {} && fl == [region] && sizes == map[region := INITIAL]
    {
      start := region;
      mem := map[region := Header(MAGIC, INITIAL, true, NULL, NULL)];
      freeList := region;
      allocCount, freeCount, totalAllocated, totalFreed, currentUsage, peakUsage := 0, 0, 0, 0, 0, 0;
      fl, live, sizes, expanded := [region], {}, map[region := INITIAL], false;
      arena := Span(region, INITIAL);
    }

    /** free_list_add of a block that is not on the list. */
    method FreeListAdd(b: nat) returns (ghost k: nat)
      requires ListOk(mem, freeList, fl) && b in mem && b != NULL && b !in fl
      modifies `mem, `freeList, `fl
      ensures ListOk(mem, freeList, fl) && SameButLinks(old(mem), mem, b) && mem[b].free
      ensures k <= |old(fl)| && fl == Insert(old(fl), k, b)
    {
      hide ListOk, Walkable, SameButLinks, Insert, Sorted, Linked;
      ListWalkable(mem, freeList, fl, b);
      ghost var prev, next;
      prev, next, k := LinkInto(b);
      Inserted(old(mem), old(freeList), fl, b, prev, next, k);
      fl := Insert(fl, k, b);
    }

    /** The code of free_list_add. It needs no more than that the list can be walked up to b;
        when b is on it already, as after a split that ran past its block, the links it leaves
        are no list any more. */
    method LinkInto(b: nat) returns (ghost prev: nat, ghost next: nat, ghost k: nat)
      requires b in mem && Walkable(mem, freeList, fl, b)
      modifies `mem, `freeList
      ensures (prev != NULL ==> prev in old(mem)) && (next != NULL ==> next in old(mem))
      ensures mem == Linked(old(mem), b, prev, next) && freeList == (if k > 0 then old(freeList) else b)
      ensures b !in fl ==> PlaceOf(fl, b, k) && prev == (if k > 0 then fl[k - 1] else NULL) && next == (if k < |fl| then fl[k] else NULL)
    {
      hide Linked, PlaceOf, Walkable, Sorted;
      ghost var h := mem;
      mem := mem[b := mem[b].(free := true)];
      if freeList == NULL || b < freeList {
        prev, next, k := NULL, freeList, 0;
        BelowHead(h, freeList, fl, b);
        LinkFirst(b, h);
        return;
      }
      var curr;
      ghost var i;
      curr, i := FindPlace(b, h);
      k := i + 1;
      var after := mem[curr].next;
      prev, next := curr, after;
      if b !in fl {
        Between(h, freeList, fl, i, b);
      }
      LinkAfter(b, curr, after, h);
    }

    /** The writes that put b between curr and next. */
    method LinkAfter(b: nat, curr: nat, next: nat, ghost h: Memory)
      requires b in h && curr in h && curr != NULL && (next != NULL ==> next in h)
      requires mem == h[b := h[b].(free := true)]
      modifies `mem
      ensures mem == Linked(h, b, curr, next)
    {
      mem := mem[b := mem[b].(next := next, prev := curr)];
      if next != NULL {
        mem := mem[next := mem[next].(prev := b)];
      }
      mem := mem[curr := mem[curr].(next := b)];
    }

    /** The writes that put b before the first block. */
    method LinkFirst(b: nat, ghost h: Memory)
      requires b in h && (freeList != NULL ==> freeList in h)
      requires mem == h[b := h[b].(free := true)]
      modifies `mem, `freeList
      ensures mem == Linked(h, b, NULL, old(freeList)) && freeList == b
    {
      mem := mem[b := mem[b].(next := freeList, prev := NULL)];
      if freeList != NULL {
        mem := mem[freeList := mem[freeList].(prev := b)];
      }
      freeList := b;
    }

    /** The loop of free_list_add: the last free block below b. */
    method FindPlace(b: nat, ghost h: Memory) returns (curr: nat, ghost i: nat)
      requires Walkable(h, freeList, fl, b) && freeList != NULL && freeList <= b && b in h
      requires mem == h[b := h[b].(free := true)]
      ensures i < |fl| && curr == fl[i] && curr <= b && curr in mem && curr != NULL
      ensures mem[curr].next == (if i + 1 < |fl| && curr != b then fl[i + 1] else NULL)
      ensures i + 1 < |fl| && curr != b ==> fl[i + 1] >= b && fl[i + 1] in h
    {
      curr := freeList;
      i := 0;
      while mem[curr].next != NULL && mem[curr].next < b
        invariant 0 <= i < |fl| && curr == fl[i] && curr <= b && curr in mem
        invariant mem[curr].next == (if i + 1 < |fl| && curr != b then fl[i + 1] else NULL)
        decreases |fl| - i
      {
        curr := mem[curr].next;
        i := i + 1;
      }
    }

    method FreeListRemove(b: nat, ghost i: nat)
      requires ListOk(mem, freeList, fl) && i < |fl| && fl[i] == b
      modifies `mem, `freeList, `fl
      ensures ListOk(mem, freeList, fl) && SameButLinks(old(mem), mem, b)
      ensures fl == Without(old(fl), i) && !mem[b].free && mem[b].next == NULL
    {
      ghost var h, head, l := mem, freeList, fl;
      Neighbours(h, head, l, i);
      UnlinkOk(h, head, l, i);
      assert b in mem && (i > 0 ==> l[i - 1] in mem) && (i + 1 < |l| ==> l[i + 1] in mem);
      hide ListOk, NodeOk, SameButLinks, Without;
      var next, prev := mem[b].next, mem[b].prev;
      if prev != NULL {
        mem := mem[prev := mem[prev].(next := next)];
      } else {
        freeList := next;
      }
      if next != NULL {
        mem := mem[next := mem[next].(prev := prev)];
      }
      mem := mem[b := mem[b].(next := NULL, prev := NULL, free := false)];
      fl := Without(l, i);
      assert mem == Unlinked(h, b, prev, next);
    }

    /** The i-th free block and its header. */
    lemma Free(i: nat)
      requires Core() && i < |fl|
      ensures fl[i] != NULL && fl[i] in mem && mem[fl[i]].free && fl[i] in sizes && mem[fl[i]].size == sizes[fl[i]]
      ensures mem[fl[i]].next == (if i + 1 < |fl| then fl[i + 1] else NULL)
      ensures mem[fl[i]].prev == (if i > 0 then fl[i - 1] else NULL)
    {
      Neighbours(mem, freeList, fl, i);
      assert fl[i] in fl;
    }

    lemma FreeSizes()
      requires Valid()
      ensures forall b :: b in fl ==> b in sizes && b != NULL
      ensures freeList == (if fl == [] then NULL else fl[0]) && Sorted(fl)
    {
    }

    /** find_free_block: the smallest adequate free block, the first of those. */
    method FindFreeBlock(size: nat) returns (best: nat)
      requires Valid()
      ensures best == NULL <==> forall b :: b in fl ==> sizes[b] < size
      ensures best != NULL ==>
                && best in fl && sizes[best] >= size
                && (forall b :: b in fl && sizes[b] >= size ==> sizes[best] <= sizes[b])
                && (forall b :: b in fl && sizes[b] == sizes[best] ==> best <= b)
    {
      hide ListOk, HeadersOk, Tiles, Apart, Sum, Best, NoneFits, ShapeOk;
      FreeSizes();
      if fl != [] {
        Free(0);
      }
      NothingYet(fl, sizes, size);
      var curr := freeList;
      best := NULL;
      ghost var i, at := 0, 0;
      while curr != NULL
        invariant 0 <= i <= |fl| && curr == (if i < |fl| then fl[i] else NULL)
        invariant if best == NULL then NoneFits(fl, sizes, size, i) else 0 <= at < i && Best(fl, sizes, size, i, at) && best == fl[at]
        decreases |fl| - i
      {
        Free(i);
        if best != NULL {
          BestIsFree(size, i, at);
        }
        BestStep(fl, sizes, size, i, at);
        if mem[curr].free && mem[curr].size >= size {
          if best == NULL || mem[curr].size < mem[best].size {
            best, at := curr, i;
            if mem[curr].size == size {
              BestOfAll(fl, sizes, size, i + 1, at);
              return;
            }
          }
        }
        curr := mem[curr].next;
        i := i + 1;
        if i < |fl| {
          Free(i);
        }
      }
      BestOrNone(fl, sizes, size, at, best);
    }

    lemma BestIsFree(size: nat, n: nat, at: nat)
      requires Valid() && Best(fl, sizes, size, n, at)
      ensures fl[at] in mem && mem[fl[at]].size == sizes[fl[at]] && fl[at] != NULL
    {
      Free(at);
    }

    // ---- coalescing ------------------------------------------------------------------

    /** Joins the i-th free block with the next one, which starts at its end. */
    method Absorb(p: nat, ghost i: nat)
      requires i + 1 < |fl| && fl[i] == p && p in sizes && p + sizes[p] in sizes && p + sizes[p] == fl[i + 1]
      requires Core()
      modifies `mem, `fl, `sizes
      ensures Core() && fl == Without(old(fl), i + 1) && sizes == Joined(old(sizes), p)
      ensures SameSizes(live, old(sizes), sizes)
    {
      hide ListOk, HeadersOk, ShapeOk, Tiles, Without, Joined, Bridged;
      ghost var h, l, m := mem, fl, sizes;
      FreeInSizes();
      Free(i);
      Free(i + 1);
      if i + 2 < |l| { Free(i + 2); }
      var n := mem[p].next;
      var nn := mem[n].next;
      mem := mem[p := mem[p].(size := mem[p].size + mem[n].size, next := nn)];
      if nn != NULL {
        mem := mem[nn := mem[nn].(prev := p)];
      }
      fl, sizes := Without(l, i + 1), Joined(m, p);
      JoinTiles(arena, m, p);
      JoinHeaders(h, l, live, m, i, mem);
      JoinList(h, freeList, l, i, mem, m[p] + m[n]);
    }

    /** coalesce: joins b, just put on the list, with its free neighbours on both sides. */
    method Coalesce(b: nat, ghost k: nat)
      requires Core() && k < |fl| && fl[k] == b
      modifies `mem, `fl, `sizes
      ensures Core()
      ensures SameSizes(live, old(sizes), sizes)
      ensures old(ApartBut(fl, sizes, b)) ==> Apart(fl, sizes)
    {
      hide ListOk, HeadersOk, Apart, ApartBut, NoneAfter, NoneBefore, ShapeOk, Tiles, Without, Joined;
      ghost var l, m := fl, sizes;
      FreeInSizes();
      Free(k);
      if k + 1 < |fl| { Free(k + 1); }
      var next := mem[b].next;
      if next != NULL && b + mem[b].size == next && mem[next].free {
        JoinedNext(arena, l, m, k);
        Absorb(b, k);
      } else {
        NotJoinedNext(arena, l, m, k);
      }
      FreeInSizes();
      ghost var l1, m1 := fl, sizes;
      Free(k);
      if k > 0 { Free(k - 1); }
      var prev := mem[b].prev;
      if prev != NULL && mem[prev].free && prev + mem[prev].size == b {
        JoinedPrev(l1, m1, k);
        Absorb(prev, k - 1);
      } else {
        NotJoinedPrev(arena, l1, m1, k);
      }
    }

    // ---- kfree -----------------------------------------------------------------------------

    /** kfree of NULL, of a live block, or of a free one (which the source turns away). */
    method Kfree(ptr: nat)
      requires Valid()
      requires ptr != NULL ==> ptr >= HEADER && (ptr - HEADER in live || ptr - HEADER in fl)
      modifies this
      ensures Valid() && arena == old(arena) && expanded == old(expanded)
      ensures freeCount == old(freeCount) + (if ptr != NULL && ptr - HEADER in old(live) then 1 else 0)
      ensures allocCount == old(allocCount) && totalAllocated == old(totalAllocated) && peakUsage == old(peakUsage)
      ensures live == if ptr == NULL then old(live) else old(live) - {ptr - HEADER}
      ensures SameSizes(live, old(sizes), sizes)
      ensures ptr == NULL || ptr - HEADER !in old(live) ==> fl == old(fl) && sizes == old(sizes) && mem == old(mem)
    {
      hide ListOk, HeadersOk, ShapeOk, Tiles, Apart, ApartBut, Sum;
      if ptr == NULL {
        return;
      }
      var b := ptr - HEADER;
      BlockFacts(b);
      if mem[b].magic != MAGIC {
        return;
      }
      if mem[b].free {
        return;
      }
      CountLive(b);
      CountOut(mem[b].size);
      ReturnBlock(b);
    }

    lemma CountLive(b: nat)
      requires Core() && b in live && b in mem && b in sizes && mem[b].size == sizes[b]
      ensures Sum(sizes, live) == Sum(sizes, live - {b}) + mem[b].size
    {
      SumTake(sizes, live, b);
    }

    /** The end of kfree: the block goes back on the list and is joined with its neighbours. */
    method ReturnBlock(b: nat)
      requires Core() && b in live && (!expanded ==> Apart(fl, sizes))
      modifies `mem, `freeList, `fl, `sizes, `live
      ensures Core() && live == old(live) - {b} && SameSizes(live, old(sizes), sizes)
      ensures Sum(sizes, live) == old(Sum(sizes, live - {b}))
      ensures !expanded ==> Apart(fl, sizes)
    {
      hide ListOk, HeadersOk, ShapeOk, Tiles, Apart, ApartBut, Sum;
      BlockFacts(b);
      ghost var h, l, m, lv := mem, fl, sizes, live;
      live := live - {b};
      ghost var k := FreeListAdd(b);
      AddHeaders(h, l, lv, m, k, b, mem);
      if !expanded {
        AddApart(l, m, k, b);
      }
      Coalesce(b, k);
      SumSame(m, sizes, live);
    }

    /** The statistics of a free. */
    method CountOut(n: nat)
      requires n <= currentUsage
      modifies `freeCount, `totalFreed, `currentUsage
      ensures freeCount == old(freeCount) + 1 && totalFreed == old(totalFreed) + n && currentUsage == old(currentUsage) - n
    {
      freeCount := freeCount + 1;
      totalFreed := totalFreed + n;
      currentUsage := currentUsage - n;
    }

    lemma BlockFacts(b: nat)
      requires Core() && (b in live || b in fl)
      ensures b in mem && b in sizes && mem[b].magic == MAGIC && mem[b].size == sizes[b] && b != NULL
      ensures mem[b].free <==> b !in live
      ensures b in live ==> b !in fl
      ensures RegionOk(b, sizes[b]) && sizes[b] % 16 == 0 && sizes[b] >= MIN_BLOCK
    {
    }

    // ---- kmalloc -----------------------------------------------------------------------

    /** split_block on a block in use. A tail that is large enough becomes a free block. A request
        larger than the block makes the difference wrap, and the tail is laid out all the same. */
    method SplitBlock(b: nat, size: nat)
      requires Core() && b in live && b in sizes && b in mem && mem[b].next == NULL
      requires MIN_BLOCK <= size < U64 && size % 16 == 0
      modifies `mem, `freeList, `fl, `sizes
      ensures size <= old(sizes)[b] ==> Core() && CutWell(old(fl), fl, old(sizes), sizes, b, size)
      ensures size > old(sizes)[b] ==> sizes == Overrun(old(sizes), b, size) && Claims(mem, sizes, {b, (b + size) % U64})
    {
      hide ListOk, ShapeOk, Tiles, HeadersOk, NodeOk, Insert, Walkable, PlaceOf, SameButLinks, Linked, Cut, Overrun, CutWell, Claims, Remaining;
      BlockFacts(b);
      ghost var h, l, m := mem, fl, sizes;
      RemainingIs(m[b], size);
      NoCut(l, m, b, size);
      var remaining := Remaining(mem[b].size, size);
      if remaining >= MIN_BLOCK {
        var tail := (b + size) % U64;
        mem := mem[tail := Header(MAGIC, remaining % U32, false, mem[b].next, b)];
        mem := mem[b := mem[b].(next := tail, size := size % U32)];
        ghost var cut, head := mem, freeList;
        assert cut == CutMemory(h, b, m[b], size);
        CutMemoryIs(h, b, m[b], size);
        CutWalkable(h, head, l, b, tail, cut);
        ghost var prev, next, k := LinkInto(tail);
        if size <= m[b] {
          WellCut(arena, h, head, l, live, m, b, size, mem, prev, next, k);
          fl, sizes := Insert(l, k, tail), Cut(m, b, size);
        } else {
          PastCut(h, m, b, size, mem, prev, next);
          sizes := Overrun(m, b, size);
        }
      }
    }

    /** The free block b goes into use, cut down to `size`. */
    method TakeBlock(b: nat, size: nat)
      requires Core() && b in fl && b in sizes && MIN_BLOCK <= size < U64 && size % 16 == 0
      modifies `mem, `freeList, `fl, `sizes, `live
      ensures live == old(live) + {b} && b !in old(live)
      ensures size <= old(sizes)[b] ==>
                && Core() && sizes == Taken(old(sizes), b, size)
                && b in sizes && sizes[b] >= size && SameSizes(old(live), old(sizes), sizes)
                && (old(Apart(fl, sizes)) ==> Apart(fl, sizes))
      ensures size > old(sizes)[b] ==> sizes == Overrun(old(sizes), b, size) && Claims(mem, sizes, {b, (b + size) % U64})
      ensures b in mem
    {
      hide ListOk, HeadersOk, ShapeOk, Tiles, NodeOk, Without, Apart, Overrun;
      ghost var h, l, m, lv := mem, fl, sizes, live;
      BlockFacts(b);
      ghost var i :| 0 <= i < |l| && l[i] == b;
      FreeInSizes();
      WithoutIs(l, i);
      FreeListRemove(b, i);
      live := live + {b};
      RemoveHeaders(h, l, lv, m, i, mem);
      SplitBlock(b, size);
      if size <= m[b] {
        BlockFacts(b);
        TakeApart(arena, l, m, b, size, fl);
        TakeKeeps(l, lv, h, m, b, size);
      } else {
        TakeKeeps(l, lv, h, m, b, 0);
      }
    }

    /** The branch of kmalloc that adds a 16 KB region. */
    method Expand(region: nat)
      requires Valid() && RegionOk(region, EXPANSION) && arena !! Span(region, EXPANSION)
      modifies `mem, `freeList, `fl, `sizes, `arena, `expanded
      ensures Core() && expanded && arena == old(arena) + Span(region, EXPANSION)
      ensures sizes == old(sizes)[region := EXPANSION] && region !in old(sizes) && region in fl
    {
      hide ListOk, HeadersOk, ShapeOk, Tiles, NodeOk, Apart, Insert, Sum;
      ghost var h, l, m := mem, fl, sizes;
      NotABlock(region);
      ExtendTiles(arena, m, region, EXPANSION, arena + Span(region, EXPANSION));
      mem := mem[region := Header(MAGIC, EXPANSION, false, NULL, NULL)];
      NewList(h, freeList, l, live, m, region, mem);
      ghost var k := FreeListAdd(region);
      InsertIs(l, k, region);
      sizes, arena, expanded := m[region := EXPANSION], arena + Span(region, EXPANSION), true;
      NewHeaders(h, l, live, m, region, k, mem);
    }

    lemma NotABlock(region: nat)
      requires Core() && arena !! Span(region, EXPANSION)
      ensures region !in sizes && region !in fl && region !in live
      ensures forall a: nat :: a in arena + Span(region, EXPANSION) <==> a in arena || region <= a < region + EXPANSION
      ensures forall a: nat :: region <= a < region + EXPANSION ==> a !in arena
    {
      forall a: nat | region <= a < region + EXPANSION ensures a in Span(region, EXPANSION) {
        assert InSpan(a, region, EXPANSION);
      }
      if region in sizes {
        assert Within(sizes, region, region);
      }
    }

    /** The heap must grow for this request and grows by too little: expansion is by 16 KB
        whatever was asked for. */
    ghost predicate Overruns(size: nat, region: nat)
      reads this
    {
      size != 0 && region != NULL && NoFit(fl, sizes, Padded(size)) && Padded(size) > EXPANSION
    }

    /** kmalloc. `region` is what the physical allocator answers if the heap must grow, and
        `grown` says that it did. The blocks still tile the arena afterwards and the result has
        the bytes asked for exactly if the size did not wrap and the request did not overrun the
        region it was given. */
    method Kmalloc(size: nat, region: nat) returns (ptr: nat, ghost grown: bool)
      requires Valid() && size < U64
      requires region != NULL ==> RegionOk(region, EXPANSION) && arena !! Span(region, EXPANSION)
      modifies this
      ensures ptr == NULL <==> size == 0 || (region == NULL && NoFit(old(fl), old(sizes), Padded(size)))
      ensures ptr == NULL ==> live == old(live) && fl == old(fl) && sizes == old(sizes) && mem == old(mem) && arena == old(arena) && expanded == old(expanded)
      ensures Valid() <==> !old(Overruns(size, region))
      ensures allocCount == old(allocCount) + (if ptr != NULL then 1 else 0) && freeCount == old(freeCount) && totalFreed == old(totalFreed)
      ensures peakUsage == if ptr != NULL && currentUsage > old(peakUsage) then currentUsage else old(peakUsage)
      ensures old(Overruns(size, region)) ==> !Tiles(arena, sizes)
      ensures ptr != NULL ==>
                && ptr >= HEADER && ptr % 16 == 0 && ptr - HEADER !in old(live) && live == old(live) + {ptr - HEADER}
                && (grown <==> NoFit(old(fl), old(sizes), Padded(size)))
      ensures ptr != NULL ==> (Tiles(arena, sizes) && Serves(arena, sizes, ptr - HEADER, size) <==> size <= U64 - 48 && !old(Overruns(size, region)))
      ensures ptr != NULL && !old(Overruns(size, region)) ==> ptr - HEADER in sizes && sizes[ptr - HEADER] >= Padded(size)
      ensures !old(Overruns(size, region)) ==> SameSizes(old(live), old(sizes), sizes)
      ensures ptr != NULL && !grown ==>
                && arena == old(arena) && expanded == old(expanded)
                && BestFit(old(fl), old(sizes), Padded(size), ptr - HEADER)
                && sizes == Taken(old(sizes), ptr - HEADER, Padded(size))
      ensures ptr != NULL && grown ==>
                && ptr - HEADER == region && expanded && arena == old(arena) + Span(region, EXPANSION)
                && if old(Overruns(size, region))
                   then && sizes == Overrun(old(sizes)[region := EXPANSION], region, Padded(size))
                        && Claims(mem, sizes, {region, (region + Padded(size)) % U64})
                   else sizes == Taken(old(sizes)[region := EXPANSION], region, Padded(size))
    {
      hide ListOk, HeadersOk, ShapeOk, Tiles, Apart, Sum, Padded, Span, Cut, Taken, NoFit, BestFit, Overrun, Claims, Serves;
      ptr, grown := NULL, false;
      if size == 0 {
        return;
      }
      var padded := Padded(size);
      PaddedCovers(size);
      var block;
      block, grown := FindOrExpand(padded, region);
      if block == NULL {
        return;
      }
      ghost var m, lv := sizes, live;
      TakeBlock(block, padded);
      if padded <= m[block] {
        Accounted(m, lv, block);
        ServesIf(arena, m, sizes, block, size);
      } else {
        OverrunBreaksTiling(arena, m, block, padded);
      }
      CountIn(mem[block].size);
      ptr := block + HEADER;
    }

    /** The statistics of an allocation. */
    method CountIn(n: nat)
      modifies `allocCount, `totalAllocated, `currentUsage, `peakUsage
      ensures allocCount == old(allocCount) + 1 && totalAllocated == old(totalAllocated) + n && currentUsage == old(currentUsage) + n
      ensures peakUsage == if currentUsage > old(peakUsage) then currentUsage else old(peakUsage)
    {
      allocCount := allocCount + 1;
      totalAllocated := totalAllocated + n;
      currentUsage := currentUsage + n;
      if currentUsage > peakUsage {
        peakUsage := currentUsage;
      }
    }

    /** The new block adds its size to the sum over the live ones. */
    lemma Accounted(m: Sizes, lv: set<nat>, block: nat)
      requires Core() && live == lv + {block} && block !in lv && SameSizes(lv, m, sizes)
      ensures block in mem && block in sizes && Sum(sizes, live) == Sum(m, lv) + mem[block].size
    {
      Counted(block);
      SumTake(sizes, live, block);
      assert live - {block} == lv;
      SumSame(m, sizes, lv);
    }

    /** The search of kmalloc, growing the heap when nothing fits. */
    method FindOrExpand(padded: nat, region: nat) returns (block: nat, ghost grown: bool)
      requires Valid()
      requires region != NULL ==> RegionOk(region, EXPANSION) && arena !! Span(region, EXPANSION)
      modifies `mem, `freeList, `fl, `sizes, `arena, `expanded
      ensures Core() && (!expanded ==> Apart(fl, sizes) && arena == Span(start, INITIAL))
      ensures block == NULL <==> region == NULL && NoFit(old(fl), old(sizes), padded)
      ensures SameSizes(live, old(sizes), sizes)
      ensures Sum(sizes, live) == old(Sum(sizes, live))
      ensures block == NULL ==> fl == old(fl) && sizes == old(sizes) && mem == old(mem) && arena == old(arena) && expanded == old(expanded)
      ensures block != NULL ==> block in fl && block in sizes && RegionOk(block, sizes[block]) && block !in live && Tiles(arena, sizes)
      ensures grown <==> block != NULL && NoFit(old(fl), old(sizes), padded)
      ensures block != NULL && !grown ==>
                && fl == old(fl) && sizes == old(sizes) && arena == old(arena) && expanded == old(expanded)
                && BestFit(fl, sizes, padded, block) && sizes[block] >= padded
      ensures grown ==>
                && block == region && expanded && arena == old(arena) + Span(region, EXPANSION)
                && sizes == old(sizes)[region := EXPANSION]
    {
      hide ListOk, HeadersOk, Tiles, Apart, Sum, Span;
      FreeInSizes();
      grown := false;
      block := FindFreeBlock(padded);
      if block == NULL {
        if region == NULL {
          return;
        }
        NotABlock(region);
        ghost var m := sizes;
        Expand(region);
        SumSame(m, sizes, live);
        block, grown := region, true;
      }
      BlockFacts(block);
    }

    /** All of the heap is one block in use. */
    lemma NothingFree(first: nat)
      requires Valid() && sizes.Keys == {first} && live == {first}
      ensures fl == []
    {
      assert forall b :: b in fl ==> b in sizes && b !in live;
      NoElement(fl);
    }

    lemma Counted(b: nat)
      requires Core() && b in live
      ensures b in mem && b in sizes && mem[b].size == sizes[b] && b % 16 == 0
    {
    }

    /** A heap that never grew and whose every block was freed is back to its initial
        single free block, whatever the order of calls was. */
    lemma AllFreed()
      requires Valid() && live == {} && !expanded
      ensures fl == [start] && sizes == map[start := INITIAL] && freeList == start
      ensures start in mem && mem[start] == Header(MAGIC, INITIAL, true, NULL, NULL)
      ensures currentUsage == 0
    {
      OneBlockLeft(start, INITIAL, fl, sizes);
      Free(0);
      BlockFacts(start);
    }

    lemma FreeInSizes()
      requires Core()
      ensures forall b :: b in fl ==> b in sizes && b != NULL
      ensures Sorted(fl)
    {
    }
  }

  /** The overrun is reached: a fresh heap whose one block is taken whole, and then a request
      for 20000 bytes. Its block claims 20032 bytes of a region of 16384. */
  method FullHeapOverrun(first: nat, second: nat) returns (heap: Allocator, ptr: nat)
    requires RegionOk(first, INITIAL) && RegionOk(second, EXPANSION) && Span(first, INITIAL) !! Span(second, EXPANSION)
    ensures fresh(heap) && ptr == second + HEADER && heap.arena == Span(first, INITIAL) + Span(second, EXPANSION)
    ensures second in heap.mem && heap.mem[second].size == 20032 && !Tiles(heap.arena, heap.sizes)
  {
    hide Tiles, ListOk, Apart, Sum, ShapeOk, Serves, Span, Overrun, HeadersOk;
    heap := new Allocator(first);
    assert Padded(INITIAL - HEADER) == INITIAL && !NoFit(heap.fl, heap.sizes, INITIAL) by {
      assert first in heap.fl;
    }
    ghost var grown;
    ptr, grown := heap.Kmalloc(INITIAL - HEADER, NULL);
    heap.NothingFree(first);
    ptr := OverrunOnce(heap, second);
  }

  method OverrunOnce(heap: Allocator, second: nat) returns (ptr: nat)
    requires heap.Valid() && heap.fl == [] && RegionOk(second, EXPANSION) && heap.arena !! Span(second, EXPANSION)
    modifies heap
    ensures ptr == second + HEADER && heap.arena == old(heap.arena) + Span(second, EXPANSION)
    ensures second in heap.mem && heap.mem[second].size == 20032 && !Tiles(heap.arena, heap.sizes)
  {
    hide Tiles, ListOk, Apart, Sum, ShapeOk, Serves, Span, HeadersOk, Claims;
    assert Padded(20000) == 20032 && NoFit(heap.fl, heap.sizes, 20032);
    assert heap.Overruns(20000, second);
    ghost var grown;
    ptr, grown := heap.Kmalloc(20000, second);
    OverrunClaims(heap.mem, heap.sizes, second, 20032);
    Elsewhere(second, 20032, 0);
  }

  lemma NoElement(l: seq<nat>)
    ensures l == [] || exists b :: b in l
  {
    assert l != [] ==> l[0] in l;
  }

  /** No free block is large enough. */
  ghost predicate NoFit(fl: seq<nat>, m: Sizes, size: nat) {
    forall b :: b in fl && b in m ==> m[b] < size
  }

  /** Block b is free, adequate, no larger than any other adequate free block, and the
      first of its size. */
  ghost predicate BestFit(fl: seq<nat>, m: Sizes, size: nat, b: nat) {
    && b in fl && b in m && m[b] >= size
    && (forall c :: c in fl && c in m && m[c] >= size ==> m[b] <= m[c])
    && (forall c :: c in fl && c in m && m[c] == m[b] ==> b <= c)
  }

  /** The blocks after b is taken for `size` bytes: cut if the tail makes a block of its own. */
  ghost function Taken(m: Sizes, b: nat, size: nat): Sizes {
    if b in m && size <= m[b] && m[b] - size >= MIN_BLOCK then Cut(m, b, size) else m
  }

  // ---- adjacency of free blocks -----------------------------------------------------------

  /** No two free blocks other than b touch. */
  ghost predicate ApartBut(fl: seq<nat>, m: Sizes, b: nat) {
    forall x, y :: x in fl && y in fl && x != b && y != b && x in m ==> x + m[x] != y
  }

  ghost predicate NoneAfter(fl: seq<nat>, m: Sizes, b: nat) {
    forall y :: y in fl && b in m ==> b + m[b] != y
  }

  ghost predicate NoneBefore(fl: seq<nat>, m: Sizes, b: nat) {
    forall x :: x in fl && x in m ==> x + m[x] != b
  }

  ghost predicate FreeListOf(fl: seq<nat>, m: Sizes) {
    Sorted(fl) && forall b :: b in fl ==> b in m
  }

  /** The free block that starts where the k-th one ends is the next on the list. */
  lemma NextIsAfter(arena: set<nat>, l: seq<nat>, m: Sizes, k: nat, y: nat)
    requires Tiles(arena, m) && FreeListOf(l, m) && k < |l| && y in l && l[k] in m && l[k] + m[l[k]] == y
    ensures k + 1 < |l| && l[k + 1] == y
  {
    var j :| 0 <= j < |l| && l[j] == y;
    assert m[l[k]] > 0;
    assert j > k;
    if j != k + 1 {
      var c := l[k + 1];
      assert c in l && l[k] < c < y;
      assert Within(m, l[k], c) && Within(m, c, c);
    }
  }

  lemma PrevIsBefore(arena: set<nat>, l: seq<nat>, m: Sizes, k: nat, x: nat)
    requires Tiles(arena, m) && FreeListOf(l, m) && k < |l| && x in l && x + m[x] == l[k]
    ensures k > 0 && l[k - 1] == x
  {
    var j :| 0 <= j < |l| && l[j] == x;
    assert m[x] > 0;
    NextIsAfter(arena, l, m, j, l[k]);
  }

  lemma JoinedNext(arena: set<nat>, l: seq<nat>, m: Sizes, k: nat)
    requires Tiles(arena, m) && FreeListOf(l, m) && k + 1 < |l| && l[k] in m && l[k] + m[l[k]] == l[k + 1]
    requires l[k + 1] in m
    ensures Without(l, k + 1)[k] == l[k] && |Without(l, k + 1)| == |l| - 1
    ensures ApartBut(l, m, l[k]) ==> ApartBut(Without(l, k + 1), Joined(m, l[k]), l[k]) && NoneAfter(Without(l, k + 1), Joined(m, l[k]), l[k])
  {
    hide Tiles;
    WithoutIs(l, k + 1);
    TilesPositive(arena, m);
    var c := l[k + 1];
    assert c in l;
  }

  lemma TilesPositive(arena: set<nat>, m: Sizes)
    requires Tiles(arena, m)
    ensures forall b :: b in m ==> m[b] > 0
  {
  }

  lemma NotJoinedNext(arena: set<nat>, l: seq<nat>, m: Sizes, k: nat)
    requires Tiles(arena, m) && FreeListOf(l, m) && k < |l| && l[k] in m
    requires k + 1 < |l| ==> l[k] + m[l[k]] != l[k + 1]
    ensures NoneAfter(l, m, l[k])
  {
    hide Tiles;
    forall y | y in l ensures l[k] + m[l[k]] != y {
      if l[k] + m[l[k]] == y {
        NextIsAfter(arena, l, m, k, y);
      }
    }
  }

  lemma JoinedPrev(l: seq<nat>, m: Sizes, k: nat)
    requires FreeListOf(l, m) && 0 < k < |l| && l[k - 1] in m && l[k] in m && l[k - 1] + m[l[k - 1]] == l[k]
    ensures ApartBut(l, m, l[k]) && NoneAfter(l, m, l[k]) ==> Apart(Without(l, k), Joined(m, l[k - 1]))
  {
    WithoutIs(l, k);
  }

  lemma NotJoinedPrev(arena: set<nat>, l: seq<nat>, m: Sizes, k: nat)
    requires Tiles(arena, m) && FreeListOf(l, m) && k < |l| && l[k] in m
    requires k > 0 && l[k - 1] in m ==> l[k - 1] + m[l[k - 1]] != l[k]
    ensures ApartBut(l, m, l[k]) && NoneAfter(l, m, l[k]) ==> Apart(l, m)
  {
    hide Tiles;
    forall x | x in l ensures x + m[x] != l[k] {
      if x + m[x] == l[k] {
        PrevIsBefore(arena, l, m, k, x);
      }
    }
  }

  /** Headers after live block b was put on the free list. */
  lemma AddHeaders(h: Memory, l: seq<nat>, live: set<nat>, m: Sizes, k: nat, b: nat, h': Memory)
    requires HeadersOk(h, l, live, m) && b in live && k <= |l|
    requires b in h && SameButLinks(h, h', b)
    ensures HeadersOk(h', Insert(l, k, b), live - {b}, m)
  {
    InsertIs(l, k, b);
  }

  lemma AddApart(l: seq<nat>, m: Sizes, k: nat, b: nat)
    requires k <= |l| && Apart(l, m)
    ensures ApartBut(Insert(l, k, b), m, b)
  {
    InsertIs(l, k, b);
  }

  /** The tail's header is written over no listed block. */
  lemma CutList(h: Memory, head: nat, l: seq<nat>, live: set<nat>, m: Sizes, b: nat, k: nat, h': Memory)
    requires ListOk(h, head, l) && HeadersOk(h, l, live, m) && b in live && b in m && b + k !in m && b + k in h'
    requires forall x :: x in h && x != b && x != b + k ==> x in h' && h'[x] == h[x]
    ensures ListOk(h', head, l) && b + k !in l
  {
    ListFrame(h, h', head, l);
  }

  lemma CutHeaders(h: Memory, l: seq<nat>, live: set<nat>, m: Sizes, b: nat, k: nat, at: nat, h': Memory)
    requires HeadersOk(h, l, live, m) && b in live && b in m && b + k !in m
    requires k <= m[b] && at <= |l|
    requires b in h' && b + k in h' && h'[b].size == k && h'[b].magic == MAGIC && !h'[b].free
    requires h'[b + k].size == m[b] - k && h'[b + k].magic == MAGIC && h'[b + k].free
    requires forall x :: x in h && x != b && x != b + k ==>
               x in h' && h'[x].size == h[x].size && h'[x].magic == h[x].magic && h'[x].free == h[x].free
    ensures HeadersOk(h', Insert(l, at, b + k), live, Cut(m, b, k))
  {
    hide Insert;
    InsertIs(l, at, b + k);
  }

  // ---- splits, within the block and past it -----------------------------------------------

  /** A block cut for no more bytes than it has: the tail, if large enough, is free. */
  ghost predicate CutWell(l: seq<nat>, l': seq<nat>, m: Sizes, m': Sizes, b: nat, size: nat)
    requires b in m && size <= m[b]
  {
    && m' == (if m[b] - size >= MIN_BLOCK then Cut(m, b, size) else m)
    && (m[b] - size >= MIN_BLOCK ==> b + size !in m)
    && forall c :: c in l' <==> c in l || (m[b] - size >= MIN_BLOCK && c == b + size)
  }

  /** The sizes the headers claim after block b was cut for more bytes than it has: 32-bit
      fields of the request and of the wrapped difference. */
  function Overrun(m: Sizes, b: nat, size: nat): Sizes
    requires b in m && size < U64
  {
    m[b := size % U32][(b + size) % U64 := Remaining(m[b], size) % U32]
  }

  /** The headers of these blocks say what m says. */
  ghost predicate Claims(h: Memory, m: Sizes, blocks: set<nat>) {
    forall b :: b in blocks ==> b in h && b in m && h[b].size == m[b] && h[b].magic == MAGIC
  }

  lemma OverrunClaims(h: Memory, m: Sizes, b: nat, size: nat)
    requires Claims(h, m, {b, (b + size) % U64})
    ensures b in h && b in m && h[b].size == m[b]
  {
  }

  lemma RemainingIs(n: nat, size: nat)
    requires n < U32 && size < U64 && n >= MIN_BLOCK && n % 16 == 0 && size % 16 == 0
    ensures size <= n ==> Remaining(n, size) == n - size
    ensures size > n ==> Remaining(n, size) == n + U64 - size && Remaining(n, size) >= MIN_BLOCK
  {
  }

  lemma NoCut(l: seq<nat>, m: Sizes, b: nat, size: nat)
    requires b in m
    ensures size <= m[b] && m[b] - size < MIN_BLOCK ==> CutWell(l, l, m, m, b, size)
  {
  }

  lemma CutWalkable(h: Memory, head: nat, l: seq<nat>, b: nat, tail: nat, h': Memory)
    requires ListOk(h, head, l) && b !in l && tail in h' && (tail in l ==> h'[tail].next == NULL)
    requires forall x :: x in h && x != b && x != tail ==> x in h' && h'[x] == h[x]
    ensures Walkable(h', head, l, tail)
  {
    forall i | 0 <= i < |l| ensures l[i] in h' && (l[i] < tail ==> NextOk(h', l, i)) {
      assert l[i] in l && NodeOk(h, l, i);
    }
  }

  /** The headers after the writes of split_block, before the tail is put on the list. */
  function CutMemory(h: Memory, b: nat, n: nat, size: nat): Memory
    requires b in h && size < U64
  {
    var tail := (b + size) % U64;
    var h1 := h[tail := Header(MAGIC, Remaining(n, size) % U32, false, h[b].next, b)];
    h1[b := h1[b].(next := tail, size := size % U32)]
  }

  lemma CutMemoryIs(h: Memory, b: nat, n: nat, size: nat)
    requires b in h && b < U64 && 0 < size < U64
    ensures var h', tail := CutMemory(h, b, n, size), (b + size) % U64;
            && tail != b && h'.Keys == h.Keys + {tail}
            && h'[b] == h[b].(next := tail, size := size % U32)
            && h'[tail] == Header(MAGIC, Remaining(n, size) % U32, false, h[b].next, b)
            && forall x :: x in h && x != b && x != tail ==> h'[x] == h[x]
  {
    Elsewhere(b, size, 0);
  }

  ghost predicate Sound(arena: set<nat>, h: Memory, head: nat, l: seq<nat>, live: set<nat>, m: Sizes) {
    ListOk(h, head, l) && HeadersOk(h, l, live, m) && ShapeOk(m) && Tiles(arena, m) && live <= m.Keys
  }

  lemma WellCut(arena: set<nat>, h: Memory, head: nat, l: seq<nat>, live: set<nat>, m: Sizes, b: nat, size: nat,
                h': Memory, prev: nat, next: nat, k: nat)
    requires Sound(arena, h, head, l, live, m)
    requires b in live && b in m && b in h && MIN_BLOCK <= size && size + MIN_BLOCK <= m[b] && size % 16 == 0 && size < U64
    requires var cut, tail := CutMemory(h, b, m[b], size), (b + size) % U64;
             && (prev != NULL ==> prev in cut) && (next != NULL ==> next in cut) && tail in cut && h' == Linked(cut, tail, prev, next)
             && (tail !in l ==> PlaceOf(l, tail, k) && prev == (if k > 0 then l[k - 1] else NULL) && next == (if k < |l| then l[k] else NULL))
    ensures b + size < U64 && k <= |l| && Sound(arena, h', if k > 0 then head else b + size, Insert(l, k, b + size), live, Cut(m, b, size))
    ensures CutWell(l, Insert(l, k, b + size), m, Cut(m, b, size), b, size)
  {
    hide ListOk, Tiles, NodeOk, Insert, Linked, CutMemory, PlaceOf, Cut;
    var tail := b + size;
    assert RegionOk(b, m[b]) && h[b].magic == MAGIC && !h[b].free && h[b].size == m[b];
    SmallTail(b, m[b], size);
    CutMemoryIs(h, b, m[b], size);
    var cut := CutMemory(h, b, m[b], size);
    CutTiles(arena, m, b, size);
    CutList(h, head, l, live, m, b, size, cut);
    Inserted(cut, head, l, tail, prev, next, k);
    assert k <= |l| by { PlaceIn(l, tail, k); }
    InsertIs(l, k, tail);
    CutHeaders(h, l, live, m, b, size, k, h');
    CutShape(m, b, size);
    CutKeys(m, b, size);
  }

  lemma PlaceIn(l: seq<nat>, b: nat, k: nat)
    ensures PlaceOf(l, b, k) ==> k <= |l|
  {
  }

  lemma CutKeys(m: Sizes, b: nat, size: nat)
    requires b in m && size <= m[b]
    ensures m.Keys <= Cut(m, b, size).Keys
  {
  }

  /** Within a block nothing wraps. */
  lemma SmallTail(b: nat, n: nat, size: nat)
    requires RegionOk(b, n) && size <= n
    ensures (b + size) % U64 == b + size && b < U64 && size % U32 == size && Remaining(n, size) % U32 == n - size
  {
  }

  lemma PastCut(h: Memory, m: Sizes, b: nat, size: nat, h': Memory, prev: nat, next: nat)
    requires b in h && b in m && h[b].magic == MAGIC && size < U64 && m[b] < size && b < U64
    requires var cut, tail := CutMemory(h, b, m[b], size), (b + size) % U64;
             (prev != NULL ==> prev in cut) && (next != NULL ==> next in cut) && tail in cut && h' == Linked(cut, tail, prev, next)
    ensures Claims(h', Overrun(m, b, size), {b, (b + size) % U64})
  {
    hide Linked, CutMemory;
    var tail := (b + size) % U64;
    CutMemoryIs(h, b, m[b], size);
    LinkedSame(CutMemory(h, b, m[b], size), tail, prev, next);
  }

  /** The place of the tail is another one than the block's. */
  lemma Elsewhere(b: nat, size: nat, n: nat)
    requires b + n < U64 && n < size < U64
    ensures (b + size) % U64 != b + n
  {
  }

  /** A cut past the end of a block leaves no tiling: the block claims bytes of its neighbour,
      or fewer bytes than it has, or its tail has size 0. */
  lemma OverrunBreaksTiling(arena: set<nat>, m: Sizes, b: nat, size: nat)
    requires Tiles(arena, m) && b in m && RegionOk(b, m[b]) && m[b] < size < U64
    ensures !Tiles(arena, Overrun(m, b, size))
  {
    var n, c, tail, m' := m[b], size % U32, (b + size) % U64, Overrun(m, b, size);
    Elsewhere(b, size, 0);
    Elsewhere(b, size, n);
    assert n > 0 && m'[b] == c;
    if c > n {
      TooLong(arena, m, m', b, n, tail);
    } else if c < n {
      TooShort(arena, m, m', b, size);
    } else {
      NothingLeft(n, size);
      ZeroTail(arena, m', tail);
    }
  }

  lemma ZeroTail(arena: set<nat>, m: Sizes, tail: nat)
    requires tail in m && m[tail] == 0
    ensures !Tiles(arena, m)
  {
  }

  /** The block claims the byte after its end, which is somebody else's. */
  lemma TooLong(arena: set<nat>, m: Sizes, m': Sizes, b: nat, n: nat, tail: nat)
    requires Tiles(arena, m) && b in m && m[b] == n && b in m' && m'[b] > n && tail != b + n && tail != b
    requires forall x :: x in m && x != b && x != tail ==> x in m' && m'[x] == m[x]
    ensures !Tiles(arena, m')
  {
    var e := b + n;
    if Tiles(arena, m') {
      assert Within(m', b, e) && e in arena;
      var x :| x in m && Within(m, x, e);
      assert m[b] > 0 && Within(m, b, e - 1);
      assert x < e ==> Within(m, x, e - 1);
      assert x == e && x != b;
      assert Within(m', x, e);
    }
  }

  /** The block gives up bytes that only the tail could take over, which lies elsewhere. */
  lemma TooShort(arena: set<nat>, m: Sizes, m': Sizes, b: nat, size: nat)
    requires Tiles(arena, m) && b in m && RegionOk(b, m[b]) && m[b] < size < U64 && size % U32 < m[b]
    requires m' == Overrun(m, b, size)
    ensures !Tiles(arena, m')
  {
    var c, tail := size % U32, (b + size) % U64;
    var e := b + c;
    Elsewhere(b, size, 0);
    Elsewhere(b, size, c);
    assert tail != b && tail != e;
    if Tiles(arena, m') {
      assert Within(m, b, e) && e in arena && m'[b] == c > 0;
      var x :| x in m' && Within(m', x, e);
      if x != b && x != tail {
        assert Within(m, x, e);
      } else {
        assert x == tail && tail < e;
        assert Within(m', b, b) && (tail >= b ==> Within(m', b, tail)) && (tail < b ==> Within(m', tail, b));
        assert Within(m', tail, tail);
      }
    }
  }

  lemma NothingLeft(n: nat, size: nat)
    requires n < size < U64 && n < U32 && size % U32 == n
    ensures Remaining(n, size) % U32 == 0
  {
    var k := size / U32;
    assert size == U32 * k + n;
    assert Remaining(n, size) == U64 - U32 * k == U32 * (U32 - k);
    WholeWords(U32 - k);
  }

  lemma WholeWords(k: nat)
    ensures U32 * k % U32 == 0
  {
  }

  /** The payload of block b has `size` bytes: memory of the heap that belongs to b. */
  ghost predicate Serves(arena: set<nat>, m: Sizes, b: nat, size: nat) {
    forall a: nat :: b + HEADER <= a < b + HEADER + size ==> ByteOf(arena, m, b, a)
  }

  ghost predicate ByteOf(arena: set<nat>, m: Sizes, b: nat, a: nat) {
    b in m && Within(m, b, a) && a in arena
  }

  lemma ServesIf(arena: set<nat>, m: Sizes, m': Sizes, b: nat, size: nat)
    requires Tiles(arena, m') && b in m && 0 < size < U64 && Padded(size) <= m[b] && m' == Taken(m, b, Padded(size))
    ensures Serves(arena, m', b, size) <==> size <= U64 - 48
  {
    hide Tiles, Padded;
    PaddedCovers(size);
    assert b in m' && m'[b] >= Padded(size) && m'[b] < Padded(size) + MIN_BLOCK;
    if size <= U64 - 48 {
      forall a: nat | b + HEADER <= a < b + HEADER + size ensures ByteOf(arena, m', b, a) {
        InArena(arena, m', b, a);
      }
    } else {
      TooSmall(arena, m', b, size);
    }
  }

  lemma TooSmall(arena: set<nat>, m: Sizes, b: nat, size: nat)
    requires b in m && 0 < size && m[b] < HEADER + size
    ensures !Serves(arena, m, b, size)
  {
    assert !ByteOf(arena, m, b, b + HEADER + size - 1);
  }

  lemma InArena(arena: set<nat>, m: Sizes, b: nat, a: nat)
    requires Tiles(arena, m) && b in m && Within(m, b, a)
    ensures a in arena
  {
  }

  lemma CutShape(m: Sizes, b: nat, k: nat)
    requires ShapeOk(m) && b in m && MIN_BLOCK <= k && k + MIN_BLOCK <= m[b] && k % 16 == 0
    ensures ShapeOk(Cut(m, b, k))
  {
  }

  /** Headers after free block l[i] was taken off the list for use. */
  lemma RemoveHeaders(h: Memory, l: seq<nat>, live: set<nat>, m: Sizes, i: nat, h': Memory)
    requires HeadersOk(h, l, live, m) && i < |l| && Sorted(l) && SameButLinks(h, h', l[i])
    requires l[i] in h' && !h'[l[i]].free
    ensures HeadersOk(h', Without(l, i), live + {l[i]}, m)
  {
    hide Without;
    WithoutIs(l, i);
    assert l[i] in l;
  }

  /** Taking b and returning its tail to the free blocks makes no two free blocks touch. */
  lemma TakeApart(arena: set<nat>, l: seq<nat>, m: Sizes, b: nat, k: nat, l': seq<nat>)
    requires Tiles(arena, m) && b in l && b in m && 0 < k <= m[b] && forall c :: c in l ==> c in m
    requires forall c :: c in l' <==> (c in l && c != b) || (m[b] - k >= MIN_BLOCK && c == b + k)
    ensures Apart(l, m) ==> Apart(l', if m[b] - k >= MIN_BLOCK then Cut(m, b, k) else m)
  {
    if Apart(l, m) && m[b] - k >= MIN_BLOCK {
      forall x | x in l && x != b ensures x + m[x] != b + k {
        if x + m[x] == b + k {
          assert m[x] > 0 && Within(m, x, b + k - 1) && Within(m, b, b + k - 1);
        }
      }
    }
  }

  lemma TakeKeeps(l: seq<nat>, live: set<nat>, h: Memory, m: Sizes, b: nat, k: nat)
    requires HeadersOk(h, l, live, m) && b in l && b in m && k <= m[b]
    ensures b !in live && live <= m.Keys
    ensures b + k !in m ==> forall c :: c in live ==> c in Cut(m, b, k) && Cut(m, b, k)[c] == m[c]
  {
  }

  lemma NewList(h: Memory, head: nat, l: seq<nat>, live: set<nat>, m: Sizes, r: nat, h': Memory)
    requires ListOk(h, head, l) && r !in l && r in h'
    requires forall x :: x in h && x != r ==> x in h' && h'[x] == h[x]
    ensures ListOk(h', head, l)
  {
    ListFrame(h, h', head, l);
  }

  lemma NewHeaders(h: Memory, l: seq<nat>, live: set<nat>, m: Sizes, r: nat, k: nat, h': Memory)
    requires HeadersOk(h, l, live, m) && ShapeOk(m) && r !in m && k <= |l| && RegionOk(r, EXPANSION)
    requires r in h' && h'[r].size == EXPANSION && h'[r].magic == MAGIC && h'[r].free
    requires forall x :: x in h && x != r ==>
               x in h' && h'[x].size == h[x].size && h'[x].magic == h[x].magic && h'[x].free == h[x].free
    ensures HeadersOk(h', Insert(l, k, r), live, m[r := EXPANSION]) && ShapeOk(m[r := EXPANSION])
  {
    hide Insert;
    InsertIs(l, k, r);
  }

  /** Free blocks that tile an interval and never touch are one block. */
  lemma OneBlockLeft(from: nat, n: nat, fl: seq<nat>, m: Sizes)
    requires n > 0 && Tiles(Span(from, n), m) && Sorted(fl) && Apart(fl, m)
    requires forall b :: b in m <==> b in fl
    ensures fl == [from] && m == map[from := n]
  {
    FirstBlock(from, n, fl, m);
    if from + m[from] < from + n {
      NextBlock(from, n, m);
      assert false;
    }
    LastBlock(from, n, m);
    forall c | c in m ensures c == from {
      assert Within(m, c, c) && c in Span(from, n) && Within(m, from, c);
    }
    assert m.Keys == {from};
    assert forall i :: 0 <= i < |fl| ==> fl[i] in m;
    Singleton(fl, from);
  }

  lemma Singleton(l: seq<nat>, x: nat)
    requires Sorted(l) && x in l && forall i :: 0 <= i < |l| ==> l[i] == x
    ensures l == [x]
  {
    if |l| >= 2 {
      TwoDiffer(l);
      assert false;
    }
  }

  lemma TwoDiffer(l: seq<nat>)
    requires Sorted(l) && |l| >= 2
    ensures exists i, j :: 0 <= i < j < |l| && l[i] != l[j]
  {
    assert l[0] < l[1];
  }

  lemma FirstBlock(from: nat, n: nat, fl: seq<nat>, m: Sizes)
    requires n > 0 && Tiles(Span(from, n), m) && forall b :: b in m <==> b in fl
    ensures from in m
  {
    assert InSpan(from, from, n) && from in Span(from, n);
    var b :| b in m && Within(m, b, from);
    assert Within(m, b, b) && b in Span(from, n) && InSpan(b, from, n);
  }

  /** A block that ends before the interval does is followed by another one. */
  lemma NextBlock(from: nat, n: nat, m: Sizes)
    requires Tiles(Span(from, n), m) && from in m && from + m[from] < from + n
    ensures from + m[from] in m
  {
    var e := from + m[from];
    assert InSpan(e, from, n) && e in Span(from, n);
    var c :| c in m && Within(m, c, e);
    StartsApart(Span(from, n), m);
    assert Within(m, c, c) && InSpan(c, from, n);
  }

  /** No block starts inside another one. */
  lemma StartsApart(arena: set<nat>, m: Sizes)
    requires Tiles(arena, m)
    ensures forall b, c :: b in m && c in m && b <= c < b + m[b] ==> b == c
  {
    forall b, c | b in m && c in m && b <= c < b + m[b] ensures b == c {
      assert Within(m, b, c) && Within(m, c, c);
    }
  }

  lemma LastBlock(from: nat, n: nat, m: Sizes)
    requires n > 0 && Tiles(Span(from, n), m) && from in m
    ensures from + m[from] <= from + n
  {
    var a := from + m[from] - 1;
    assert m[from] > 0 && Within(m, from, a) && a in Span(from, n);
  }

  /** The list after the i-th free block absorbed the next one and took size n. */
  lemma JoinList(h: Memory, head: nat, l: seq<nat>, i: nat, h': Memory, n: nat)
    requires ListOk(h, head, l) && i + 1 < |l|
    requires var nn := if i + 2 < |l| then l[i + 2] else NULL;
             && l[i] in h && (nn != NULL ==> nn in h && nn != l[i])
             && var h1 := h[l[i] := h[l[i]].(size := n, next := nn)];
                h' == if nn != NULL then h1[nn := h1[nn].(prev := l[i])] else h1
    ensures ListOk(h', head, Without(l, i + 1))
  {
    hide NodeOk, Without;
    var nn := if i + 2 < |l| then l[i + 2] else NULL;
    BridgeOk(h, head, l, i + 1);
    ListFrame(Bridged(h, l[i], nn), h', head, Without(l, i + 1));
  }

  /** Headers after the i-th free block absorbed the next one. */
  lemma JoinHeaders(h: Memory, l: seq<nat>, live: set<nat>, m: Sizes, i: nat, h': Memory)
    requires HeadersOk(h, l, live, m) && ShapeOk(m) && i + 1 < |l| && Sorted(l)
    requires l[i] in m && l[i] + m[l[i]] == l[i + 1]
    requires h'.Keys == h.Keys && forall b :: b in h && b != l[i] ==> h'[b].size == h[b].size && h'[b].magic == h[b].magic && h'[b].free == h[b].free
    requires l[i] in h && l[i + 1] in h && h'[l[i]].size == h[l[i]].size + h[l[i + 1]].size && h'[l[i]].magic == h[l[i]].magic
    ensures HeadersOk(h', Without(l, i + 1), live, Joined(m, l[i])) && ShapeOk(Joined(m, l[i])) && live <= Joined(m, l[i]).Keys
    ensures forall b :: b in live ==> b in m && Joined(m, l[i])[b] == m[b]
  {
    hide Joined, Without, Sorted;
    assert l[i] in l && l[i + 1] in l;
    WithoutIs(l, i + 1);
    JoinRecords(h, l, live, m, l[i], l[i + 1], h', Without(l, i + 1));
  }

  /** The same for free block p and its neighbour n, with the list as a set of blocks. */
  lemma JoinRecords(h: Memory, l: seq<nat>, live: set<nat>, m: Sizes, p: nat, n: nat, h': Memory, l': seq<nat>)
    requires HeadersOk(h, l, live, m) && ShapeOk(m) && p in l && n in l && p in m && p + m[p] == n
    requires forall b :: b in l' <==> b in l && b != n
    requires h'.Keys == h.Keys && forall b :: b in h && b != p ==> h'[b].size == h[b].size && h'[b].magic == h[b].magic && h'[b].free == h[b].free
    requires p in h && n in h && h'[p].size == h[p].size + h[n].size && h'[p].magic == h[p].magic
    ensures HeadersOk(h', l', live, Joined(m, p)) && ShapeOk(Joined(m, p)) && live <= Joined(m, p).Keys
    ensures forall b :: b in live ==> b in m && Joined(m, p)[b] == m[b]
  {
    hide Joined;
    assert n in m;
    JoinedIs(m, p);
  }

  /** Among the first n free blocks the one at `at` is the first of the smallest adequate ones. */
  ghost predicate Best(fl: seq<nat>, m: Sizes, size: nat, n: nat, at: nat)
    requires forall b :: b in fl ==> b in m
  {
    && at < n <= |fl| && m[fl[at]] >= size
    && (forall j :: 0 <= j < n && m[fl[j]] >= size ==> m[fl[at]] <= m[fl[j]])
    && (forall j :: 0 <= j < at ==> m[fl[j]] != m[fl[at]])
  }

  ghost predicate NoneFits(fl: seq<nat>, m: Sizes, size: nat, n: nat) {
    n <= |fl| && forall j :: 0 <= j < n ==> fl[j] in m && m[fl[j]] < size
  }

  lemma NothingYet(fl: seq<nat>, m: Sizes, size: nat)
    ensures NoneFits(fl, m, size, 0)
  {
  }

  lemma BestStep(fl: seq<nat>, m: Sizes, size: nat, n: nat, at: nat)
    requires (forall b :: b in fl ==> b in m) && n < |fl|
    ensures NoneFits(fl, m, size, n) ==>
              if m[fl[n]] >= size then Best(fl, m, size, n + 1, n) else NoneFits(fl, m, size, n + 1)
    ensures Best(fl, m, size, n, at) ==>
              if m[fl[n]] >= size && m[fl[n]] < m[fl[at]] then Best(fl, m, size, n + 1, n) else Best(fl, m, size, n + 1, at)
  {
  }

  lemma BestOrNone(fl: seq<nat>, m: Sizes, size: nat, at: nat, best: nat)
    requires forall b :: b in fl ==> b in m && b != NULL
    requires Sorted(fl)
    requires if best == NULL then NoneFits(fl, m, size, |fl|) else Best(fl, m, size, |fl|, at) && best == fl[at]
    ensures best == NULL <==> forall b :: b in fl ==> m[b] < size
    ensures best != NULL ==> best in fl && m[best] >= size && forall b :: b in fl && m[b] >= size ==> m[best] <= m[b]
    ensures best != NULL ==> forall b :: b in fl && m[b] == m[best] ==> best <= b
  {
    if best != NULL {
      BestOfAll(fl, m, size, |fl|, at);
    }
  }

  lemma BestOfAll(fl: seq<nat>, m: Sizes, size: nat, n: nat, at: nat)
    requires forall b :: b in fl ==> b in m
    requires Sorted(fl) && Best(fl, m, size, n, at) && (n == |fl| || m[fl[at]] == size)
    ensures fl[at] in fl && m[fl[at]] >= size
    ensures forall b :: b in fl && m[b] >= size ==> m[fl[at]] <= m[b]
    ensures forall b :: b in fl && m[b] == m[fl[at]] ==> fl[at] <= b
  {
    forall b | b in fl && m[b] == m[fl[at]] ensures fl[at] <= b {
      var j :| 0 <= j < |fl| && fl[j] == b;
      assert at < j ==> fl[at] < fl[j];
    }
  }
}
