/** The physical memory manager of src/mm/pmm.c: page descriptors in an array, free lists
    threaded through them, zone counters and statistics, all updated in place. The spin
    lock makes every public operation atomic and is not modelled. */
module Pmm {
  import opened Bits
  import opened Buddy
  import opened BuddyLaws
  import opened FreeLists
  import opened PmmState

  const PAGE_SIZE: nat := 4096
  const U64: nat := 0x1_0000_0000_0000_0000

  /** The block pmm_alloc_pages serves a request from: ZONE_NORMAL before ZONE_DMA, never
      ZONE_HIGH, and within the zone the smallest order that has a free block. */
  ghost predicate Adequate(free: set<Block>, order: nat, c: Block) {
    c in free && order <= c.order && ZoneOf(c.start) != HIGH
  }

  ghost predicate BestChoice(free: set<Block>, order: nat, b: Block) {
    && Adequate(free, order, b)
    && forall c :: Adequate(free, order, c) ==>
         ZoneOf(c.start) <= ZoneOf(b.start) && (ZoneOf(c.start) == ZoneOf(b.start) ==> b.order <= c.order)
  }

  // ---- the boot memory map ------------------------------------------------------------

  datatype MapEntry = MapEntry(addr: nat, len: nat, available: bool)

  /** Page p lies wholly in an available entry and past the kernel and its page array. */
  predicate InEntry(e: MapEntry, reservedPages: nat, p: nat) {
    && e.available && reservedPages <= p
    && e.addr <= p * PAGE_SIZE && (p + 1) * PAGE_SIZE <= e.addr + e.len
  }

  /** The same by the aligned ends of the entry. */
  lemma InEntryIs(e: MapEntry, reservedPages: nat, p: nat)
    ensures InEntry(e, reservedPages, p) <==>
              e.available && reservedPages <= p && (e.addr + PAGE_SIZE - 1) / PAGE_SIZE <= p < (e.addr + e.len) / PAGE_SIZE
  {
  }

  ghost predicate IsAvailable(entries: seq<MapEntry>, reservedPages: nat, p: nat) {
    exists i :: 0 <= i < |entries| && InEntry(entries[i], reservedPages, p)
  }

  ghost function AvailablePages(entries: seq<MapEntry>, reservedPages: nat, pageCount: nat): set<nat> {
    set p: nat | p < pageCount && IsAvailable(entries, reservedPages, p)
  }

  ghost predicate NoOverlap(entries: seq<MapEntry>, reservedPages: nat) {
    forall i, j, p: nat :: 0 <= i < j < |entries| && InEntry(entries[i], reservedPages, p) ==> !InEntry(entries[j], reservedPages, p)
  }

  /** The bytes of all entries, and of those that are not available. */
  ghost function TotalLen(entries: seq<MapEntry>): nat {
    if entries == [] then 0 else TotalLen(entries[..|entries| - 1]) + entries[|entries| - 1].len
  }

  ghost function ReservedLen(entries: seq<MapEntry>): nat {
    if entries == [] then 0
    else ReservedLen(entries[..|entries| - 1]) + (if entries[|entries| - 1].available then 0 else entries[|entries| - 1].len)
  }

  lemma LenStep(entries: seq<MapEntry>, i: nat)
    requires i < |entries|
    ensures TotalLen(entries[..i + 1]) % U64 == (TotalLen(entries[..i]) % U64 + entries[i].len) % U64
    ensures ReservedLen(entries[..i + 1]) % U64 == (ReservedLen(entries[..i]) % U64 + (if entries[i].available then 0 else entries[i].len)) % U64
  {
    assert entries[..i + 1][..i] == entries[..i];
    AddModulo(TotalLen(entries[..i]), entries[i].len);
    AddModulo(ReservedLen(entries[..i]), if entries[i].available then 0 else entries[i].len);
  }

  lemma NoLen()
    ensures TotalLen([]) == 0 && ReservedLen([]) == 0
  {
  }

  lemma AddModulo(a: nat, b: nat)
    ensures (a % U64 + b) % U64 == (a + b) % U64
  {
  }

  /** Zone borders, in bytes. */
  lemma ZoneRule(p: nat)
    ensures ZoneOf(p) == DMA <==> p * PAGE_SIZE < 16 * 1024 * 1024
    ensures ZoneOf(p) == NORMAL <==> 16 * 1024 * 1024 <= p * PAGE_SIZE < 4 * 1024 * 1024 * 1024
    ensures ZoneOf(p) == HIGH <==> p * PAGE_SIZE >= 4 * 1024 * 1024 * 1024
  {
  }

  /** First pass of pmm_init: the page count spans every entry; sizes are summed modulo 2^64. */
  method FirstPass(entries: seq<MapEntry>) returns (pageCount: nat, total: nat, reserved: nat)
    ensures forall i :: 0 <= i < |entries| ==> entries[i].addr + entries[i].len <= pageCount * PAGE_SIZE
    ensures total == TotalLen(entries) % U64 && reserved == ReservedLen(entries) % U64
    ensures pageCount == 0 || exists i :: 0 <= i < |entries| && (pageCount - 1) * PAGE_SIZE < entries[i].addr + entries[i].len
  {
    hide TotalLen, ReservedLen;
    var highest := 0;
    total, reserved := 0, 0;
    assert entries[..0] == [];
    NoLen();
    for i := 0 to |entries|
      invariant total == TotalLen(entries[..i]) % U64 && reserved == ReservedLen(entries[..i]) % U64
      invariant forall j :: 0 <= j < i ==> entries[j].addr + entries[j].len <= highest
      invariant highest == 0 || exists j :: 0 <= j < i && entries[j].addr + entries[j].len == highest
    {
      LenStep(entries, i);
      var end := entries[i].addr + entries[i].len;
      if end > highest {
        highest := end;
      }
      total := (total + entries[i].len) % U64;
      if !entries[i].available {
        reserved := (reserved + entries[i].len) % U64;
      }
    }
    assert entries[..|entries|] == entries;
    pageCount := (highest + PAGE_SIZE - 1) / PAGE_SIZE;
  }

  ghost function Singles(ps: set<nat>): set<Block> {
    set p | p in ps :: Block(p, 0)
  }

  /** Before any page is released all available pages are in hand as blocks of order 0. */
  lemma BootCoherent(avail: set<nat>, pg: seq<Page>, zs: seq<Zone>, ls: Lists)
    requires forall p :: p in avail ==> 0 < p < |pg|
    requires forall p :: 0 <= p < |pg| ==> pg[p].flags == Reserved
    requires |zs| == ZONES && forall z :: 0 <= z < ZONES ==> zs[z] == Zone(0, seq(ORDERS, _ => FreeList(NULL, 0)))
    requires |ls| == ZONES && forall z :: 0 <= z < ZONES ==> |ls[z]| == ORDERS && forall o :: 0 <= o < ORDERS ==> ls[z][o] == []
    ensures Coherent(avail, pg, zs, ls, {}, {}, Singles(avail)) && TotalPages(ls) == 0
  {
    var hand := Singles(avail);
    assert forall b, p: nat :: b in hand ==> (Covers(b, p) <==> p == b.start);
    forall p | p in avail ensures exists b :: b in hand && Covers(b, p) {
      assert Block(p, 0) in hand;
    }
    assert {} + {} + hand == hand;
    forall z | 0 <= z < ZONES ensures ZoneOk(pg, zs[z], ls[z], z) {
      NoPages(ls[z]);
    }
  }

  lemma {:induction false} NoPages(row: seq<seq<nat>>)
    requires forall o :: 0 <= o < |row| ==> row[o] == []
    ensures RowPages(row) == 0
  {
    if row != [] {
      NoPages(row[..|row| - 1]);
    }
  }

  class Allocator {
    const pages: array<Page>
    const zones: array<Zone>
    var freeMemory: nat
    var usedMemory: nat
    var allocCount: nat
    var freeCount: nat

    ghost const avail: set<nat>
    ghost var lists: Lists
    ghost var free: set<Block>
    ghost var live: set<Block>

    ghost predicate Holds(hand: set<Block>)
      reads this, pages, zones
    {
      Coherent(avail, pages[..], zones[..], lists, free, live, hand)
    }

    ghost predicate Valid()
      reads this, pages, zones
    {
      Holds({}) && freeMemory == TotalPages(lists) * PAGE_SIZE
    }

    ghost function View(): State
      reads this
    {
      State(free, live)
    }

    /** pmm_init. `reservedPages` is the end of the kernel image and the page array. The
        available pages become free blocks of order 0. */
    constructor (entries: seq<MapEntry>, reservedPages: nat)
      requires reservedPages > 0 && NoOverlap(entries, reservedPages)
      ensures Valid() && fresh(pages) && fresh(zones)
      ensures forall p: nat :: p in avail <==> IsAvailable(entries, reservedPages, p)
      ensures View() == State(Singles(avail), {})
      ensures (usedMemory + freeMemory + ReservedLen(entries)) % U64 == TotalLen(entries) % U64
      ensures allocCount == 0 && freeCount == 0
    {
      hide TotalLen, ReservedLen, Coherent;
      var pageCount, total, reserved := FirstPass(entries);
      pages := new Page[pageCount](_ => Page(Reserved, 0, 0, 0, 0));
      zones := new Zone[ZONES](_ => Zone(0, seq(ORDERS, _ => FreeList(NULL, 0))));
      allocCount, freeCount, freeMemory, usedMemory := 0, 0, 0, 0;
      avail := AvailablePages(entries, reservedPages, pageCount);
      lists := seq(ZONES, _ => seq(ORDERS, _ => []));
      free, live := {}, {};
      new;
      BootCoherent(avail, pages[..], zones[..], lists);
      SecondPass(entries, reservedPages, total, reserved);
      AddModulo(ReservedLen(entries), usedMemory + freeMemory);
      AddModulo(TotalLen(entries), 0);
    }

    /** Second pass of pmm_init and the statistics it sets. */
    method SecondPass(entries: seq<MapEntry>, reservedPages: nat, total: nat, reserved: nat)
      requires NoOverlap(entries, reservedPages) && reserved < U64
      requires Holds(Singles(avail)) && free == {} && live == {} && TotalPages(lists) == 0
      requires forall p: nat :: p in avail <==> IsAvailable(entries, reservedPages, p)
      modifies this, pages, zones
      ensures Valid() && View() == State(Singles(avail), {})
      ensures (usedMemory + freeMemory + reserved) % U64 == total % U64
      ensures allocCount == old(allocCount) && freeCount == old(freeCount)
    {
      hide Coherent, TotalPages, InEntry;
      ghost var todo := avail;
      var availablePages := 0;
      for i := 0 to |entries|
        modifies pages, zones, `lists, `free
        invariant todo == (set p | p in avail && !IsAvailable(entries[..i], reservedPages, p))
        invariant Holds(Singles(todo)) && free == Singles(avail - todo)
        invariant TotalPages(lists) == availablePages
      {
        ghost var rest := set p | p in todo && !InEntry(entries[i], reservedPages, p);
        NextEntry(entries, reservedPages, i);
        if entries[i].available {
          var count := AddEntry(entries[i], reservedPages, todo);
          assert Singles(avail - todo) + Singles(todo - rest) == Singles(avail - rest);
          availablePages := availablePages + count;
        } else {
          assert rest == todo by { NotInUnavailable(entries[i], reservedPages); }
        }
        todo := rest;
      }
      assert entries[..|entries|] == entries;
      assert todo == {} && avail - todo == avail && Singles(todo) == {};
      freeMemory := availablePages * PAGE_SIZE;
      usedMemory := (total + U64 + U64 - freeMemory % U64 - reserved) % U64;
    }

    lemma NotInUnavailable(e: MapEntry, reservedPages: nat)
      requires !e.available
      ensures forall p: nat :: !InEntry(e, reservedPages, p)
    {
    }

    lemma NextEntry(entries: seq<MapEntry>, reservedPages: nat, i: nat)
      requires i < |entries| && NoOverlap(entries, reservedPages)
      ensures forall p: nat :: IsAvailable(entries[..i + 1], reservedPages, p) <==>
                (IsAvailable(entries[..i], reservedPages, p) || InEntry(entries[i], reservedPages, p))
      ensures forall p: nat :: InEntry(entries[i], reservedPages, p) ==>
                !IsAvailable(entries[..i], reservedPages, p) && IsAvailable(entries, reservedPages, p)
    {
      forall p: nat | IsAvailable(entries[..i + 1], reservedPages, p) && !InEntry(entries[i], reservedPages, p)
        ensures IsAvailable(entries[..i], reservedPages, p)
      {
        var j :| 0 <= j < i + 1 && InEntry(entries[..i + 1][j], reservedPages, p);
        assert entries[..i][j] == entries[j];
      }
      forall p: nat | InEntry(entries[i], reservedPages, p) ensures IsAvailable(entries[..i + 1], reservedPages, p) {
        assert entries[..i + 1][i] == entries[i];
      }
      forall p: nat | IsAvailable(entries[..i], reservedPages, p) ensures IsAvailable(entries[..i + 1], reservedPages, p) {
        var j :| 0 <= j < i && InEntry(entries[..i][j], reservedPages, p);
        assert entries[..i + 1][j] == entries[j];
      }
    }

    /** Second pass of pmm_init on one available entry: releases its pages one by one. */
    method AddEntry(e: MapEntry, reservedPages: nat, ghost todo: set<nat>) returns (count: nat)
      requires e.available && Holds(Singles(todo)) && todo <= avail
      requires forall p: nat :: InEntry(e, reservedPages, p) ==> p in todo
      modifies pages, zones, `lists, `free
      ensures var rest := set p | p in todo && !InEntry(e, reservedPages, p);
              Holds(Singles(rest)) && free == old(free) + Singles(todo - rest)
      ensures TotalPages(lists) == TotalPages(old(lists)) + count
    {
      hide Coherent, TotalPages, ZoneOf;
      var start := (e.addr + PAGE_SIZE - 1) / PAGE_SIZE * PAGE_SIZE;
      var end := (e.addr + e.len) / PAGE_SIZE * PAGE_SIZE;
      if start < reservedPages * PAGE_SIZE {
        start := reservedPages * PAGE_SIZE;
      }
      count := 0;
      ghost var rest := todo;
      while start < end
        invariant start % PAGE_SIZE == 0 && start / PAGE_SIZE >= reservedPages
        invariant start / PAGE_SIZE >= (e.addr + PAGE_SIZE - 1) / PAGE_SIZE
        invariant rest == (set p | p in todo && !(InEntry(e, reservedPages, p) && p < start / PAGE_SIZE))
        invariant Holds(Singles(rest)) && free == old(free) + Singles(todo - rest)
        invariant TotalPages(lists) == TotalPages(old(lists)) + count
      {
        var pfn := start / PAGE_SIZE;
        assert InEntry(e, reservedPages, pfn) && pfn in rest;
        InRange(pfn);
        if pfn < pages.Length {
          assert Block(pfn, 0) in Singles(rest) && Singles(rest) - {Block(pfn, 0)} == Singles(rest - {pfn});
          Release(ZoneOf(pfn), Singles(rest), pfn, 0);
          assert Singles(todo - rest) + {Block(pfn, 0)} == Singles(todo - (rest - {pfn}));
          rest := rest - {pfn};
          count := count + 1;
        }
        start := start + PAGE_SIZE;
      }
      assert rest == (set p | p in todo && !InEntry(e, reservedPages, p));
    }

    lemma InRange(p: nat)
      requires p in avail && (exists hand :: Holds(hand))
      ensures p < pages.Length
    {
    }

    lemma ZoneFacts(pg: seq<Page>, zs: seq<Zone>, ls: Lists, z: nat)
      requires ListsOk(pg, zs, ls) && z < ZONES
      ensures |zs| == |ls| == ZONES && |zs[z].lists| == ORDERS && |ls[z]| == ORDERS
    {
      assert ZoneOk(pg, zs[z], ls[z], z);
    }

    method FreeListAdd(z: nat, p: nat, o: nat)
      requires ListsOk(pages[..], zones[..], lists)
      requires p < pages.Length && o < ORDERS && z == ZoneOf(p) && NotListed(lists, p)
      modifies pages, zones, `lists
      ensures ListsOk(pages[..], zones[..], lists)
      ensures |old(zones[..])[z].lists| == ORDERS && NULL <= old(zones[..])[z].lists[o].head < pages.Length
      ensures pages[..] == Pushed(old(pages[..]), old(zones[..])[z].lists[o].head, p, o)
      ensures lists == SetList(old(lists), z, o, [p] + old(lists)[z][o])
    {
      hide ListsOk, Pow2;
      ghost var pg, zs := pages[..], zones[..];
      AddKeepsLists(pg, zs, lists, p, o);
      ZoneFacts(pg, zs, lists, z);
      var list := zones[z].lists[o];
      pages[p] := pages[p].(flags := Free, order := o, next := list.head, prev := NULL);
      if list.head != NULL {
        pages[list.head] := pages[list.head].(prev := p);
      }
      zones[z] := Zone(zones[z].freePages + Pow2(o), zones[z].lists[o := FreeList(p, list.count + 1)]);
      lists := SetList(lists, z, o, [p] + lists[z][o]);
      assert pages[..] == Pushed(pg, zs[z].lists[o].head, p, o);
    }

    method FreeListRemove(z: nat, p: nat, o: nat, ghost i: nat)
      requires ListsOk(pages[..], zones[..], lists)
      requires z < ZONES && o < ORDERS && i < |lists[z][o]| && lists[z][o][i] == p
      modifies pages, zones, `lists
      ensures ListsOk(pages[..], zones[..], lists)
      ensures p < pages.Length && NULL <= old(pages[..])[p].prev < pages.Length && NULL <= old(pages[..])[p].next < pages.Length
      ensures pages[..] == Unlinked(old(pages[..]), p)
      ensures lists == SetList(old(lists), z, o, Without(old(lists)[z][o], i))
    {
      ghost var pg, zs := pages[..], zones[..];
      RemoveKeepsLists(pg, zs, lists, z, o, i);
      var list, next, prev := zones[z].lists[o], pages[p].next, pages[p].prev;
      var head := list.head;
      if prev != NULL {
        pages[prev] := pages[prev].(next := next);
      } else {
        head := next;
      }
      if next != NULL {
        pages[next] := pages[next].(prev := prev);
      }
      pages[p] := pages[p].(next := NULL, prev := NULL);
      zones[z] := Zone(zones[z].freePages - Pow2(o), zones[z].lists[o := FreeList(head, list.count - 1)]);
      lists := SetList(lists, z, o, Without(lists[z][o], i));
      assert pages[..] == Unlinked(pg, p);
      assert zones[..] == zs[z := Shrunk(zs[z], o, pg, p)];
    }

    /** Puts the block in hand on its free list. */
    method Release(z: nat, ghost hand: set<Block>, p: nat, o: nat)
      requires Holds(hand) && Block(p, o) in hand && z == ZoneOf(p)
      modifies pages, zones, `lists, `free
      ensures Holds(hand - {Block(p, o)}) && free == old(free) + {Block(p, o)}
      ensures TotalPages(lists) == TotalPages(old(lists)) + Pow2(o)
    {
      hide Tiles, BlocksOk, MarksOk, ListsOk, TotalPages, Pushed;
      ghost var b := Block(p, o);
      ghost var pg, zs, ls := pages[..], zones[..], lists;
      HandUnlisted(avail, pg, zs, ls, free, live, hand, b);
      FreeListAdd(z, p, o);
      AddHand(avail, pg, zs, ls, free, live, hand, b, pages[..], zones[..], lists);
      free := free + {b};
    }

    /** Takes a free block off its list; it joins the blocks in hand as `hand'` says. */
    method Take(z: nat, p: nat, o: nat, ghost hand: set<Block>, ghost hand': set<Block>)
      requires Holds(hand) && Block(p, o) in free && z == ZoneOf(p)
      requires BlocksOk(avail, free - {Block(p, o)}, live, hand')
      modifies pages, zones, `lists, `free
      ensures Holds(hand') && free == old(free) - {Block(p, o)}
      ensures TotalPages(lists) + Pow2(o) == TotalPages(old(lists))
    {
      hide Tiles, BlocksOk, MarksOk, ListsOk, TotalPages, Unlinked, Without;
      ghost var c := Block(p, o);
      ghost var pg, zs, ls := pages[..], zones[..], lists;
      assert c.start in ls[z][o];
      ghost var i :| 0 <= i < |ls[z][o]| && ls[z][o][i] == p;
      FreeListRemove(z, p, o, i);
      RemoveFree(avail, pg, zs, ls, free, live, hand, c, i, hand', pages[..], zones[..], lists);
      free := free - {c};
    }

    /** coalesce_buddies: merges the block in hand with its free buddies, then releases it. */
    method CoalesceBuddies(z: nat, p: nat, o: nat)
      requires Holds({Block(p, o)}) && z == ZoneOf(p)
      modifies pages, zones, `lists, `free
      ensures Holds({}) && free == Coalesce(old(free), Block(p, o))
      ensures TotalPages(lists) == TotalPages(old(lists)) + Pow2(o)
    {
      hide Coherent, BlocksOk, TotalPages, ZoneOf, Flip;
      var page: nat, order: nat := p, o;
      HandFacts(Block(p, o));
      while order < MAX_ORDER
        invariant order <= MAX_ORDER && z == ZoneOf(page)
        invariant Holds({Block(page, order)})
        invariant Coalesce(free, Block(page, order)) == Coalesce(old(free), Block(p, o))
        invariant TotalPages(lists) + Pow2(order) == TotalPages(old(lists)) + Pow2(o)
        decreases MAX_ORDER - order
      {
        ghost var b := Block(page, order);
        TestBuddy(b);
        var buddy := Flip(page, order);
        if buddy >= pages.Length || pages[buddy].flags != Free || pages[buddy].order != order {
          break;
        }
        MergeInHand(b);
        Take(z, buddy, order, {b}, {Merged(b)});
        if buddy < page {
          page := buddy;
        }
        order := order + 1;
      }
      ghost var b := Block(page, order);
      assert {b} - {b} == {};
      Release(z, {b}, page, order);
    }

    lemma HandFacts(b: Block)
      requires Holds({b})
      ensures Aligned(b) && 0 < b.start < pages.Length
    {
      HandUnlisted(avail, pages[..], zones[..], lists, free, live, {b}, b);
    }

    lemma TestBuddy(b: Block)
      requires Holds({b}) && b.order < MAX_ORDER
      ensures var q := BuddyOf(b).start;
              q < pages.Length && pages[q].flags == Free && pages[q].order == b.order <==> BuddyOf(b) in free
    {
      StaleFlagsHarmless(avail, pages[..], zones[..], lists, free, live, b);
    }

    lemma MergeInHand(b: Block)
      requires Holds({b}) && b.order < MAX_ORDER && BuddyOf(b) in free
      ensures BlocksOk(avail, free - {BuddyOf(b)}, live, {Merged(b)})
      ensures ZoneOf(BuddyOf(b).start) == ZoneOf(b.start) == ZoneOf(Merged(b).start)
    {
      HandFacts(b);
      BuddyFacts(b);
      MergeTiles(avail, free + live + {b}, b);
      assert free + live + {b} - {b, BuddyOf(b)} + {Merged(b)} == (free - {BuddyOf(b)}) + live + {Merged(b)};
      assert Covers(b, b.start) && Covers(BuddyOf(b), BuddyOf(b).start);
      SameZone(Merged(b), b.start);
      SameZone(Merged(b), BuddyOf(b).start);
    }

    /** split_block: cuts the block in hand down to order `target`, releasing upper halves. */
    method SplitBlock(z: nat, p: nat, o: nat, target: nat)
      requires Holds({Block(p, o)}) && z == ZoneOf(p) && target <= o
      modifies pages, zones, `lists, `free
      ensures Holds({Block(p, target)}) && free == old(free) + Halves(Block(p, o), target)
      ensures TotalPages(lists) + Pow2(target) == TotalPages(old(lists)) + Pow2(o)
    {
      hide Coherent, BlocksOk, TotalPages, ZoneOf;
      var cur: nat := o;
      while cur > target
        invariant target <= cur <= o
        invariant Holds({Block(p, cur)})
        invariant free + Halves(Block(p, cur), target) == old(free) + Halves(Block(p, o), target)
        invariant TotalPages(lists) + Pow2(cur) == TotalPages(old(lists)) + Pow2(o)
        decreases cur
      {
        HalveInHand(Block(p, cur));
        cur := cur - 1;
        ghost var lo, hi := Block(p, cur), Block(p + Pow2(cur), cur);
        Release(z, {lo, hi}, p + Pow2(cur), cur);
        assert {lo, hi} - {hi} == {lo};
      }
    }

    lemma HalveInHand(b: Block)
      requires Holds({b}) && b.order > 0
      ensures var lo, hi := Block(b.start, b.order - 1), Block(b.start + Pow2(b.order - 1), b.order - 1);
              Holds({lo, hi}) && lo != hi && ZoneOf(hi.start) == ZoneOf(b.start)
    {
      HandFacts(b);
      LowerHalf(b);
      var lo := Block(b.start, b.order - 1);
      var hi := BuddyOf(lo);
      HalveTiles(avail, free + live + {b}, b);
      assert free + live + {b} - {b} + {lo, hi} == free + live + {lo, hi};
      BuddyFacts(lo);
      assert Covers(hi, hi.start);
      SameZone(b, hi.start);
    }

    /** The block at the head of a nonempty list. */
    lemma HeadIsFree(z: nat, o: nat)
      requires Valid() && z < ZONES && o < ORDERS
      ensures |zones[..]| == ZONES && |zones[z].lists| == ORDERS
      ensures var h := zones[z].lists[o].head;
              if h == NULL then forall b :: b in free ==> !(ZoneOf(b.start) == z && b.order == o)
              else 0 < h < pages.Length && ZoneOf(h) == z && Block(h, o) in free
    {
      assert ZoneOk(pages[..], zones[z], lists[z], z);
      var l := lists[z][o];
      if l != [] {
        var b := Block(l[0], o);
        assert l[0] in l && ZoneOf(l[0]) == z && b in free;
        assert b in free + live + {} && Covers(b, b.start);
      }
    }

    /** pmm_alloc_pages. Fails exactly when neither ZONE_NORMAL nor ZONE_DMA has a free
        block of at least this order; `from` is the block the request is served from. */
    method AllocPages(order: nat) returns (addr: nat, ghost from: Block)
      requires Valid()
      modifies this, pages, zones
      ensures Valid()
      ensures addr == 0 <==> !exists c :: Adequate(old(free), order, c)
      ensures addr == 0 ==> View() == old(View()) && freeMemory == old(freeMemory) && usedMemory == old(usedMemory)
      ensures addr != 0 ==>
                && BestChoice(old(free), order, from) && addr == from.start * PAGE_SIZE
                && Allocates(old(View()), View(), from, order)
                && old(freeMemory) == freeMemory + Pow2(order) * PAGE_SIZE
                && usedMemory == (old(usedMemory) + Pow2(order) * PAGE_SIZE) % U64
                && from.start < pages.Length && pages[from.start].flags == InUse && pages[from.start].order == order && pages[from.start].refcount == 1
      ensures allocCount == old(allocCount) + (if addr != 0 then 1 else 0) && freeCount == old(freeCount)
    {
      hide Coherent, TotalPages, Halves;
      addr, from := 0, Block(0, 0);
      if order > MAX_ORDER {
        OrdersBounded();
        return;
      }
      var z: int := NORMAL;
      while z >= DMA
        invariant -1 <= z <= NORMAL && addr == 0
        invariant unchanged(this) && unchanged(pages) && unchanged(zones)
        invariant forall c :: Adequate(free, order, c) ==> ZoneOf(c.start) <= z
      {
        var o := order;
        while o <= MAX_ORDER
          invariant order <= o <= MAX_ORDER + 1 && addr == 0
          invariant unchanged(this) && unchanged(pages) && unchanged(zones)
          invariant forall c :: Adequate(free, order, c) && ZoneOf(c.start) == z ==> c.order >= o
        {
          HeadIsFree(z, o);
          var page := zones[z].lists[o].head;
          if page != NULL {
            from := Block(page, o);
            assert BestChoice(free, order, from);
            Serve(z, page, o, order);
            addr := page * PAGE_SIZE;
            return;
          }
          o := o + 1;
        }
        OrdersBounded();
        z := z - 1;
      }
    }

    lemma OrdersBounded()
      requires Valid()
      ensures forall b :: b in free ==> b.order <= MAX_ORDER
    {
      forall b | b in free ensures b.order <= MAX_ORDER {
        assert b in free + live + {};
      }
    }

    /** The branch of pmm_alloc_pages that found a block: takes it, splits it and marks it. */
    method Serve(z: nat, page: nat, o: nat, order: nat)
      requires Valid() && Block(page, o) in free && z == ZoneOf(page) && order <= o
      modifies this, pages, zones
      ensures Valid() && Allocates(old(View()), View(), Block(page, o), order)
      ensures old(freeMemory) == freeMemory + Pow2(order) * PAGE_SIZE
      ensures usedMemory == (old(usedMemory) + Pow2(order) * PAGE_SIZE) % U64
      ensures page < pages.Length && pages[page].flags == InUse && pages[page].order == order && pages[page].refcount == 1
      ensures allocCount == old(allocCount) + 1 && freeCount == old(freeCount)
    {
      hide Coherent, TotalPages, Tiles;
      TakeFacts(Block(page, o));
      Take(z, page, o, {}, {Block(page, o)});
      if o > order {
        SplitBlock(z, page, o, order);
      }
      HandFacts(Block(page, order));
      ghost var pg := pages[..];
      pages[page] := pages[page].(flags := InUse, order := order, refcount := 1);
      MarkLive(Block(page, order), pg);
      live := live + {Block(page, order)};
      allocCount := allocCount + 1;
      freeMemory := freeMemory - Pow2(order) * PAGE_SIZE;
      usedMemory := (usedMemory + Pow2(order) * PAGE_SIZE) % U64;
    }

    /** pmm_free_pages of a live block, or a call the source turns away: address 0, order or
        frame out of range, or a descriptor marked free. */
    method FreePages(addr: nat, order: nat)
      requires Valid()
      requires var pfn := addr / PAGE_SIZE;
               Block(pfn, order) in live || addr == 0 || order > MAX_ORDER || pfn >= pages.Length || pages[pfn].flags == Free
      modifies this, pages, zones
      ensures Valid()
      ensures var b := Block(addr / PAGE_SIZE, order);
              if b in old(live)
              then && Frees(old(View()), View(), b)
                   && freeMemory == old(freeMemory) + Pow2(order) * PAGE_SIZE
                   && usedMemory == (old(usedMemory) + U64 - (Pow2(order) * PAGE_SIZE) % U64) % U64
              else View() == old(View()) && freeMemory == old(freeMemory) && usedMemory == old(usedMemory)
      ensures allocCount == old(allocCount) && (Block(addr / PAGE_SIZE, order) in old(live) ==> freeCount == old(freeCount) + 1)
    {
      hide Coherent, TotalPages, Coalesce, ZoneOf;
      ghost var b := Block(addr / PAGE_SIZE, order);
      if b in live {
        LiveFacts(b);
      }
      if addr == 0 || order > MAX_ORDER {
        return;
      }
      var pfn := addr / PAGE_SIZE;
      if pfn >= pages.Length {
        return;
      }
      if pages[pfn].flags == Free {
        return;
      }
      freeCount := freeCount + 1;
      freeMemory := freeMemory + Pow2(order) * PAGE_SIZE;
      usedMemory := (usedMemory + U64 - (Pow2(order) * PAGE_SIZE) % U64) % U64;
      live := live - {b};
      CoalesceBuddies(ZoneOf(pfn), pfn, order);
    }

    lemma LiveFacts(b: Block)
      requires Holds({}) && b in live
      ensures 0 < b.start < pages.Length && b.order <= MAX_ORDER && pages[b.start].flags != Free
      ensures Coherent(avail, pages[..], zones[..], lists, free, live - {b}, {b})
    {
      assert b in free + live + {} && Covers(b, b.start);
      assert free + (live - {b}) + {b} == free + live + {};
    }

    lemma TakeFacts(b: Block)
      requires Holds({}) && b in free
      ensures BlocksOk(avail, free - {b}, live, {b})
    {
      assert free + live + {} == (free - {b}) + live + {b};
    }

    /** Marking the head of the block in hand as used makes it a live block. */
    lemma MarkLive(b: Block, pg: seq<Page>)
      requires Coherent(avail, pg, zones[..], lists, free, live, {b})
      requires b.start < |pg| && pages[..] == pg[b.start := pg[b.start].(flags := InUse, order := b.order, refcount := 1)]
      ensures Coherent(avail, pages[..], zones[..], lists, free, live + {b}, {})
    {
      HandUnlisted(avail, pg, zones[..], lists, free, live, {b}, b);
      assert free + (live + {b}) + {} == free + live + {b};
      MarkKeepsLists(pg, zones[..], lists, b.start, pages[..]);
    }
  }

  /** Writing an unlisted descriptor disturbs no list. */
  lemma MarkKeepsLists(pg: seq<Page>, zs: seq<Zone>, ls: Lists, p: nat, pg': seq<Page>)
    requires ListsOk(pg, zs, ls) && NotListed(ls, p)
    requires |pg'| == |pg| && forall q :: 0 <= q < |pg| && q != p ==> pg'[q] == pg[q]
    ensures ListsOk(pg', zs, ls)
  {
    forall z | 0 <= z < ZONES ensures ZoneOk(pg', zs[z], ls[z], z) {
      assert ZoneOk(pg, zs[z], ls[z], z);
      forall o | 0 <= o < ORDERS ensures ListOk(pg', zs[z].lists[o].head, ls[z][o], z, o) {
        ListFrame(pg, pg', zs[z].lists[o].head, ls[z][o], z, o);
      }
    }
  }
}
