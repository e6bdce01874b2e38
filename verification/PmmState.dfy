/** How descriptors, free lists and the sets of free and live blocks hang together, and
    how each list operation of src/mm/pmm.c carries this over. `hand` holds blocks that an
    operation in progress has taken out of both sets. */
module PmmState {
  import opened Bits
  import opened Buddy
  import opened BuddyLaws
  import opened FreeLists

  ghost predicate FreeMatches(ls: Lists, free: set<Block>)
    requires Shape(ls)
  {
    forall b :: b in free <==> b.order < ORDERS && b.start in ls[ZoneOf(b.start)][b.order]
  }

  /** Reserved memory and the heads of live blocks are not marked free. (Interior pages of
      any block may be: their flags and orders are whatever they were last.) */
  ghost predicate MarksOk(avail: set<nat>, pg: seq<Page>, live: set<Block>) {
    && (forall p :: p in avail ==> 0 < p < |pg|)
    && (forall p: nat :: p < |pg| && p !in avail ==> pg[p].flags != Free)
    && (forall b :: b in live ==> b.start < |pg| && pg[b.start].flags != Free)
  }

  ghost predicate BlocksOk(avail: set<nat>, free: set<Block>, live: set<Block>, hand: set<Block>) {
    && Tiles(avail, free + live + hand)
    && free !! live && free !! hand && live !! hand
  }

  ghost predicate Coherent(avail: set<nat>, pg: seq<Page>, zs: seq<Zone>, ls: Lists,
                           free: set<Block>, live: set<Block>, hand: set<Block>) {
    && ListsOk(pg, zs, ls) && Shape(ls)
    && FreeMatches(ls, free)
    && MarksOk(avail, pg, live)
    && BlocksOk(avail, free, live, hand)
  }

  /** Pages on all lists. */
  function TotalPages(ls: Lists): nat {
    if |ls| == ZONES then RowPages(ls[DMA]) + RowPages(ls[NORMAL]) + RowPages(ls[HIGH]) else 0
  }

  lemma TotalAdd(ls: Lists, z: nat, o: nat, p: nat)
    requires Shape(ls) && z < ZONES && o < ORDERS
    ensures TotalPages(SetList(ls, z, o, [p] + ls[z][o])) == TotalPages(ls) + Pow2(o)
  {
    RowUpdate(ls[z], o, [p] + ls[z][o]);
    MulStep(|ls[z][o]|, Pow2(o));
  }

  lemma TotalRemove(ls: Lists, z: nat, o: nat, i: nat)
    requires Shape(ls) && z < ZONES && o < ORDERS && i < |ls[z][o]|
    ensures TotalPages(SetList(ls, z, o, Without(ls[z][o], i))) + Pow2(o) == TotalPages(ls)
  {
    RowUpdate(ls[z], o, Without(ls[z][o], i));
    MulStep(|ls[z][o]| - 1, Pow2(o));
  }

  /** A block in hand starts at an available page that no list holds. */
  lemma HandUnlisted(avail: set<nat>, pg: seq<Page>, zs: seq<Zone>, ls: Lists,
                     free: set<Block>, live: set<Block>, hand: set<Block>, b: Block)
    requires Coherent(avail, pg, zs, ls, free, live, hand) && b in hand
    ensures Aligned(b) && b.start in avail && 0 < b.start < |pg| && NotListed(ls, b.start)
  {
    var blocks := free + live + hand;
    assert b in blocks && Covers(b, b.start);
    forall z, o | 0 <= z < ZONES && 0 <= o < ORDERS ensures b.start !in ls[z][o] {
      if b.start in ls[z][o] {
        ListedOnce(pg, zs, ls, z, o, b.start);
        var c := Block(b.start, o);
        assert c in free && c in blocks && Covers(c, b.start);
      }
    }
  }

  /** Stale flags are harmless: for a block in hand, the test of coalesce_buddies on the
      buddy's descriptor succeeds exactly when the buddy heads a free block of this
      order, and then it stands on this zone's list. */
  lemma StaleFlagsHarmless(avail: set<nat>, pg: seq<Page>, zs: seq<Zone>, ls: Lists,
                           free: set<Block>, live: set<Block>, b: Block)
    requires Coherent(avail, pg, zs, ls, free, live, {b}) && b.order < MAX_ORDER
    ensures var q := BuddyOf(b).start;
            && (q < |pg| && pg[q].flags == Free && pg[q].order == b.order <==> BuddyOf(b) in free)
            && (BuddyOf(b) in free ==> q in ls[ZoneOf(b.start)][b.order])
  {
    var q := BuddyOf(b).start;
    var blocks := free + live + {b};
    assert b in blocks;
    BuddyFacts(b);
    assert Covers(b, b.start) && Covers(BuddyOf(b), q);
    SameZone(Merged(b), b.start);
    SameZone(Merged(b), q);
    if q < |pg| && pg[q].flags == Free && pg[q].order == b.order {
      assert q in avail;
      var c :| c in blocks && Covers(c, q);
      BuddyHeads(avail, blocks, b, c);
      assert c in free;
      ListedOnce(pg, zs, ls, ZoneOf(c.start), c.order, q);
    }
    if BuddyOf(b) in free {
      ListedOnce(pg, zs, ls, ZoneOf(q), b.order, q);
    }
  }

  // ---- one list operation -----------------------------------------------------------------

  /** Putting a block in hand on its free list. */
  lemma AddHand(avail: set<nat>, pg: seq<Page>, zs: seq<Zone>, ls: Lists,
                free: set<Block>, live: set<Block>, hand: set<Block>, b: Block,
                pg': seq<Page>, zs': seq<Zone>, ls': Lists)
    requires Coherent(avail, pg, zs, ls, free, live, hand) && b in hand
    requires b.start < |pg| && b.order < ORDERS && |zs[ZoneOf(b.start)].lists| == ORDERS
    requires NULL <= zs[ZoneOf(b.start)].lists[b.order].head < |pg|
    requires pg' == Pushed(pg, zs[ZoneOf(b.start)].lists[b.order].head, b.start, b.order)
    requires ls' == SetList(ls, ZoneOf(b.start), b.order, [b.start] + ls[ZoneOf(b.start)][b.order])
    requires ListsOk(pg', zs', ls')
    ensures Coherent(avail, pg', zs', ls', free + {b}, live, hand - {b})
    ensures TotalPages(ls') == TotalPages(ls) + Pow2(b.order)
  {
    hide Tiles, ListsOk, FreeMatches, MarksOk, Pushed, TotalPages;
    TotalAdd(ls, ZoneOf(b.start), b.order, b.start);
    assert (free + {b}) + live + (hand - {b}) == free + live + hand;
    AddMarks(avail, pg, zs, ls, free, live, hand, b, pg');
    AddMatches(ls, free, b);
  }

  lemma AddMatches(ls: Lists, free: set<Block>, b: Block)
    requires Shape(ls) && FreeMatches(ls, free) && b.order < ORDERS
    ensures var ls' := SetList(ls, ZoneOf(b.start), b.order, [b.start] + ls[ZoneOf(b.start)][b.order]);
            Shape(ls') && FreeMatches(ls', free + {b})
  {
    var z := ZoneOf(b.start);
    var ls' := SetList(ls, z, b.order, [b.start] + ls[z][b.order]);
    forall c ensures c in free + {b} <==> c.order < ORDERS && c.start in ls'[ZoneOf(c.start)][c.order] {
    }
  }

  lemma AddMarks(avail: set<nat>, pg: seq<Page>, zs: seq<Zone>, ls: Lists,
                 free: set<Block>, live: set<Block>, hand: set<Block>, b: Block, pg': seq<Page>)
    requires Coherent(avail, pg, zs, ls, free, live, hand) && b in hand
    requires b.start < |pg| && b.order < ORDERS && |zs[ZoneOf(b.start)].lists| == ORDERS
    requires NULL <= zs[ZoneOf(b.start)].lists[b.order].head < |pg|
    requires pg' == Pushed(pg, zs[ZoneOf(b.start)].lists[b.order].head, b.start, b.order)
    ensures MarksOk(avail, pg', live)
  {
    HandUnlisted(avail, pg, zs, ls, free, live, hand, b);
    var blocks := free + live + hand;
    forall c | c in live ensures c.start != b.start {
      assert c in blocks && b in blocks && Covers(c, c.start) && Covers(b, b.start);
    }
  }

  /** Taking a free block off its list; the caller says what becomes of it. */
  lemma RemoveFree(avail: set<nat>, pg: seq<Page>, zs: seq<Zone>, ls: Lists,
                   free: set<Block>, live: set<Block>, hand: set<Block>, c: Block, i: nat, hand': set<Block>,
                   pg': seq<Page>, zs': seq<Zone>, ls': Lists)
    requires Coherent(avail, pg, zs, ls, free, live, hand) && c in free && c.order < ORDERS
    requires i < |ls[ZoneOf(c.start)][c.order]| && ls[ZoneOf(c.start)][c.order][i] == c.start
    requires c.start < |pg| && NULL <= pg[c.start].prev < |pg| && NULL <= pg[c.start].next < |pg|
    requires pg' == Unlinked(pg, c.start)
    requires ls' == SetList(ls, ZoneOf(c.start), c.order, Without(ls[ZoneOf(c.start)][c.order], i))
    requires ListsOk(pg', zs', ls')
    requires BlocksOk(avail, free - {c}, live, hand')
    ensures Coherent(avail, pg', zs', ls', free - {c}, live, hand')
    ensures TotalPages(ls') + Pow2(c.order) == TotalPages(ls)
  {
    hide Tiles, FreeMatches, MarksOk, Unlinked, TotalPages, BlocksOk, ListOk;
    var z := ZoneOf(c.start);
    TotalRemove(ls, z, c.order, i);
    assert ZoneOk(pg, zs[z], ls[z], z);
    RemovedOnly(pg, zs[z].lists[c.order].head, ls[z][c.order], z, c.order, i);
    RemoveMatches(ls, free, c, i);
    RemoveMarks(avail, pg, live, c.start);
  }

  lemma RemoveMatches(ls: Lists, free: set<Block>, c: Block, i: nat)
    requires Shape(ls) && FreeMatches(ls, free) && c.order < ORDERS && i < |ls[ZoneOf(c.start)][c.order]|
    requires forall q :: q in Without(ls[ZoneOf(c.start)][c.order], i) <==> q in ls[ZoneOf(c.start)][c.order] && q != c.start
    ensures var ls' := SetList(ls, ZoneOf(c.start), c.order, Without(ls[ZoneOf(c.start)][c.order], i));
            Shape(ls') && FreeMatches(ls', free - {c})
  {
    var z := ZoneOf(c.start);
    var ls' := SetList(ls, z, c.order, Without(ls[z][c.order], i));
    forall b ensures b in free - {c} <==> b.order < ORDERS && b.start in ls'[ZoneOf(b.start)][b.order] {
    }
  }

  lemma RemoveMarks(avail: set<nat>, pg: seq<Page>, live: set<Block>, p: nat)
    requires MarksOk(avail, pg, live) && p < |pg| && NULL <= pg[p].prev < |pg| && NULL <= pg[p].next < |pg|
    ensures MarksOk(avail, Unlinked(pg, p), live)
  {
    forall q: nat | q < |pg| ensures Unlinked(pg, p)[q].flags == pg[q].flags {
    }
  }

  lemma RemovedOnly(pg: seq<Page>, head: int, l: seq<nat>, z: nat, o: nat, i: nat)
    requires ListOk(pg, head, l, z, o) && i < |l|
    ensures forall q :: q in Without(l, i) <==> q in l && q != l[i]
  {
    forall q | q in l && q != l[i] ensures q in Without(l, i) {
      var j :| 0 <= j < |l| && l[j] == q;
      assert Without(l, i)[if j < i then j else j - 1] == q;
    }
    forall q | q in Without(l, i) ensures q in l && q != l[i] {
      var j :| 0 <= j < |l| - 1 && Without(l, i)[j] == q;
      assert q == l[if j < i then j else j + 1];
    }
  }
}
