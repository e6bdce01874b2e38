/** The per-zone, per-order free lists of src/mm/pmm.c: doubly linked through the page
    descriptors. Everything here is about the values before and after one list operation. */
module FreeLists {
  import opened Bits
  import opened Buddy

  /** The three values the flags of a descriptor take: PAGE_FLAG_RESERVED,
      PAGE_FLAG_FREE, and PAGE_FLAG_PRESENT | PAGE_FLAG_KERNEL. */
  datatype Flags = Reserved | Free | InUse

  const NULL: int := -1

  datatype Page = Page(flags: Flags, order: nat, refcount: nat, next: int, prev: int)

  datatype FreeList = FreeList(head: int, count: nat)

  datatype Zone = Zone(freePages: nat, lists: seq<FreeList>)

  const DMA: nat := 0
  const NORMAL: nat := 1
  const HIGH: nat := 2
  const ZONES: nat := 3
  const ORDERS: nat := 12

  /** get_zone, by page frame: below 16 MB, below 4 GB, above. */
  function ZoneOf(p: nat): nat {
    if p < 0x1000 then DMA else if p < 0x10_0000 then NORMAL else HIGH
  }

  /** No block crosses a zone border: the borders are multiples of the largest block. */
  lemma SameZone(b: Block, p: nat)
    requires Aligned(b) && Covers(b, p)
    ensures ZoneOf(p) == ZoneOf(b.start)
  {
    assert LowZero(0x1000, 11) && LowZero(0x10_0000, 11);
    assert Covers(b, b.start);
    assert Covers(Block(0x1000, 11), 0x1000) && Covers(Block(0x10_0000, 11), 0x10_0000);
    if Covers(b, 0x1000) {
      Nested(b, Block(0x1000, 11), 0x1000, b.start);
    }
    if Covers(b, 0x10_0000) {
      Nested(b, Block(0x10_0000, 11), 0x10_0000, b.start);
    }
  }

  // ---- one list ---------------------------------------------------------------------

  /** The descriptor of the i-th element of l is linked to its neighbours. */
  ghost predicate NodeOk(pg: seq<Page>, l: seq<nat>, i: nat)
    requires i < |l| && l[i] < |pg|
  {
    && pg[l[i]].next == (if i + 1 < |l| then l[i + 1] else NULL)
    && pg[l[i]].prev == (if i > 0 then l[i - 1] else NULL)
  }

  /** The descriptors from `head` on represent exactly the list l. */
  ghost predicate ListOk(pg: seq<Page>, head: int, l: seq<nat>, z: nat, o: nat) {
    && head == (if l == [] then NULL else l[0])
    && (forall i :: 0 <= i < |l| ==> l[i] < |pg| && ZoneOf(l[i]) == z && pg[l[i]].flags == Free && pg[l[i]].order == o)
    && (forall i :: 0 <= i < |l| ==> NodeOk(pg, l, i))
    && (forall i, j :: 0 <= i < j < |l| ==> l[i] != l[j])
  }

  lemma ListFrame(pg: seq<Page>, pg': seq<Page>, head: int, l: seq<nat>, z: nat, o: nat)
    requires ListOk(pg, head, l, z, o)
    requires |pg'| == |pg| && forall i :: 0 <= i < |l| ==> pg'[l[i]] == pg[l[i]]
    ensures ListOk(pg', head, l, z, o)
  {
    forall i | 0 <= i < |l| ensures NodeOk(pg', l, i) {
      assert NodeOk(pg, l, i);
    }
  }

  /** The writes of free_list_add. */
  function Pushed(pg: seq<Page>, head: int, p: nat, o: nat): (r: seq<Page>)
    requires p < |pg| && NULL <= head < |pg|
  {
    var pg1 := pg[p := pg[p].(flags := Free, order := o, next := head, prev := NULL)];
    if head != NULL then pg1[head := pg1[head].(prev := p)] else pg1
  }

  lemma PushList(pg: seq<Page>, head: int, l: seq<nat>, z: nat, o: nat, p: nat)
    requires ListOk(pg, head, l, z, o) && p < |pg| && p !in l && ZoneOf(p) == z
    ensures NULL <= head < |pg| && ListOk(Pushed(pg, head, p, o), p, [p] + l, z, o)
  {
    if l != [] {
      assert NodeOk(pg, l, 0);
    }
    var pg', l' := Pushed(pg, head, p, o), [p] + l;
    forall i | 0 <= i < |l'| ensures NodeOk(pg', l', i) {
      if i > 0 {
        assert NodeOk(pg, l, i - 1);
        assert i > 1 ==> l[i - 1] != l[0];
        assert i < |l| ==> l'[i + 1] == l[i];
      }
    }
  }

  /** The writes of free_list_remove to the descriptors. */
  function Unlinked(pg: seq<Page>, p: nat): (r: seq<Page>)
    requires p < |pg| && NULL <= pg[p].prev < |pg| && NULL <= pg[p].next < |pg|
    ensures |r| == |pg|
  {
    var (next, prev) := (pg[p].next, pg[p].prev);
    var pg1 := if prev != NULL then pg[prev := pg[prev].(next := next)] else pg;
    var pg2 := if next != NULL then pg1[next := pg1[next].(prev := prev)] else pg1;
    pg2[p := pg2[p].(next := NULL, prev := NULL)]
  }

  function Without(l: seq<nat>, i: nat): seq<nat>
    requires i < |l|
  {
    l[..i] + l[i + 1..]
  }

  lemma UnlinkList(pg: seq<Page>, head: int, l: seq<nat>, z: nat, o: nat, i: nat)
    requires ListOk(pg, head, l, z, o) && i < |l|
    ensures var p := l[i];
            && NULL <= pg[p].prev < |pg| && NULL <= pg[p].next < |pg|
            && ListOk(Unlinked(pg, p), if pg[p].prev == NULL then pg[p].next else head, Without(l, i), z, o)
            && (forall q :: 0 <= q < |pg| && q !in l ==> Unlinked(pg, p)[q] == pg[q])
  {
    var p, l' := l[i], Without(l, i);
    Neighbours(pg, head, l, z, o, i);
    var pg' := Unlinked(pg, p);
    forall j | 0 <= j < |l'| ensures NodeOk(pg', l', j) {
      UnlinkNode(pg, head, l, z, o, i, j);
    }
  }

  lemma Neighbours(pg: seq<Page>, head: int, l: seq<nat>, z: nat, o: nat, i: nat)
    requires ListOk(pg, head, l, z, o) && i < |l|
    ensures NULL <= pg[l[i]].prev < |pg| && NULL <= pg[l[i]].next < |pg|
    ensures i > 0 ==> pg[l[i]].prev == l[i - 1]
    ensures i == 0 ==> pg[l[i]].prev == NULL
    ensures i + 1 < |l| ==> pg[l[i]].next == l[i + 1]
    ensures i + 1 == |l| ==> pg[l[i]].next == NULL
  {
    assert NodeOk(pg, l, i);
    if i > 0 { assert NodeOk(pg, l, i - 1); }
    if i + 1 < |l| { assert NodeOk(pg, l, i + 1); }
  }

  lemma UnlinkNode(pg: seq<Page>, head: int, l: seq<nat>, z: nat, o: nat, i: nat, j: nat)
    requires ListOk(pg, head, l, z, o) && i < |l| && j < |l| - 1
    requires NULL <= pg[l[i]].prev < |pg| && NULL <= pg[l[i]].next < |pg|
    ensures NodeOk(Unlinked(pg, l[i]), Without(l, i), j)
  {
    Neighbours(pg, head, l, z, o, i);
    var k := if j < i then j else j + 1;
    assert NodeOk(pg, l, k) && l[k] != l[i];
    assert i > 0 && k != i - 1 ==> l[k] != l[i - 1];
    assert i + 1 < |l| && k != i + 1 ==> l[k] != l[i + 1];
    var pg' := Unlinked(pg, l[i]);
    assert pg'[l[k]] == pg[l[k]].(next := if k + 1 == i then pg[l[i]].next else pg[l[k]].next,
                                  prev := if k == i + 1 then pg[l[i]].prev else pg[l[k]].prev);
  }

  // ---- all lists --------------------------------------------------------------------

  type Lists = seq<seq<seq<nat>>>

  ghost predicate Shape(ls: Lists) {
    |ls| == ZONES && forall z :: 0 <= z < ZONES ==> |ls[z]| == ORDERS
  }

  /** Pages on the lists of one zone: 2^o for each entry of the list of order o. */
  function RowPages(row: seq<seq<nat>>): nat {
    if row == [] then 0
    else RowPages(row[..|row| - 1]) + |row[|row| - 1]| * Pow2(|row| - 1)
  }

  lemma {:induction false} RowUpdate(row: seq<seq<nat>>, o: nat, l: seq<nat>)
    requires o < |row|
    ensures RowPages(row[o := l]) == RowPages(row) + |l| * Pow2(o) - |row[o]| * Pow2(o)
  {
    var n := |row| - 1;
    if o < n {
      RowUpdate(row[..n], o, l);
      assert row[o := l][..n] == row[..n][o := l];
    } else {
      assert row[o := l][..n] == row[..n];
    }
  }

  ghost predicate ZoneOk(pg: seq<Page>, zn: Zone, row: seq<seq<nat>>, z: nat) {
    && |zn.lists| == ORDERS && |row| == ORDERS
    && zn.freePages == RowPages(row)
    && forall o :: 0 <= o < ORDERS ==> zn.lists[o].count == |row[o]| && ListOk(pg, zn.lists[o].head, row[o], z, o)
  }

  ghost predicate ListsOk(pg: seq<Page>, zs: seq<Zone>, ls: Lists) {
    && |zs| == ZONES && |ls| == ZONES
    && forall z :: 0 <= z < ZONES ==> ZoneOk(pg, zs[z], ls[z], z)
  }

  /** No list holds p. */
  ghost predicate NotListed(ls: Lists, p: nat) {
    forall z, o :: 0 <= z < |ls| && 0 <= o < |ls[z]| ==> p !in ls[z][o]
  }

  ghost function SetList(ls: Lists, z: nat, o: nat, l: seq<nat>): Lists
    requires z < |ls| && o < |ls[z]|
  {
    ls[z := ls[z][o := l]]
  }

  /** Only descriptors on list (z, o), and the unlisted p, are written: the other lists stand. */
  lemma OtherLists(pg: seq<Page>, pg': seq<Page>, zs: seq<Zone>, ls: Lists, z: nat, o: nat, p: nat, z': nat, o': nat)
    requires ListsOk(pg, zs, ls) && z < ZONES && o < ORDERS && z' < ZONES && o' < ORDERS
    requires (z', o') != (z, o) && p !in ls[z'][o']
    requires |pg'| == |pg| && forall q :: 0 <= q < |pg| && q != p && q !in ls[z][o] ==> pg'[q] == pg[q]
    ensures ListOk(pg', zs[z'].lists[o'].head, ls[z'][o'], z', o')
  {
    assert ZoneOk(pg, zs[z], ls[z], z) && ZoneOk(pg, zs[z'], ls[z'], z');
    ListFrame(pg, pg', zs[z'].lists[o'].head, ls[z'][o'], z', o');
  }

  lemma ReplaceList(pg: seq<Page>, pg': seq<Page>, zs: seq<Zone>, ls: Lists, z: nat, o: nat, p: nat, fl: FreeList, l: seq<nat>, n: nat)
    requires ListsOk(pg, zs, ls) && z < ZONES && o < ORDERS
    requires forall z', o' :: 0 <= z' < ZONES && 0 <= o' < ORDERS && (z', o') != (z, o) ==> p !in ls[z'][o']
    requires |pg'| == |pg| && forall q :: 0 <= q < |pg| && q != p && q !in ls[z][o] ==> pg'[q] == pg[q]
    requires fl.count == |l| && ListOk(pg', fl.head, l, z, o)
    requires n == zs[z].freePages + |l| * Pow2(o) - |ls[z][o]| * Pow2(o)
    ensures ListsOk(pg', zs[z := Zone(n, zs[z].lists[o := fl])], SetList(ls, z, o, l))
  {
    var zs', ls' := zs[z := Zone(n, zs[z].lists[o := fl])], SetList(ls, z, o, l);
    RowUpdate(ls[z], o, l);
    forall z' | 0 <= z' < ZONES ensures ZoneOk(pg', zs'[z'], ls'[z'], z') {
      assert ZoneOk(pg, zs[z'], ls[z'], z');
      forall o' | 0 <= o' < ORDERS
        ensures zs'[z'].lists[o'].count == |ls'[z'][o']| && ListOk(pg', zs'[z'].lists[o'].head, ls'[z'][o'], z', o')
      {
        if (z', o') != (z, o) {
          OtherLists(pg, pg', zs, ls, z, o, p, z', o');
        }
      }
    }
  }

  /** free_list_add puts an unlisted page in front of its list and touches no other list. */
  lemma AddKeepsLists(pg: seq<Page>, zs: seq<Zone>, ls: Lists, p: nat, o: nat)
    requires ListsOk(pg, zs, ls) && p < |pg| && o < ORDERS && NotListed(ls, p)
    ensures var z := ZoneOf(p);
            var fl := zs[z].lists[o];
            && NULL <= fl.head < |pg|
            && ListsOk(Pushed(pg, fl.head, p, o),
                       zs[z := Zone(zs[z].freePages + Pow2(o), zs[z].lists[o := FreeList(p, fl.count + 1)])],
                       SetList(ls, z, o, [p] + ls[z][o]))
  {
    hide Pow2, SetList;
    var z := ZoneOf(p);
    var fl, l := zs[z].lists[o], ls[z][o];
    assert ZoneOk(pg, zs[z], ls[z], z);
    PushList(pg, fl.head, l, z, o, p);
    MulStep(|l|, Pow2(o));
    assert fl.head != NULL ==> l[0] == fl.head;
    ReplaceList(pg, Pushed(pg, fl.head, p, o), zs, ls, z, o, p, FreeList(p, fl.count + 1), [p] + l, zs[z].freePages + Pow2(o));
  }

  lemma RemoveCounts(pg: seq<Page>, zs: seq<Zone>, ls: Lists, z: nat, o: nat, i: nat)
    requires ListsOk(pg, zs, ls) && z < ZONES && o < ORDERS && i < |ls[z][o]|
    ensures zs[z].lists[o].count > 0 && zs[z].freePages >= Pow2(o)
    ensures |Without(ls[z][o], i)| * Pow2(o) + Pow2(o) == |ls[z][o]| * Pow2(o)
  {
    assert ZoneOk(pg, zs[z], ls[z], z);
    RowUpdate(ls[z], o, Without(ls[z][o], i));
    MulStep(|Without(ls[z][o], i)|, Pow2(o));
  }

  /** The writes of free_list_remove to its zone. */
  function Shrunk(zn: Zone, o: nat, pg: seq<Page>, p: nat): Zone
    requires o < |zn.lists| && p < |pg| && zn.lists[o].count > 0 && zn.freePages >= Pow2(o)
  {
    var fl := zn.lists[o];
    Zone(zn.freePages - Pow2(o),
         zn.lists[o := FreeList(if pg[p].prev == NULL then pg[p].next else fl.head, fl.count - 1)])
  }

  /** free_list_remove takes a page out of its list, wherever it stands in it. */
  lemma RemoveKeepsLists(pg: seq<Page>, zs: seq<Zone>, ls: Lists, z: nat, o: nat, i: nat)
    requires ListsOk(pg, zs, ls) && z < ZONES && o < ORDERS && i < |ls[z][o]|
    ensures ls[z][o][i] < |pg| && NULL <= pg[ls[z][o][i]].prev < |pg| && NULL <= pg[ls[z][o][i]].next < |pg|
    ensures |zs[z].lists| == ORDERS && zs[z].lists[o].count > 0 && zs[z].freePages >= Pow2(o)
    ensures ListsOk(Unlinked(pg, ls[z][o][i]), zs[z := Shrunk(zs[z], o, pg, ls[z][o][i])],
                    SetList(ls, z, o, Without(ls[z][o], i)))
  {
    hide ListOk, Unlinked, Pow2, RowPages;
    assert ZoneOk(pg, zs[z], ls[z], z);
    var fl, l := zs[z].lists[o], ls[z][o];
    var p, l' := l[i], Without(l, i);
    UnlinkList(pg, fl.head, l, z, o, i);
    ListedOnce(pg, zs, ls, z, o, p);
    RemoveCounts(pg, zs, ls, z, o, i);
    assert fl.count == |l| && |l'| == |l| - 1;
    ReplaceList(pg, Unlinked(pg, p), zs, ls, z, o, p, Shrunk(zs[z], o, pg, p).lists[o], l', zs[z].freePages - Pow2(o));
  }

  lemma MulStep(n: nat, d: nat)
    ensures (n + 1) * d == n * d + d
  {
  }

  /** A page stands on one list only: the one of its zone and of its descriptor's order. */
  lemma ListedOnce(pg: seq<Page>, zs: seq<Zone>, ls: Lists, z: nat, o: nat, p: nat)
    requires ListsOk(pg, zs, ls) && z < ZONES && o < ORDERS && p in ls[z][o]
    ensures p < |pg| && pg[p].flags == Free && pg[p].order == o && ZoneOf(p) == z
    ensures forall z', o' :: 0 <= z' < ZONES && 0 <= o' < ORDERS && (z', o') != (z, o) ==> p !in ls[z'][o']
  {
    assert ZoneOk(pg, zs[z], ls[z], z);
    forall z', o' | 0 <= z' < ZONES && 0 <= o' < ORDERS && (z', o') != (z, o) ensures p !in ls[z'][o'] {
      assert ZoneOk(pg, zs[z'], ls[z'], z');
    }
  }
}
