/** A page-table tree in memory, growing by pages from the physical allocator. */
module TableSpace {
  import opened Bits
  import opened PageTables
  import opened Links

  ghost predicate PageOk(n: nat) {
    n % 4096 == 0 && 0 < n < 0x10_0000_0000_0000
  }

  /** The pages pmm_alloc_page will hand out next, in this order; none is in use. */
  ghost predicate PoolOk(pool: seq<nat>, ts: Tables) {
    && (forall i :: 0 <= i < |pool| ==> PageOk(pool[i]) && pool[i] !in ts)
    && (forall i, j :: 0 <= i < j < |pool| ==> pool[i] != pool[j])
  }

  lemma RootKnown(ts: Tables, tab: map<Slot, nat>)
    requires TreeOk(ts, tab)
    ensures Slot(4, 0) in tab && tab[Slot(4, 0)] in ts && |ts[tab[Slot(4, 0)]]| == ENTRIES
  {
    assert TableOk(ts, tab, Slot(4, 0));
  }

  /** The first page of the pool becomes a table. */
  lemma FirstTaken(pool: seq<nat>, ts: Tables, table: seq<nat>)
    requires PoolOk(pool, ts) && pool != []
    ensures PageOk(pool[0]) && pool[0] !in ts && PoolOk(pool[1..], ts[pool[0] := table])
  {
  }

  lemma UpperTabIs(tab: map<Slot, nat>, root: nat)
    ensures Slot(4, 0) in UpperTab(tab, root) && UpperTab(tab, root)[Slot(4, 0)] == root
    ensures forall s :: s in UpperTab(tab, root) && s.level < 4 ==> Above(s, 3) >= 256
  {
  }

  class Space {
    const root: nat
    var tables: Tables
    var pool: seq<nat>
    /** The flags of the entries that point to tables. */
    ghost const links: nat
    ghost var tab: map<Slot, nat>
    /** Every page taken from the allocator so far. */
    ghost var taken: set<nat>

    ghost predicate Valid()
      reads this
    {
      TreeOk(tables, tab) && tab[Slot(4, 0)] == root && PoolOk(pool, tables) && 0 !in tables
      && LinksOk(tables, tab, links)
    }

    /** What the tables say of address x. */
    ghost function Look(x: nat, pf: bool): Leaf
      reads this
    {
      Lookup(tables, root, 4, x, pf)
    }

    /** t is the table at the place of x at this level. */
    ghost predicate Holds(t: nat, level: nat, x: nat)
      reads this
    {
      1 <= level <= 4 && Slot(level, Place(x, level)) in tab && tab[Slot(level, Place(x, level))] == t
    }

    lemma HoldsFacts(t: nat, level: nat, x: nat)
      requires Valid() && Holds(t, level, x)
      ensures t in tables && |tables[t]| == ENTRIES && Index(x, level) < ENTRIES
      ensures level > 1 ==> Child(Slot(level, Place(x, level)), Index(x, level)) == Slot(level - 1, Place(x, level - 1))
      ensures level > 1 ==> EntryOk(tables, tab, Slot(level, Place(x, level)), Index(x, level))
      ensures Look(x, false) == Lookup(tables, t, level, x, false) && Look(x, true) == Lookup(tables, t, level, x, true)
    {
      hide Index, LinksOk;
      IndexIs(x, level);
      assert TableOk(tables, tab, Slot(level, Place(x, level)));
      WalkReaches(tables, tab, x, level, false);
      WalkReaches(tables, tab, x, level, true);
    }

    /** An empty tree whose root is the first page of the pool. */
    constructor (pages: seq<nat>, ghost flags: nat)
      requires PoolOk(pages, map[]) && pages != []
      ensures Valid() && links == flags && root == pages[0] && pool == pages[1..] && taken == {root}
      ensures forall x, pf :: Look(x, pf) == Unmapped
    {
      root, tables, pool := pages[0], map[pages[0] := ZeroTable()], pages[1..];
      links, tab, taken := flags, map[Slot(4, 0) := pages[0]], {pages[0]};
      new;
      NoPointerZero(4);
      ZeroAbsent();
      forall x, pf ensures Look(x, pf) == Unmapped {
        LookupStep(tables, root, 4, x, pf);
      }
    }

    /** A tree of its own in the lower half that shares the upper half of another. */
    constructor SharingUpperHalf(other: Space, pages: seq<nat>)
      requires other.Valid() && PoolOk(pages, other.tables) && pages != []
      ensures Valid() && links == other.links && root == pages[0] && pool == pages[1..] && taken == {root}
      ensures forall s :: s in tab && s.level < 4 ==> Above(s, 3) >= 256
      ensures forall x: nat, pf :: Look(x, pf) == if Index(x, 4) < 256 then Unmapped else other.Look(x, pf)
    {
      hide Lookup, Index, Above, TreeOk, PoolOk, UpperTab, UpperRoot, LinksOk;
      RootKnown(other.tables, other.tab);
      FirstTaken(pages, other.tables, UpperRoot(other.tables[other.root]));
      UpperTree(other.tables, other.tab, pages[0]);
      UpperTabIs(other.tab, pages[0]);
      UpperLinks(other.tables, other.tab, pages[0], other.links);
      root, pool := pages[0], pages[1..];
      tables := other.tables[pages[0] := UpperRoot(other.tables[other.root])];
      links, tab, taken := other.links, UpperTab(other.tab, pages[0]), {pages[0]};
      new;
      forall x: nat, pf ensures Look(x, pf) == if Index(x, 4) < 256 then Unmapped else other.Look(x, pf) {
        UpperLookup(other.tables, other.tab, root, x, pf);
      }
    }

    /** Pages return to the physical allocator, or are set aside for a time: the next ones it
        will hand out are others than before. No translation changes. */
    method Refill(pages: seq<nat>)
      requires Valid() && PoolOk(pages, tables)
      modifies `pool
      ensures Valid() && pool == pages
      ensures forall x, pf :: Look(x, pf) == old(Look(x, pf))
    {
      pool := pages;
    }

    /** Allocates a zeroed table and points entry i of the table t at it; 0 when out of memory. */
    method Install(t: nat, level: nat, x: nat, flags: nat, pf: bool) returns (n: nat)
      requires Valid() && Holds(t, level, x) && level >= 2
      requires !Present(EntryAt(tables, t, Index(x, level))) && !BigLeaf(EntryAt(tables, t, Index(x, level)), level, pf)
      requires flags < 4096 && Present(flags) && !Large(flags) && flags == links
      modifies this
      ensures Valid()
      ensures forall y :: Look(y, pf) == old(Look(y, pf))
      ensures n == 0 <==> old(pool) == []
      ensures n == 0 ==> tables == old(tables) && tab == old(tab) && pool == old(pool) && taken == old(taken)
      ensures n != 0 ==> taken == old(taken) + {n} && n !in old(tables)
      ensures n != 0 ==>
                && n == old(pool)[0] && pool == old(pool)[1..]
                && Holds(n, level - 1, x) && tab == old(tab)[Slot(level - 1, Place(x, level - 1)) := n]
                && forall j: nat :: EntryAt(tables, n, j) == 0
      ensures n != 0 ==> tables.Keys == old(tables).Keys + {n}
    {
      hide Index, Present, Large, EntryOk, EntryAt, Lookup, BigLeaf, TreeOk, PoolOk, SetEntry, LinksOk;
      HoldsFacts(t, level, x);
      if pool == [] {
        return 0;
      }
      var i := Index(x, level);
      n := pool[0];
      InstallFacts(t, level, x, flags, pf);
      tables, pool := SetEntry(tables[n := ZeroTable()], t, i, Or(n, flags)), pool[1..];
      tab := tab[Slot(level - 1, Place(x, level - 1)) := n];
      taken := taken + {n};
    }

    /** What installing the first page of the pool does to the tables. */
    lemma InstallFacts(t: nat, level: nat, x: nat, flags: nat, pf: bool)
      requires Valid() && Holds(t, level, x) && level >= 2 && pool != []
      requires !Present(EntryAt(tables, t, Index(x, level))) && !BigLeaf(EntryAt(tables, t, Index(x, level)), level, pf)
      requires flags < 4096 && Present(flags) && !Large(flags) && flags == links
      ensures var n := pool[0];
              && n != 0 && n !in tables && t in tables && |tables[t]| == ENTRIES && Index(x, level) < ENTRIES
              && var ts' := SetEntry(tables[n := ZeroTable()], t, Index(x, level), Or(n, flags));
                 && TreeOk(ts', tab[Slot(level - 1, Place(x, level - 1)) := n])
                 && PoolOk(pool[1..], ts') && ts'.Keys == tables.Keys + {n}
                 && (forall y :: Lookup(ts', root, 4, y, pf) == Lookup(tables, root, 4, y, pf))
                 && (forall j: nat :: EntryAt(ts', n, j) == 0)
                 && LinksOk(ts', tab[Slot(level - 1, Place(x, level - 1)) := n], links)
    {
      hide Index, AddrOf, Present, Large, EntryOk, EntryAt, Lookup, BigLeaf, TreeOk, SetEntry, LinksOk;
      var s, i, n := Slot(level, Place(x, level)), Index(x, level), pool[0];
      var w := Or(n, flags);
      HoldsFacts(t, level, x);
      FlagsHaveNoAddress(flags);
      EntryFields(n, flags);
      NoChild(t, level, x);
      GrowTree(tables, tab, s, i, n, w);
      LinkFields(n, flags);
      GrowLinks(tables, tab, s, i, n, w, links);
      forall y ensures Lookup(SetEntry(tables[n := ZeroTable()], t, i, w), root, 4, y, pf) == Lookup(tables, root, 4, y, pf) {
        GrowLookup(tables, tab, s, i, n, w, y, pf);
      }
      ZeroEntries(tables[n := ZeroTable()], n);
    }

    lemma NoChild(t: nat, level: nat, x: nat)
      requires Valid() && Holds(t, level, x) && level >= 2
      requires !Present(EntryAt(tables, t, Index(x, level)))
      ensures Slot(level - 1, Place(x, level - 1)) !in tab
    {
      HoldsFacts(t, level, x);
    }

    lemma ZeroEntries(ts: Tables, n: nat)
      requires n in ts && ts[n] == ZeroTable()
      ensures forall j: nat :: EntryAt(ts, n, j) == 0
    {
    }

    /** One level of a walk: the table below t on the way to x, made if need be and wanted;
        0 when there is none. */
    method Descend(t: nat, level: nat, x: nat, create: bool, flags: nat, pf: bool) returns (next: nat)
      requires Valid() && Holds(t, level, x) && level >= 2
      requires !BigLeaf(EntryAt(tables, t, Index(x, level)), level, pf)
      requires flags < 4096 && Present(flags) && !Large(flags) && flags == links
      modifies if create then {this} else {}
      ensures Valid()
      ensures forall y :: Look(y, pf) == old(Look(y, pf))
      ensures next != 0 ==> Holds(next, level - 1, x)
      ensures next == 0 ==> tables == old(tables) && tab == old(tab) && pool == old(pool) && taken == old(taken)
      ensures next == 0 <==> !old(Present(EntryAt(tables, t, Index(x, level)))) && (!create || old(pool) == [])
      ensures old(Present(EntryAt(tables, t, Index(x, level)))) ==>
                tables == old(tables) && tab == old(tab) && pool == old(pool) && taken == old(taken)
      ensures next != 0 && !old(Present(EntryAt(tables, t, Index(x, level)))) ==>
                && next == old(pool)[0] && pool == old(pool)[1..]
                && tab == old(tab)[Slot(level - 1, Place(x, level - 1)) := next]
                && tables.Keys == old(tables).Keys + {next} && next !in old(tables) && taken == old(taken) + {next}
                && forall j: nat :: EntryAt(tables, next, j) == 0
    {
      hide Index, AddrOf, Present, Large, EntryAt, Lookup, LinksOk;
      HoldsFacts(t, level, x);
      var e := tables[t][Index(x, level)];
      assert e == EntryAt(tables, t, Index(x, level)) by { EntryIs(t, Index(x, level)); }
      if Present(e) {
        next := AddrOf(e);
        assert TableOk(tables, tab, Slot(level - 1, Place(x, level - 1)));
      } else if create {
        next := Install(t, level, x, flags, pf);
      } else {
        next := 0;
      }
    }

    lemma EntryIs(t: nat, i: nat)
      requires t in tables && i < |tables[t]|
      ensures EntryAt(tables, t, i) == tables[t][i]
    {
    }

    /** Overwrites the entry for x in the table at a level with a leaf or with nothing. */
    method WriteLeaf(t: nat, level: nat, x: nat, w: nat, pf: bool)
      requires Valid() && Holds(t, level, x)
      requires level == 1 || !Pointer(w, level)
      requires level >= 3 ==> Slot(level - 1, Place(x, level - 1)) !in tab
      modifies this
      ensures Valid() && pool == old(pool) && taken == old(taken)
      ensures tab == Pruned(old(tab), Slot(level, Place(x, level)), Index(x, level)) && tables.Keys == old(tables).Keys
      ensures forall y :: Look(y, pf) ==
                if Place(y, level - 1) == Place(x, level - 1)
                then (if level == 1 || BigLeaf(w, level, pf) then LeafAt(w, level) else Unmapped)
                else old(Look(y, pf))
    {
      hide Index, AddrOf, Present, Large, EntryOk, EntryAt, Lookup, BigLeaf, TreeOk, SetEntry, LinksOk;
      ghost var s := Slot(level, Place(x, level));
      var i := Index(x, level);
      HoldsFacts(t, level, x);
      PlaceStep(x, level);
      LeafTree(tables, tab, s, i, w);
      LeafLinks(tables, tab, s, i, w, links);
      forall y ensures Lookup(SetEntry(tables, t, i, w), root, 4, y, pf) ==
                       if Place(y, level - 1) == Place(x, level - 1)
                       then (if level == 1 || BigLeaf(w, level, pf) then LeafAt(w, level) else Unmapped)
                       else Lookup(tables, root, 4, y, pf)
      {
        LeafLookup(tables, tab, s, i, w, y, pf);
      }
      tables := SetEntry(tables, t, i, w);
      tab := Pruned(tab, s, i);
    }

    lemma PlaceStep(x: nat, level: nat)
      requires 1 <= level <= 4
      ensures Place(x, level - 1) == Place(x, level) * ENTRIES + Index(x, level)
    {
    }
  }
}
