/** The flags along a page walk. The processor grants an access only if every entry on the way
    allows it, so what a mapping is worth depends on the entries that point to tables as well. */
module Links {
  import opened Bits
  import opened PageTables

  /** An entry that points to a table with these flags in its low bits, and nothing in its high
      ones. */
  ghost predicate LinkWord(e: nat, flags: nat) {
    e % 4096 == flags && e < 0x10_0000_0000_0000
  }

  /** Every entry that points to a table carries these flags. */
  ghost predicate LinksOk(ts: Tables, tab: map<Slot, nat>, flags: nat) {
    forall s, i: nat :: s in tab && s.level >= 2 && i < ENTRIES && Pointer(EntryAt(ts, tab[s], i), s.level) ==>
                          LinkWord(EntryAt(ts, tab[s], i), flags)
  }

  lemma LinkFields(n: nat, flags: nat)
    requires n % 4096 == 0 && n < 0x10_0000_0000_0000 && flags < 4096
    ensures LinkWord(Or(n, flags), flags)
  {
    hide Or, Shl, Pow2;
    var q := n / 4096;
    Powers();
    ShlMul(q, 12);
    OrDisjoint(q, flags, 12);
    LinkSum(q, flags);
  }

  lemma LinkSum(q: nat, flags: nat)
    requires flags < 4096 && 4096 * q < 0x10_0000_0000_0000
    ensures (4096 * q + flags) % 4096 == flags && 4096 * q + flags < 0x10_0000_0000_0000
  {
  }

  lemma GrowLinks(ts: Tables, tab: map<Slot, nat>, s: Slot, i: nat, n: nat, w: nat, flags: nat)
    requires TreeOk(ts, tab) && LinksOk(ts, tab, flags) && s in tab && s.level >= 2 && i < ENTRIES
    requires n !in ts && LinkWord(w, flags) && tab[s] in ts && |ts[tab[s]]| == ENTRIES
    ensures LinksOk(SetEntry(ts[n := ZeroTable()], tab[s], i, w), tab[Child(s, i) := n], flags)
  {
    hide TreeOk, SetEntry, Pointer, EntryAt;
    var grown, tab' := ts[n := ZeroTable()], tab[Child(s, i) := n];
    var ts' := SetEntry(grown, tab[s], i, w);
    forall u, j: nat | u in tab' && u.level >= 2 && j < ENTRIES && Pointer(EntryAt(ts', tab'[u], j), u.level)
      ensures LinkWord(EntryAt(ts', tab'[u], j), flags)
    {
      NewTable(ts, n, tab'[u], j);
      NoPointerZero(u.level);
      assert EntryAt(ts', tab'[u], j) == if tab'[u] == tab[s] && j == i then w else EntryAt(grown, tab'[u], j);
      if u != Child(s, i) {
        TreeFacts(ts, tab, u);
      }
    }
  }

  lemma NewTable(ts: Tables, n: nat, t: nat, j: nat)
    requires n !in ts
    ensures EntryAt(ts[n := ZeroTable()], t, j) == if t == n then 0 else EntryAt(ts, t, j)
  {
  }

  lemma NoPointerZero(level: nat)
    ensures !Pointer(0, level)
  {
    ZeroAbsent();
  }

  lemma LeafLinks(ts: Tables, tab: map<Slot, nat>, s: Slot, i: nat, w: nat, flags: nat)
    requires TreeOk(ts, tab) && LinksOk(ts, tab, flags) && s in tab && s.level >= 1 && i < ENTRIES
    requires s.level == 1 || !Pointer(w, s.level)
    requires tab[s] in ts && |ts[tab[s]]| == ENTRIES
    ensures LinksOk(SetEntry(ts, tab[s], i, w), Pruned(tab, s, i), flags)
  {
    hide TreeOk, SetEntry, Pointer, EntryAt;
    var ts', tab' := SetEntry(ts, tab[s], i, w), Pruned(tab, s, i);
    forall u, j: nat | u in tab' && u.level >= 2 && j < ENTRIES && Pointer(EntryAt(ts', tab'[u], j), u.level)
      ensures LinkWord(EntryAt(ts', tab'[u], j), flags)
    {
      SameSlot(ts, tab, s, u);
      assert EntryAt(ts', tab[u], j) == if tab[u] == tab[s] && j == i then w else EntryAt(ts, tab[u], j);
    }
  }

  lemma UpperLinks(ts: Tables, tab: map<Slot, nat>, n: nat, flags: nat)
    requires TreeOk(ts, tab) && LinksOk(ts, tab, flags) && n !in ts
    requires Slot(4, 0) in tab && tab[Slot(4, 0)] in ts && |ts[tab[Slot(4, 0)]]| == ENTRIES
    ensures LinksOk(ts[n := UpperRoot(ts[tab[Slot(4, 0)]])], UpperTab(tab, n), flags)
  {
    hide TreeOk, Pointer, UpperRoot;
    RootIn(ts, tab);
    var root := tab[Slot(4, 0)];
    var ts', tab' := ts[n := UpperRoot(ts[root])], UpperTab(tab, n);
    forall u, j: nat | u in tab' && u.level >= 2 && j < ENTRIES && Pointer(EntryAt(ts', tab'[u], j), u.level)
      ensures LinkWord(EntryAt(ts', tab'[u], j), flags)
    {
      if u == Slot(4, 0) {
        UpperRootIs(ts[root], j);
        NoPointerZero(4);
        TreeFacts(ts, tab, u);
        assert EntryAt(ts, root, j) == ts[root][j];
      } else {
        TreeFacts(ts, tab, u);
        assert EntryAt(ts', tab[u], j) == EntryAt(ts, tab[u], j);
      }
    }
  }

  lemma RootIn(ts: Tables, tab: map<Slot, nat>)
    requires TreeOk(ts, tab)
    ensures Slot(4, 0) in tab
  {
  }

  lemma UpperRootIs(table: seq<nat>, j: nat)
    requires |table| == ENTRIES && j < ENTRIES
    ensures |UpperRoot(table)| == ENTRIES && UpperRoot(table)[j] == if j < 256 then 0 else table[j]
  {
  }

  // ---- what a walk allows -----------------------------------------------------------------

  /** Every entry that the walk for x reads satisfies P. */
  ghost predicate Every(ts: Tables, t: nat, level: nat, x: nat, pf: bool, P: nat -> bool)
    decreases level
  {
    var e := EntryAt(ts, t, Index(x, level));
    P(e) && (level <= 1 || BigLeaf(e, level, pf) || (Present(e) ==> Every(ts, AddrOf(e), level - 1, x, pf, P)))
  }

  /** For a mapped address it comes to the leaf and the flags that all links carry. */
  lemma {:induction false} EveryIs(ts: Tables, tab: map<Slot, nat>, x: nat, level: nat, pf: bool, flags: nat, P: nat -> bool, linksDo: bool)
    requires TreeOk(ts, tab) && LinksOk(ts, tab, flags) && 1 <= level <= 4 && Slot(level, Place(x, level)) in tab
    requires Lookup(ts, tab[Slot(level, Place(x, level))], level, x, pf).Mapped?
    requires forall e :: LinkWord(e, flags) ==> (P(e) <==> linksDo)
    ensures var t := tab[Slot(level, Place(x, level))]; var leaf := Lookup(ts, t, level, x, pf);
            && 1 <= leaf.level <= level && leaf.level <= 3
            && (Every(ts, t, level, x, pf, P) <==> P(leaf.word) && (leaf.level < level ==> linksDo))
    decreases level
  {
    hide Index, Present, Large, AddrOf, EntryAt, Lookup, TreeOk;
    var s := Slot(level, Place(x, level));
    var i := Index(x, level);
    var e := EntryAt(ts, tab[s], i);
    IndexIs(x, level);
    LookupStep(ts, tab[s], level, x, pf);
    if level >= 2 && !BigLeaf(e, level, pf) {
      EntryFact(ts, tab, s, i);
      assert Pointer(e, level);
      assert Place(x, level - 1) == s.place * ENTRIES + i;
      EveryIs(ts, tab, x, level - 1, pf, flags, P, linksDo);
    }
  }
}
