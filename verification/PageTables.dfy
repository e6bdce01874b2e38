/** Four-level page tables of 512 words each, as src/vmm/ept.c and src/mm/paging.c build
    them: the tables live at physical addresses, an entry points to the next table, and
    bit 7 of an entry at level 2 or 3 makes it a 2 MB or 1 GB leaf. The tree is kept free
    of sharing: `tab` names, for every table in use, the unique place it hangs at. */
module PageTables {
  import opened Bits

  const ENTRIES: nat := 512
  const ADDR_MASK: nat := 0x000F_FFFF_FFFF_F000

  type Tables = map<nat, seq<nat>>

  /** Bit 0: EPT_READ, PTE_PRESENT. */
  predicate Present(e: nat) { And(e, 1) != 0 }

  /** Bit 7: EPT_LARGE_PAGE, PTE_HUGE. */
  predicate Large(e: nat) { And(e, 0x80) != 0 }

  function AddrOf(e: nat): nat { And(e, ADDR_MASK) }

  /** The table index of an address at a level: 1 for the page table up to 4 for the PML4. */
  function Index(x: nat, level: nat): nat { And(Shr(x, 3 + 9 * level), 0x1FF) }

  function EntryAt(ts: Tables, t: nat, i: nat): nat {
    if t in ts && i < |ts[t]| then ts[t][i] else 0
  }

  // ---- fields of words and addresses -------------------------------------------------

  lemma AndOne(e: nat)
    ensures And(e, 1) == e % 2
  {
    AndZero(e / 2, 0);
  }

  /** Shifts and masks of the widths used here, as quotients and remainders. */
  lemma Shift7(x: nat)
    ensures Shr(x, 7) == x / 128
  {
    hide Shr, Low, Pow2;
    Powers();
    Split(x, 7);
  }

  lemma Shift12(x: nat)
    ensures Shr(x, 12) == x / 0x1000
  {
    hide Shr, Low, Pow2;
    Powers();
    Split(x, 12);
  }

  lemma Shift21(x: nat)
    ensures Shr(x, 21) == x / 0x20_0000 && Low(x, 21) == x % 0x20_0000
  {
    hide Shr, Low, Pow2;
    Powers();
    Split(x, 21);
  }

  lemma Shift30(x: nat)
    ensures Shr(x, 30) == x / 0x4000_0000 && Low(x, 30) == x % 0x4000_0000
  {
    hide Shr, Low, Pow2;
    Powers();
    Split(x, 30);
  }

  lemma Shift39(x: nat)
    ensures Shr(x, 39) == x / 0x80_0000_0000
  {
    hide Shr, Low, Pow2;
    Powers();
    Split(x, 39);
  }

  lemma Mask9(x: nat)
    ensures And(x, 0x1FF) == x % 512
  {
    hide Shr, Low, Pow2, And;
    Powers();
    AndLow(x, 9);
    Split(x, 9);
  }

  lemma Mask12(x: nat)
    ensures And(x, 0xFFF) == x % 0x1000
  {
    hide Shr, Low, Pow2, And;
    Powers();
    AndLow(x, 12);
    Split(x, 12);
  }

  lemma Mask40(x: nat)
    ensures And(x, 0xFF_FFFF_FFFF) == x % 0x100_0000_0000
  {
    hide Shr, Low, Pow2, And;
    Powers();
    AndLow(x, 40);
    Split(x, 40);
  }

  lemma LargeIs(e: nat)
    ensures Large(e) <==> (e / 128) % 2 == 1
  {
    assert Shl(1, 7) == 0x80;
    hide And, Shr, Pow2;
    Powers();
    AndHigh(e, 7, 1);
    Shift7(e);
    AndOne(Shr(e, 7));
    ShlMul(And(Shr(e, 7), 1), 7);
  }

  lemma AddrOfIs(e: nat)
    ensures AddrOf(e) == 0x1000 * ((e / 0x1000) % 0x100_0000_0000)
  {
    hide And, Shr, Shl, Pow2;
    Powers();
    ShlMul(0xFF_FFFF_FFFF, 12);
    AndHigh(e, 12, 0xFF_FFFF_FFFF);
    Shift12(e);
    Mask40(Shr(e, 12));
    ShlMul(And(Shr(e, 12), 0xFF_FFFF_FFFF), 12);
  }

  /** Page-aligned addresses below 2^52 survive the address mask and carry no flags. */
  lemma AlignedFacts(h: nat)
    requires h % 4096 == 0 && h < 0x10_0000_0000_0000
    ensures AddrOf(h) == h && !Present(h) && !Large(h)
  {
    hide And, Large, AddrOf;
    AddrOfIs(h);
    AndOne(h);
    LargeIs(h);
    AlignedArith(h);
  }

  lemma AlignedBits(h: nat)
    requires h % 4096 == 0
    ensures h % 2 == 0 && h / 2 % 2 == 0 && h / 4 % 2 == 0 && h / 8 % 2 == 0 && h / 16 % 2 == 0 && h / 32 % 2 == 0
    ensures h < 0x10_0000_0000_0000 ==> h / 0x8000_0000_0000_0000 == 0
  {
    var q := h / 4096;
    Halvings(h);
    Doubled(h, 2048 * q);
    Doubled(h / 2, 1024 * q);
    Doubled(h / 4, 512 * q);
    Doubled(h / 8, 256 * q);
    Doubled(h / 16, 128 * q);
    Doubled(h / 32, 64 * q);
  }

  lemma Doubled(x: nat, y: nat)
    requires x == 2 * y
    ensures x % 2 == 0 && x / 2 == y
  {
  }

  lemma Halvings(x: nat)
    ensures x / 4 == x / 2 / 2 && x / 8 == x / 4 / 2 && x / 16 == x / 8 / 2 && x / 32 == x / 16 / 2
  {
  }

  lemma AlignedArith(h: nat)
    requires h % 4096 == 0
    ensures h / 4096 * 4096 == h && h % 2 == 0 && h / 128 % 2 == 0
  {
    var q := h / 4096;
    assert h == 4096 * q && h / 128 == 32 * q;
  }

  lemma FlagsHaveNoAddress(f: nat)
    requires f < 4096
    ensures AddrOf(f) == 0
  {
    hide And, AddrOf;
    AddrOfIs(f);
  }

  lemma OrNonzero(x: nat, y: nat)
    ensures Or(x, y) != 0 <==> x != 0 || y != 0
    ensures Or(x, 0) == x && Or(0, x) == x
  {
  }

  /** Or-ing flags into a word adds them and leaves the address alone. */
  lemma OrFields(x: nat, f: nat)
    requires AddrOf(f) == 0
    ensures AddrOf(Or(x, f)) == AddrOf(x)
    ensures Present(Or(x, f)) == (Present(x) || Present(f)) && Large(Or(x, f)) == (Large(x) || Large(f))
  {
    hide And, Or;
    AndOr(x, f, ADDR_MASK);
    AndOr(x, f, 1);
    AndOr(x, f, 0x80);
    OrNonzero(And(x, ADDR_MASK), 0);
    OrNonzero(And(x, 1), And(f, 1));
    OrNonzero(And(x, 0x80), And(f, 0x80));
  }

  /** The fields of an entry made by or-ing flags into a page-aligned address. */
  lemma EntryFields(h: nat, flags: nat)
    requires h % 4096 == 0 && h < 0x10_0000_0000_0000 && AddrOf(flags) == 0
    ensures AddrOf(Or(h, flags)) == h
    ensures Present(Or(h, flags)) == Present(flags) && Large(Or(h, flags)) == Large(flags)
  {
    AlignedFacts(h);
    OrFields(h, flags);
  }

  lemma IndexIs(x: nat, level: nat)
    requires 1 <= level <= 4
    ensures Index(x, level) < ENTRIES
    ensures level == 1 ==> Index(x, level) == (x / 0x1000) % 512
    ensures level == 2 ==> Index(x, level) == (x / 0x20_0000) % 512
    ensures level == 3 ==> Index(x, level) == (x / 0x4000_0000) % 512
    ensures level == 4 ==> Index(x, level) == (x / 0x80_0000_0000) % 512
  {
    hide And, Shr;
    Mask9(Shr(x, 3 + 9 * level));
    Shift12(x);
    Shift21(x);
    Shift30(x);
    Shift39(x);
  }

  /** The place of address x at a level: 0 at the root, the page number at level 0. */
  function Place(x: nat, level: nat): nat
    decreases 4 - level
  {
    if level >= 4 then 0 else Place(x, level + 1) * ENTRIES + Index(x, level + 1)
  }

  /** At level 0 the place is the page number of the low 48 bits, and 2 MB and 1 GB
      regions are places at levels 1 and 2. */
  lemma PlaceIs(x: nat)
    ensures Place(x, 0) == (x / 0x1000) % 0x10_0000_0000
    ensures Place(x, 1) == (x / 0x20_0000) % 0x800_0000
    ensures Place(x, 2) == (x / 0x4000_0000) % 0x4_0000
  {
    hide Index;
    IndexIs(x, 1);
    IndexIs(x, 2);
    IndexIs(x, 3);
    IndexIs(x, 4);
    assert Place(x, 3) == Index(x, 4) && Place(x, 2) == Index(x, 4) * 512 + Index(x, 3);
    assert Place(x, 1) == Place(x, 2) * 512 + Index(x, 2) && Place(x, 0) == Place(x, 1) * 512 + Index(x, 1);
    PlaceArith(x, Index(x, 1), Index(x, 2), Index(x, 3), Index(x, 4));
  }

  lemma PlaceArith(x: nat, i1: nat, i2: nat, i3: nat, i4: nat)
    requires i1 == (x / 0x1000) % 512 && i2 == (x / 0x20_0000) % 512
    requires i3 == (x / 0x4000_0000) % 512 && i4 == (x / 0x80_0000_0000) % 512
    ensures (x / 0x4000_0000) % 0x4_0000 == i4 * 512 + i3
    ensures (x / 0x20_0000) % 0x800_0000 == (i4 * 512 + i3) * 512 + i2
    ensures (x / 0x1000) % 0x10_0000_0000 == ((i4 * 512 + i3) * 512 + i2) * 512 + i1
  {
    var a, b, c, d := x / 0x1000, x / 0x20_0000, x / 0x4000_0000, x / 0x80_0000_0000;
    assert b == a / 512;
    assert c == b / 512;
    assert d == c / 512;
    Digits(a, b, c, d, i1, i2, i3, i4, d / 512);
  }

  lemma Digits(a: nat, b: nat, c: nat, d: nat, i1: nat, i2: nat, i3: nat, i4: nat, e: nat)
    requires a == 512 * b + i1 && b == 512 * c + i2 && c == 512 * d + i3 && d == 512 * e + i4
    requires i1 < 512 && i2 < 512 && i3 < 512 && i4 < 512
    ensures c % 0x4_0000 == i4 * 512 + i3
    ensures b % 0x800_0000 == (i4 * 512 + i3) * 512 + i2
    ensures a % 0x10_0000_0000 == ((i4 * 512 + i3) * 512 + i2) * 512 + i1
  {
    Rest18(c, e, i4 * 512 + i3);
    Rest27(b, e, (i4 * 512 + i3) * 512 + i2);
    Rest36(a, e, ((i4 * 512 + i3) * 512 + i2) * 512 + i1);
  }

  lemma Rest18(x: nat, q: nat, r: nat)
    requires x == 0x4_0000 * q + r && r < 0x4_0000
    ensures x % 0x4_0000 == r
  {
  }

  lemma Rest27(x: nat, q: nat, r: nat)
    requires x == 0x800_0000 * q + r && r < 0x800_0000
    ensures x % 0x800_0000 == r
  {
  }

  lemma Rest36(x: nat, q: nat, r: nat)
    requires x == 0x10_0000_0000 * q + r && r < 0x10_0000_0000
    ensures x % 0x10_0000_0000 == r
  {
  }

  lemma {:induction false} SamePlaceUp(x: nat, y: nat, l: nat, k: nat)
    requires l <= k <= 4 && Place(x, l) == Place(y, l)
    ensures Place(x, k) == Place(y, k)
    ensures l < k ==> Index(x, k) == Index(y, k)
    decreases k
  {
    if l < k {
      IndexIs(x, k);
      IndexIs(y, k);
      SamePlaceUp(x, y, l, k - 1);
    }
  }

  // ---- the walk -----------------------------------------------------------------------

  /** Where a walk ends: nowhere, or at an entry of a table at a level. */
  datatype Found = Absent | At(table: nat, index: nat, level: nat)

  /** An entry that the walk treats as a leaf above level 1. `presentFirst` is the order
      of the tests: get_pte looks at the present bit first, ept_walk at the size bit. */
  predicate BigLeaf(e: nat, level: nat, presentFirst: bool) {
    2 <= level <= 3 && Large(e) && (presentFirst ==> Present(e))
  }

  function Walk(ts: Tables, t: nat, level: nat, x: nat, presentFirst: bool): Found
    decreases level
  {
    var e := EntryAt(ts, t, Index(x, level));
    if level <= 1 || BigLeaf(e, level, presentFirst) then At(t, Index(x, level), level)
    else if Present(e) then Walk(ts, AddrOf(e), level - 1, x, presentFirst)
    else Absent
  }

  /** What the walk finds for x: the level and the word of a present leaf, a large leaf
      without the present bit, or nothing. */
  datatype Leaf = Unmapped | Mapped(level: nat, word: nat) | Blocked(level: nat)

  function LeafAt(e: nat, level: nat): Leaf {
    if Present(e) then Mapped(level, e) else if level <= 1 then Unmapped else Blocked(level)
  }

  function Lookup(ts: Tables, t: nat, level: nat, x: nat, presentFirst: bool): Leaf {
    match Walk(ts, t, level, x, presentFirst)
    case Absent => Unmapped
    case At(t', i, l) => LeafAt(EntryAt(ts, t', i), l)
  }

  // ---- the tree ---------------------------------------------------------------------

  datatype Slot = Slot(level: nat, place: nat)

  /** An entry the walk descends through. */
  predicate Pointer(e: nat, level: nat) {
    Present(e) && !(2 <= level <= 3 && Large(e))
  }

  ghost predicate TableOk(ts: Tables, tab: map<Slot, nat>, s: Slot)
    requires s in tab
  {
    && 1 <= s.level <= 4
    && tab[s] in ts && |ts[tab[s]]| == ENTRIES
    && (s.level == 4 ==> s.place == 0)
    && (s.level < 4 ==> Slot(s.level + 1, s.place / ENTRIES) in tab)
  }

  /** Entry i of the table at s points to a table exactly when there is one at the place
      below, and then to that one. */
  ghost predicate EntryOk(ts: Tables, tab: map<Slot, nat>, s: Slot, i: nat)
    requires s in tab && s.level >= 1
  {
    var child := Slot(s.level - 1, s.place * ENTRIES + i);
    && (Pointer(EntryAt(ts, tab[s], i), s.level) <==> child in tab)
    && (child in tab ==> AddrOf(EntryAt(ts, tab[s], i)) == tab[child])
  }

  ghost predicate TreeOk(ts: Tables, tab: map<Slot, nat>) {
    && Slot(4, 0) in tab
    && (forall s :: s in tab ==> TableOk(ts, tab, s))
    && (forall s, i: nat :: s in tab && s.level >= 2 && i < ENTRIES ==> EntryOk(ts, tab, s, i))
    && (forall s, s' :: s in tab && s' in tab && tab[s] == tab[s'] ==> s == s')
  }

  /** The walk for x passes through the table at s. */
  ghost predicate OnPath(s: Slot, x: nat) {
    s.level <= 4 && Place(x, s.level) == s.place
  }

  /** One step of a lookup. */
  lemma LookupStep(ts: Tables, t: nat, level: nat, x: nat, pf: bool)
    ensures var e := EntryAt(ts, t, Index(x, level));
            Lookup(ts, t, level, x, pf) ==
            if level <= 1 || BigLeaf(e, level, pf) then LeafAt(e, level)
            else if Present(e) then Lookup(ts, AddrOf(e), level - 1, x, pf)
            else Unmapped
  {
  }

  /** Addresses of one page are looked up alike. */
  lemma {:induction false} SameWalk(ts: Tables, t: nat, level: nat, x: nat, y: nat, pf: bool)
    requires 1 <= level <= 4 && Place(x, 0) == Place(y, 0)
    ensures Lookup(ts, t, level, x, pf) == Lookup(ts, t, level, y, pf)
    decreases level
  {
    hide Index, AddrOf, Present, Large, Lookup, BigLeaf;
    LookupStep(ts, t, level, x, pf);
    LookupStep(ts, t, level, y, pf);
    SamePlaceUp(x, y, 0, level);
    if level >= 2 {
      SameWalk(ts, AddrOf(EntryAt(ts, t, Index(x, level))), level - 1, x, y, pf);
    }
  }

  /** Words that x's walk does not read do not matter to it. */
  lemma {:induction false} WalkSame(ts: Tables, ts': Tables, tab: map<Slot, nat>, x: nat, level: nat, pf: bool)
    requires TreeOk(ts, tab) && 1 <= level <= 4 && Slot(level, Place(x, level)) in tab
    requires forall s :: s in tab && OnPath(s, x) ==>
               EntryAt(ts', tab[s], Index(x, s.level)) == EntryAt(ts, tab[s], Index(x, s.level))
    ensures var t := tab[Slot(level, Place(x, level))];
            Lookup(ts', t, level, x, pf) == Lookup(ts, t, level, x, pf)
    decreases level
  {
    hide Index, Present, Large, AddrOf, EntryAt, Lookup, TableOk;
    var s := Slot(level, Place(x, level));
    var i := Index(x, level);
    IndexIs(x, level);
    assert OnPath(s, x);
    LookupStep(ts, tab[s], level, x, pf);
    LookupStep(ts', tab[s], level, x, pf);
    if level >= 2 {
      assert EntryOk(ts, tab, s, i);
      if Pointer(EntryAt(ts, tab[s], i), level) {
        assert Place(x, level - 1) == s.place * ENTRIES + i;
        WalkSame(ts, ts', tab, x, level - 1, pf);
      }
    }
  }

  /** The walk for x from the root comes through every table on its path. */
  lemma {:induction false} WalkReaches(ts: Tables, tab: map<Slot, nat>, x: nat, level: nat, pf: bool)
    requires TreeOk(ts, tab) && 1 <= level <= 4 && Slot(level, Place(x, level)) in tab
    ensures Lookup(ts, tab[Slot(4, 0)], 4, x, pf) == Lookup(ts, tab[Slot(level, Place(x, level))], level, x, pf)
    decreases 4 - level
  {
    hide Index, Present, Large, AddrOf;
    if level < 4 {
      var s, up := Slot(level, Place(x, level)), Slot(level + 1, Place(x, level + 1));
      var i := Index(x, level + 1);
      IndexIs(x, level + 1);
      assert TableOk(ts, tab, s);
      assert s.place / ENTRIES == up.place;
      assert EntryOk(ts, tab, up, i);
      WalkReaches(ts, tab, x, level + 1, pf);
    }
  }

  // ---- writing entries ------------------------------------------------------------------

  function SetEntry(ts: Tables, t: nat, i: nat, w: nat): (r: Tables)
    requires t in ts && i < |ts[t]|
    ensures r.Keys == ts.Keys && forall u :: u in ts ==> |r[u]| == |ts[u]|
    ensures forall u, j: nat {:trigger EntryAt(r, u, j)} :: EntryAt(r, u, j) == if u == t && j == i then w else EntryAt(ts, u, j)
  {
    var table: seq<nat> := ts[t];
    ts[t := table[..i] + [w] + table[i + 1..]]
  }

  /** A zeroed page. */
  function ZeroTable(): seq<nat> {
    seq(ENTRIES, _ => 0)
  }

  ghost function Child(s: Slot, i: nat): Slot
    requires s.level >= 1
  {
    Slot(s.level - 1, s.place * ENTRIES + i)
  }

  /** The walk for x reads entry i of the table at s, if it gets that far. */
  ghost predicate Through(s: Slot, i: nat, x: nat) {
    1 <= s.level <= 4 && Place(x, s.level - 1) == s.place * ENTRIES + i
  }

  lemma ThroughIs(s: Slot, i: nat, x: nat)
    requires 1 <= s.level <= 4 && i < ENTRIES
    ensures Through(s, i, x) <==> OnPath(s, x) && Index(x, s.level) == i
  {
    hide Index;
    IndexIs(x, s.level);
    assert Place(x, s.level - 1) == Place(x, s.level) * ENTRIES + Index(x, s.level);
  }

  /** A write to an entry that x's walk does not read leaves its lookup alone. */
  lemma ElsewhereSame(ts: Tables, ts': Tables, tab: map<Slot, nat>, s: Slot, i: nat, x: nat, pf: bool)
    requires TreeOk(ts, tab) && s in tab && 1 <= s.level <= 4 && i < ENTRIES && !Through(s, i, x)
    requires forall u, j: nat :: u in tab && (tab[u] != tab[s] || j != i) ==> EntryAt(ts', tab[u], j) == EntryAt(ts, tab[u], j)
    ensures Lookup(ts', tab[Slot(4, 0)], 4, x, pf) == Lookup(ts, tab[Slot(4, 0)], 4, x, pf)
  {
    hide Index, EntryAt, Lookup, TableOk, EntryOk;
    ThroughIs(s, i, x);
    assert Place(x, 4) == 0;
    WalkSame(ts, ts', tab, x, 4, pf);
  }

  /** The tree after entry i of the table at s is made to point to the fresh table n. */
  lemma GrowTree(ts: Tables, tab: map<Slot, nat>, s: Slot, i: nat, n: nat, w: nat)
    requires TreeOk(ts, tab) && s in tab && s.level >= 2 && i < ENTRIES && Child(s, i) !in tab
    requires n !in ts && AddrOf(w) == n && Pointer(w, s.level)
    requires tab[s] in ts && |ts[tab[s]]| == ENTRIES
    ensures TreeOk(SetEntry(ts[n := ZeroTable()], tab[s], i, w), tab[Child(s, i) := n])
  {
    hide Index, AddrOf, Present, Large, SetEntry, EntryOk, TableOk;
    var ts', tab' := SetEntry(ts[n := ZeroTable()], tab[s], i, w), tab[Child(s, i) := n];
    forall u | u in tab' ensures TableOk(ts', tab', u) {
      GrowTable(ts, tab, s, i, n, w, u);
    }
    forall u, j: nat | u in tab' && u.level >= 2 && j < ENTRIES ensures EntryOk(ts', tab', u, j) {
      GrowEntry(ts, tab, s, i, n, w, u, j);
    }
    forall u | u in tab ensures tab[u] != n {
      TableIn(ts, tab, u);
    }
  }

  lemma TableIn(ts: Tables, tab: map<Slot, nat>, u: Slot)
    requires TreeOk(ts, tab) && u in tab
    ensures tab[u] in ts
  {
    assert TableOk(ts, tab, u);
  }

  lemma GrowTable(ts: Tables, tab: map<Slot, nat>, s: Slot, i: nat, n: nat, w: nat, u: Slot)
    requires TreeOk(ts, tab) && s in tab && s.level >= 2 && i < ENTRIES && Child(s, i) !in tab
    requires n !in ts && AddrOf(w) == n && Pointer(w, s.level)
    requires tab[s] in ts && |ts[tab[s]]| == ENTRIES
    requires u in tab || u == Child(s, i)
    ensures TableOk(SetEntry(ts[n := ZeroTable()], tab[s], i, w), tab[Child(s, i) := n], u)
  {
    hide Index, AddrOf, Present, Large, SetEntry, EntryOk;
    if u == Child(s, i) {
      assert TableOk(ts, tab, s);
    } else {
      assert TableOk(ts, tab, u);
    }
  }

  lemma GrowEntry(ts: Tables, tab: map<Slot, nat>, s: Slot, i: nat, n: nat, w: nat, u: Slot, j: nat)
    requires TreeOk(ts, tab) && s in tab && s.level >= 2 && i < ENTRIES && Child(s, i) !in tab
    requires n !in ts && AddrOf(w) == n && Pointer(w, s.level)
    requires tab[s] in ts && |ts[tab[s]]| == ENTRIES
    requires (u in tab || u == Child(s, i)) && u.level >= 2 && j < ENTRIES
    ensures EntryOk(SetEntry(ts[n := ZeroTable()], tab[s], i, w), tab[Child(s, i) := n], u, j)
  {
    hide Index, AddrOf, Present, Large, SetEntry, TreeOk;
    TreeFacts(ts, tab, s);
    if u == Child(s, i) {
      NoGrandchild(ts, tab, u, j);
      ZeroAbsent();
    } else {
      TreeFacts(ts, tab, u);
      EntryFact(ts, tab, u, j);
      SameSlot(ts, tab, s, u);
      ChildUnique(u, j, s, i);
    }
  }

  lemma TreeFacts(ts: Tables, tab: map<Slot, nat>, s: Slot)
    requires TreeOk(ts, tab) && s in tab
    ensures TableOk(ts, tab, s)
  {
  }

  lemma EntryFact(ts: Tables, tab: map<Slot, nat>, s: Slot, i: nat)
    requires TreeOk(ts, tab) && s in tab && s.level >= 2 && i < ENTRIES
    ensures EntryOk(ts, tab, s, i)
  {
  }

  lemma SameSlot(ts: Tables, tab: map<Slot, nat>, s: Slot, u: Slot)
    requires TreeOk(ts, tab) && s in tab && u in tab
    ensures tab[s] == tab[u] <==> s == u
  {
  }

  lemma ChildUnique(u: Slot, j: nat, s: Slot, i: nat)
    requires u.level >= 2 && s.level >= 2 && j < ENTRIES && i < ENTRIES
    ensures Child(u, j) == Child(s, i) <==> u == s && j == i
  {
  }

  lemma ZeroAbsent()
    ensures !Present(0) && !Large(0)
  {
  }

  lemma NoGrandchild(ts: Tables, tab: map<Slot, nat>, c: Slot, j: nat)
    requires TreeOk(ts, tab) && c !in tab && 2 <= c.level <= 3 && j < ENTRIES
    ensures Child(c, j) !in tab
  {
  }

  /** A new empty table changes no lookup. */
  lemma GrowLookup(ts: Tables, tab: map<Slot, nat>, s: Slot, i: nat, n: nat, w: nat, x: nat, pf: bool)
    requires TreeOk(ts, tab) && s in tab && 2 <= s.level <= 4 && i < ENTRIES && Child(s, i) !in tab
    requires n !in ts && AddrOf(w) == n && Pointer(w, s.level)
    requires tab[s] in ts && |ts[tab[s]]| == ENTRIES
    requires !Present(EntryAt(ts, tab[s], i)) && !BigLeaf(EntryAt(ts, tab[s], i), s.level, pf)
    ensures Lookup(SetEntry(ts[n := ZeroTable()], tab[s], i, w), tab[Slot(4, 0)], 4, x, pf)
            == Lookup(ts, tab[Slot(4, 0)], 4, x, pf)
  {
    hide Index, AddrOf, Present, Large, Walk, Lookup, SetEntry;
    if Through(s, i, x) {
      GrowThrough(ts, tab, s, i, n, w, x, pf);
    } else {
      var ts' := SetEntry(ts[n := ZeroTable()], tab[s], i, w);
      forall u, j: nat | u in tab && (tab[u] != tab[s] || j != i) ensures EntryAt(ts', tab[u], j) == EntryAt(ts, tab[u], j) {
        assert TableOk(ts, tab, u);
      }
      ElsewhereSame(ts, ts', tab, s, i, x, pf);
    }
  }

  lemma GrowThrough(ts: Tables, tab: map<Slot, nat>, s: Slot, i: nat, n: nat, w: nat, x: nat, pf: bool)
    requires TreeOk(ts, tab) && s in tab && 2 <= s.level <= 4 && i < ENTRIES && Child(s, i) !in tab
    requires n !in ts && AddrOf(w) == n && Pointer(w, s.level)
    requires tab[s] in ts && |ts[tab[s]]| == ENTRIES
    requires !Present(EntryAt(ts, tab[s], i)) && !BigLeaf(EntryAt(ts, tab[s], i), s.level, pf)
    requires Through(s, i, x)
    ensures Lookup(SetEntry(ts[n := ZeroTable()], tab[s], i, w), tab[Slot(4, 0)], 4, x, pf)
            == Lookup(ts, tab[Slot(4, 0)], 4, x, pf)
  {
    hide Index, AddrOf, Present, Large, Walk, Lookup, SetEntry, TreeOk, TableOk, EntryOk;
    var ts', tab' := SetEntry(ts[n := ZeroTable()], tab[s], i, w), tab[Child(s, i) := n];
    ThroughIs(s, i, x);
    GrowTree(ts, tab, s, i, n, w);
    InTree(ts, tab);
    WalkReaches(ts, tab, x, s.level, pf);
    WalkReaches(ts', tab', x, s.level, pf);
    LookupStep(ts, tab[s], s.level, x, pf);
    LookupStep(ts', tab[s], s.level, x, pf);
    LookupStep(ts', n, s.level - 1, x, pf);
    ZeroAbsent();
    assert EntryAt(ts', n, Index(x, s.level - 1)) == 0;
  }

  lemma InTree(ts: Tables, tab: map<Slot, nat>)
    requires TreeOk(ts, tab)
    ensures Slot(4, 0) in tab
  {
  }

  /** The tables in use after a leaf is written over entry i of the table at s: a page
      table that hung there is not reachable any more. */
  ghost function Pruned(tab: map<Slot, nat>, s: Slot, i: nat): map<Slot, nat>
    requires s.level >= 1
  {
    if s.level == 1 then tab else tab - {Child(s, i)}
  }

  lemma LeafTree(ts: Tables, tab: map<Slot, nat>, s: Slot, i: nat, w: nat)
    requires TreeOk(ts, tab) && s in tab && s.level >= 1 && i < ENTRIES && (s.level >= 3 ==> Child(s, i) !in tab)
    requires s.level == 1 || !Pointer(w, s.level)
    requires tab[s] in ts && |ts[tab[s]]| == ENTRIES
    ensures TreeOk(SetEntry(ts, tab[s], i, w), Pruned(tab, s, i))
    ensures Pruned(tab, s, i)[Slot(4, 0)] == tab[Slot(4, 0)]
  {
    hide Index, AddrOf, Present, Large, EntryAt, EntryOk, SetEntry;
    var ts', tab' := SetEntry(ts, tab[s], i, w), Pruned(tab, s, i);
    assert TableOk(ts, tab, s);
    forall u | u in tab' ensures TableOk(ts', tab', u) {
      assert TableOk(ts, tab, u);
    }
    forall u, j: nat | u in tab' && u.level >= 2 && j < ENTRIES ensures EntryOk(ts', tab', u, j) {
      LeafEntry(ts, tab, s, i, w, u, j);
    }
  }

  lemma LeafEntry(ts: Tables, tab: map<Slot, nat>, s: Slot, i: nat, w: nat, u: Slot, j: nat)
    requires TreeOk(ts, tab) && s in tab && s.level >= 1 && i < ENTRIES
    requires s.level == 1 || !Pointer(w, s.level)
    requires tab[s] in ts && |ts[tab[s]]| == ENTRIES
    requires u in Pruned(tab, s, i) && u.level >= 2 && j < ENTRIES
    ensures EntryOk(SetEntry(ts, tab[s], i, w), Pruned(tab, s, i), u, j)
  {
    hide Index, AddrOf, Present, Large, EntryAt, SetEntry, TreeOk;
    EntryFact(ts, tab, u, j);
    SameSlot(ts, tab, s, u);
    if s.level >= 2 {
      ChildUnique(u, j, s, i);
    }
  }

  /** Writing a leaf decides the lookups through it and no other. */
  lemma LeafLookup(ts: Tables, tab: map<Slot, nat>, s: Slot, i: nat, w: nat, x: nat, pf: bool)
    requires TreeOk(ts, tab) && s in tab && 1 <= s.level <= 4 && i < ENTRIES && (s.level >= 3 ==> Child(s, i) !in tab)
    requires s.level == 1 || !Pointer(w, s.level)
    requires tab[s] in ts && |ts[tab[s]]| == ENTRIES
    ensures Lookup(SetEntry(ts, tab[s], i, w), tab[Slot(4, 0)], 4, x, pf) ==
            if Through(s, i, x) then (if s.level == 1 || BigLeaf(w, s.level, pf) then LeafAt(w, s.level) else Unmapped)
            else Lookup(ts, tab[Slot(4, 0)], 4, x, pf)
  {
    hide Index, AddrOf, Present, Large, Walk;
    var ts', tab' := SetEntry(ts, tab[s], i, w), Pruned(tab, s, i);
    ThroughIs(s, i, x);
    if Through(s, i, x) {
      LeafTree(ts, tab, s, i, w);
      assert s in tab' && tab'[s] == tab[s];
      WalkReaches(ts', tab', x, s.level, pf);
      LookupStep(ts', tab[s], s.level, x, pf);
      assert EntryAt(ts', tab[s], i) == w;
    } else {
      ElsewhereSame(ts, ts', tab, s, i, x, pf);
    }
  }

  // ---- ancestors -------------------------------------------------------------------------

  /** The place, at a level, of the table above s. */
  ghost function Above(s: Slot, level: nat): nat
    decreases level - s.level
  {
    if s.level >= level then s.place else Above(Slot(s.level + 1, s.place / ENTRIES), level)
  }

  // ---- sharing the upper half of another tree ------------------------------------------------

  /** The root of a new tree: an empty lower half, the other root's upper half. */
  function UpperRoot(table: seq<nat>): seq<nat>
    requires |table| == ENTRIES
  {
    seq(256, _ => 0) + table[256..]
  }

  /** The tables of the upper half, under a root of their own. */
  ghost function UpperTab(tab: map<Slot, nat>, root: nat): map<Slot, nat> {
    (map s | s in tab && s.level < 4 && Above(s, 3) >= 256 :: tab[s])[Slot(4, 0) := root]
  }

  lemma UpperTree(ts: Tables, tab: map<Slot, nat>, n: nat)
    requires TreeOk(ts, tab) && n !in ts && tab[Slot(4, 0)] in ts && |ts[tab[Slot(4, 0)]]| == ENTRIES
    ensures TreeOk(ts[n := UpperRoot(ts[tab[Slot(4, 0)]])], UpperTab(tab, n))
  {
    hide Above, EntryOk, UpperRoot;
    var ts', tab' := ts[n := UpperRoot(ts[tab[Slot(4, 0)]])], UpperTab(tab, n);
    forall s | s in tab' ensures TableOk(ts', tab', s) {
      UpperTable(ts, tab, n, s);
    }
    forall s, i: nat | s in tab' && s.level >= 2 && i < ENTRIES ensures EntryOk(ts', tab', s, i) {
      UpperEntry(ts, tab, n, s, i);
    }
    forall s | s in tab ensures tab[s] != n {
      assert TableOk(ts, tab, s);
    }
  }

  lemma UpperTable(ts: Tables, tab: map<Slot, nat>, n: nat, s: Slot)
    requires TreeOk(ts, tab) && n !in ts && tab[Slot(4, 0)] in ts && |ts[tab[Slot(4, 0)]]| == ENTRIES
    requires s in UpperTab(tab, n)
    ensures TableOk(ts[n := UpperRoot(ts[tab[Slot(4, 0)]])], UpperTab(tab, n), s)
  {
    hide EntryOk;
    if s != Slot(4, 0) {
      assert TableOk(ts, tab, s);
      if s.level == 3 {
        assert TableOk(ts, tab, Slot(4, s.place / ENTRIES));
      } else {
        assert Above(Slot(s.level + 1, s.place / ENTRIES), 3) == Above(s, 3);
      }
    }
  }

  lemma UpperEntry(ts: Tables, tab: map<Slot, nat>, n: nat, s: Slot, i: nat)
    requires TreeOk(ts, tab) && n !in ts && tab[Slot(4, 0)] in ts && |ts[tab[Slot(4, 0)]]| == ENTRIES
    requires s in UpperTab(tab, n) && s.level >= 2 && i < ENTRIES
    ensures EntryOk(ts[n := UpperRoot(ts[tab[Slot(4, 0)]])], UpperTab(tab, n), s, i)
  {
    hide AddrOf, Present, Large, TableOk;
    assert s in tab && EntryOk(ts, tab, s, i);
    if s == Slot(4, 0) {
      ZeroAbsent();
    } else {
      assert tab[s] != n by { InTables(ts, tab, s); }
      assert Above(Slot(s.level - 1, s.place * ENTRIES + i), 3) == Above(s, 3);
    }
  }

  lemma InTables(ts: Tables, tab: map<Slot, nat>, s: Slot)
    requires TreeOk(ts, tab) && s in tab
    ensures tab[s] in ts
  {
    assert TableOk(ts, tab, s);
  }

  /** Lower-half addresses are unmapped, upper-half addresses are looked up as before. */
  lemma UpperLookup(ts: Tables, tab: map<Slot, nat>, n: nat, x: nat, pf: bool)
    requires TreeOk(ts, tab) && n !in ts && tab[Slot(4, 0)] in ts && |ts[tab[Slot(4, 0)]]| == ENTRIES
    ensures Lookup(ts[n := UpperRoot(ts[tab[Slot(4, 0)]])], n, 4, x, pf) ==
            if Index(x, 4) < 256 then Unmapped else Lookup(ts, tab[Slot(4, 0)], 4, x, pf)
  {
    hide Index, AddrOf, Present, Large, Walk, BigLeaf;
    var root := tab[Slot(4, 0)];
    var ts' := ts[n := UpperRoot(ts[root])];
    var i := Index(x, 4);
    IndexIs(x, 4);
    LookupStep(ts', n, 4, x, pf);
    LookupStep(ts, root, 4, x, pf);
    ZeroAbsent();
    NoBigRoot(EntryAt(ts', n, i), pf);
    if i >= 256 {
      assert EntryAt(ts', n, i) == EntryAt(ts, root, i);
      assert EntryOk(ts, tab, Slot(4, 0), i);
      if Present(EntryAt(ts, root, i)) {
        assert Place(x, 3) == Place(x, 4) * ENTRIES + i == i;
        forall s | s in tab && OnPath(s, x) ensures EntryAt(ts', tab[s], Index(x, s.level)) == EntryAt(ts, tab[s], Index(x, s.level)) {
          assert TableOk(ts, tab, s);
        }
        WalkSame(ts, ts', tab, x, 3, pf);
      }
    }
  }

  lemma NoBigRoot(e: nat, pf: bool)
    ensures !BigLeaf(e, 4, pf)
  {
  }
}
