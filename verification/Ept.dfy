/** The extended page tables of src/vmm/ept.c: guest-physical to host-physical translation
    with 4 KB and 2 MB leaves, shown to agree with the flat map the ranges describe. */
module Ept {
  import opened Bits
  import opened PageTables
  import opened Links
  import opened TableSpace

  const RWX: nat := 7
  const PAGE: nat := 0x1000
  const MB2: nat := 0x20_0000
  const GB1: nat := 0x4000_0000
  const SPAN: nat := 0x1_0000_0000_0000
  const U64: nat := 0x1_0000_0000_0000_0000

  /** ept_get_host_phys on what the walk found; 0 stands for unmapped. */
  function HostPhys(leaf: Leaf, x: nat): nat {
    match leaf
    case Mapped(level, w) =>
      if level == 3 then Or(AddrOf(w), And(x, GB1 - 1))
      else if level == 2 then Or(AddrOf(w), And(x, MB2 - 1))
      else Or(AddrOf(w), And(x, PAGE - 1))
    case _ => 0
  }

  /** The translation of guest-physical address x. */
  ghost function Translate(ept: Space, x: nat): nat
    reads ept
  {
    HostPhys(ept.Look(x, false), x)
  }

  // ---- words -----------------------------------------------------------------------

  /** What ept_map_page and ept_map_page_2m store. */
  function LeafWord(h: nat, perm: nat, memtype: nat, large: bool): nat {
    Or(Or(Or(h, perm), if large then 0x80 else 0), Shl(memtype, 3))
  }

  ghost predicate FlagsOk(perm: nat, memtype: nat) {
    perm < 8 && memtype < 8
  }

  lemma LeafWordFields(h: nat, perm: nat, memtype: nat, large: bool)
    requires h % PAGE == 0 && h < 0x10_0000_0000_0000 && FlagsOk(perm, memtype)
    ensures var w := LeafWord(h, perm, memtype, large);
            && AddrOf(w) == h && (Present(w) <==> perm % 2 == 1) && (Large(w) <==> large)
            && w % 8 == perm && w / 8 % 8 == memtype
  {
    hide And, Or, AddrOf, Present, Large, Shl, Pow2, LinksOk;
    var big, mem := if large then 0x80 else 0, Shl(memtype, 3);
    Powers();
    ShlMul(memtype, 3);
    AlignedFacts(h);
    SmallFields(perm);
    SmallFields(big);
    SmallFields(mem);
    OrFields(h, perm);
    OrFields(Or(h, perm), big);
    OrFields(Or(Or(h, perm), big), mem);
    WordBits(h, perm, memtype, large);
  }

  /** The permission is in bits 0 to 2 of a leaf, the memory type in bits 3 to 5. */
  lemma WordBits(h: nat, perm: nat, memtype: nat, large: bool)
    requires h % PAGE == 0 && FlagsOk(perm, memtype)
    ensures var w := LeafWord(h, perm, memtype, large); w % 8 == perm && w / 8 % 8 == memtype
  {
    hide LeafWord, Bit;
    var w := LeafWord(h, perm, memtype, large);
    WordBit(h, perm, memtype, large, 0);
    WordBit(h, perm, memtype, large, 1);
    WordBit(h, perm, memtype, large, 2);
    WordBit(h, perm, memtype, large, 3);
    WordBit(h, perm, memtype, large, 4);
    WordBit(h, perm, memtype, large, 5);
    AddressBits(h);
    PermBits(perm);
    SizeBits(large);
    TypeBits(memtype);
    BitsAre(w);
    Eighths(w);
    Octal(w, perm);
    Octal(w / 8, memtype);
  }

  lemma AddressBits(h: nat)
    requires h % PAGE == 0
    ensures !Bit(h, 0) && !Bit(h, 1) && !Bit(h, 2) && !Bit(h, 3) && !Bit(h, 4) && !Bit(h, 5)
  {
    hide Bit;
    BitsAre(h);
    AlignedBits(h);
  }

  lemma PermBits(perm: nat)
    requires perm < 8
    ensures (Bit(perm, 0) <==> perm % 2 == 1) && (Bit(perm, 1) <==> perm / 2 % 2 == 1) && (Bit(perm, 2) <==> perm / 4 % 2 == 1)
    ensures !Bit(perm, 3) && !Bit(perm, 4) && !Bit(perm, 5)
  {
    hide Bit;
    BitsAre(perm);
  }

  lemma SizeBits(large: bool)
    ensures var big := if large then 0x80 else 0;
            !Bit(big, 0) && !Bit(big, 1) && !Bit(big, 2) && !Bit(big, 3) && !Bit(big, 4) && !Bit(big, 5)
  {
    hide Bit;
    BitsAre(if large then 0x80 else 0);
  }

  lemma TypeBits(memtype: nat)
    requires memtype < 8
    ensures var m := 8 * memtype;
            && !Bit(m, 0) && !Bit(m, 1) && !Bit(m, 2)
            && (Bit(m, 3) <==> memtype % 2 == 1) && (Bit(m, 4) <==> memtype / 2 % 2 == 1) && (Bit(m, 5) <==> memtype / 4 % 2 == 1)
  {
    hide Bit;
    BitsAre(8 * memtype);
  }

  lemma Eighths(w: nat)
    ensures w / 8 / 2 == w / 16 && w / 8 / 4 == w / 32
  {
  }

  lemma WordBit(h: nat, perm: nat, memtype: nat, large: bool, k: nat)
    ensures var big := if large then 0x80 else 0;
            Bit(LeafWord(h, perm, memtype, large), k) <==> Bit(h, k) || Bit(perm, k) || Bit(big, k) || Bit(8 * memtype, k)
  {
    hide Or, Shl, Bit, Pow2;
    var big := if large then 0x80 else 0;
    Powers();
    ShlMul(memtype, 3);
    OrBit(h, perm, k);
    OrBit(Or(h, perm), big, k);
    OrBit(Or(Or(h, perm), big), Shl(memtype, 3), k);
  }

  lemma Octal(w: nat, v: nat)
    requires v < 8 && (w % 2 == 1 <==> v % 2 == 1) && (w / 2 % 2 == 1 <==> v / 2 % 2 == 1) && (w / 4 % 2 == 1 <==> v / 4 % 2 == 1)
    ensures w % 8 == v
  {
  }

  lemma SmallFields(f: nat)
    requires f < 4096
    ensures AddrOf(f) == 0 && (Present(f) <==> f % 2 == 1) && (Large(f) <==> (f / 128) % 2 == 1)
  {
    FlagsHaveNoAddress(f);
    AndOne(f);
    LargeIs(f);
  }

  /** An aligned base or-ed with the offset within the page is their sum. */
  lemma OffsetSmall(h: nat, x: nat)
    requires h % PAGE == 0
    ensures Or(h, And(x, PAGE - 1)) == h + x % PAGE
  {
    hide And, Or, Shl, Pow2, LinksOk;
    var q := h / PAGE;
    Powers();
    ShlMul(q, 12);
    Mask12(x);
    OrDisjoint(q, x % PAGE, 12);
  }

  lemma OffsetLarge(h: nat, x: nat)
    requires h % MB2 == 0
    ensures Or(h, And(x, MB2 - 1)) == h + x % MB2
  {
    hide And, Or, Shl, Pow2, LinksOk;
    var q := h / MB2;
    Powers();
    ShlMul(q, 21);
    AndLow(x, 21);
    Shift21(x);
    OrDisjoint(q, x % MB2, 21);
  }

  lemma OffsetHuge(h: nat, x: nat)
    requires h % GB1 == 0
    ensures Or(h, And(x, GB1 - 1)) == h + x % GB1
  {
    hide And, Or, Shl, Pow2;
    var q := h / GB1;
    Powers();
    ShlMul(q, 30);
    AndLow(x, 30);
    Shift30(x);
    OrDisjoint(q, x % GB1, 30);
  }

  /** A page of any size translates by the offset within it. */
  lemma OffsetRule(level: nat, w: nat, x: nat)
    requires 1 <= level <= 3
    ensures var n := if level == 3 then GB1 else if level == 2 then MB2 else PAGE;
            AddrOf(w) % n == 0 ==> HostPhys(Mapped(level, w), x) == AddrOf(w) + x % n
  {
    hide And, Or, AddrOf;
    if level == 3 && AddrOf(w) % GB1 == 0 {
      OffsetHuge(AddrOf(w), x);
    } else if level == 2 && AddrOf(w) % MB2 == 0 {
      OffsetLarge(AddrOf(w), x);
    } else if level == 1 && AddrOf(w) % PAGE == 0 {
      OffsetSmall(AddrOf(w), x);
    }
  }

  // ---- the walk ----------------------------------------------------------------------

  /** No page larger than 4 KB, or than 2 MB, is in the way at x. */
  ghost predicate NoLarge(leaf: Leaf) { leaf.Unmapped? || leaf.level <= 1 }
  ghost predicate NoHuge(leaf: Leaf) { leaf.Unmapped? || leaf.level <= 2 }

  /** ept_walk. Absent means an entry is missing and, with `create`, no page is left. */
  method WalkTo(ept: Space, x: nat, create: bool) returns (r: Found)
    requires ept.Valid() && ept.links == RWX
    modifies if create then {ept} else {}
    ensures ept.Valid()
    ensures forall y :: ept.Look(y, false) == old(ept.Look(y, false))
    ensures r.At? ==>
              && ept.Holds(r.table, r.level, x) && r.index == Index(x, r.level) < ENTRIES
              && r.table in ept.tables && |ept.tables[r.table]| == ENTRIES
              && (r.level == 1 || BigLeaf(ept.tables[r.table][r.index], r.level, false))
              && ept.Look(x, false) == LeafAt(ept.tables[r.table][r.index], r.level)
    ensures r.Absent? ==> ept.Look(x, false) == Unmapped && (create ==> ept.pool == [])
  {
    hide Index, AddrOf, Large, EntryAt, Lookup, EntryOk, TreeOk, LinksOk;
    RwxFlags();
    RootHolds(ept, x);
    var pdpt := ept.Descend(ept.root, 4, x, create, RWX, false);
    if pdpt == 0 {
      NothingBelow(ept, ept.root, 4, x);
      return Absent;
    }
    ept.HoldsFacts(pdpt, 3, x);
    ept.EntryIs(pdpt, Index(x, 3));
    LookupStep(ept.tables, pdpt, 3, x, false);
    if Large(ept.tables[pdpt][Index(x, 3)]) {
      return At(pdpt, Index(x, 3), 3);
    }
    var pd := ept.Descend(pdpt, 3, x, create, RWX, false);
    if pd == 0 {
      NothingBelow(ept, pdpt, 3, x);
      return Absent;
    }
    ept.HoldsFacts(pd, 2, x);
    ept.EntryIs(pd, Index(x, 2));
    LookupStep(ept.tables, pd, 2, x, false);
    if Large(ept.tables[pd][Index(x, 2)]) {
      return At(pd, Index(x, 2), 2);
    }
    var pt := ept.Descend(pd, 2, x, create, RWX, false);
    if pt == 0 {
      NothingBelow(ept, pd, 2, x);
      return Absent;
    }
    ept.HoldsFacts(pt, 1, x);
    ept.EntryIs(pt, Index(x, 1));
    LookupStep(ept.tables, pt, 1, x, false);
    return At(pt, Index(x, 1), 1);
  }

  lemma RwxFlags()
    ensures Present(RWX) && !Large(RWX)
  {
    SmallFields(RWX);
  }

  lemma RootHolds(ept: Space, x: nat)
    requires ept.Valid() && ept.links == RWX
    ensures ept.Holds(ept.root, 4, x)
  {
  }

  lemma NothingBelow(ept: Space, t: nat, level: nat, x: nat)
    requires ept.Valid() && ept.links == RWX && ept.Holds(t, level, x) && level >= 2
    requires !Present(EntryAt(ept.tables, t, Index(x, level))) && !BigLeaf(EntryAt(ept.tables, t, Index(x, level)), level, false)
    ensures ept.Look(x, false) == Unmapped
  {
    hide Index, Present, EntryAt, Lookup, LinksOk;
    ept.HoldsFacts(t, level, x);
    LookupStep(ept.tables, t, level, x, false);
  }

  method GetHostPhys(ept: Space, x: nat) returns (addr: nat)
    requires ept.Valid() && ept.links == RWX
    ensures addr == Translate(ept, x)
  {
    hide AddrOf, And, Or, Large, Index, Lookup, LinksOk;
    var r := WalkTo(ept, x, false);
    if r.Absent? || !Present(ept.tables[r.table][r.index]) {
      return 0;
    }
    var base := AddrOf(ept.tables[r.table][r.index]);
    addr := if r.level == 3 then Or(base, And(x, GB1 - 1))
            else if r.level == 2 then Or(base, And(x, MB2 - 1))
            else Or(base, And(x, PAGE - 1));
  }

  // ---- permissions ---------------------------------------------------------------------------

  /** The leaf is mapped with this permission and memory type. */
  ghost predicate Carries(leaf: Leaf, perm: nat, memtype: nat) {
    leaf.Mapped? && leaf.word % 8 == perm && leaf.word / 8 % 8 == memtype
  }

  predicate Reads(e: nat) { e % 2 == 1 }
  predicate Writes(e: nat) { e / 2 % 2 == 1 }
  predicate Executes(e: nat) { e / 4 % 2 == 1 }

  ghost predicate Granted(ept: Space, x: nat, P: nat -> bool)
    reads ept
  {
    Every(ept.tables, ept.root, 4, x, false, P)
  }

  /** The permission the guest has at x: what every entry on the walk grants. */
  ghost function Allows(ept: Space, x: nat): nat
    reads ept
  {
    (if Granted(ept, x, Reads) then 1 else 0) + (if Granted(ept, x, Writes) then 2 else 0) + (if Granted(ept, x, Executes) then 4 else 0)
  }

  /** The tables on the way grant everything, so that is the permission of the leaf. */
  lemma EffectiveRights(ept: Space, x: nat)
    requires ept.Valid() && ept.links == RWX && ept.Look(x, false).Mapped?
    ensures Allows(ept, x) == ept.Look(x, false).word % 8
  {
    hide Lookup, TreeOk, LinksOk, PoolOk, Every;
    LinksGrant();
    RootHolds(ept, x);
    EveryIs(ept.tables, ept.tab, x, 4, false, RWX, Reads, true);
    EveryIs(ept.tables, ept.tab, x, 4, false, RWX, Writes, true);
    EveryIs(ept.tables, ept.tab, x, 4, false, RWX, Executes, true);
    ThreeBits(ept.Look(x, false).word);
  }

  lemma LinksGrant()
    ensures forall e :: LinkWord(e, RWX) ==> Reads(e) && Writes(e) && Executes(e)
  {
    forall e | LinkWord(e, RWX) ensures Reads(e) && Writes(e) && Executes(e) {
      var q := e / 4096;
      assert e == 4096 * q + 7;
    }
  }

  lemma ThreeBits(w: nat)
    ensures w % 8 == (if w % 2 == 1 then 1 else 0) + (if w / 2 % 2 == 1 then 2 else 0) + (if w / 4 % 2 == 1 then 4 else 0)
  {
  }

  // ---- mapping one page -----------------------------------------------------------------

  /** ept_map_page where no larger page is in the way: every address in the 4 KB page of g
      gets the new leaf, every other address keeps its own. */
  method MapPage(ept: Space, g: nat, h: nat, perm: nat, memtype: nat) returns (ok: bool)
    requires ept.Valid() && ept.links == RWX && FlagsOk(perm, memtype) && NoLarge(ept.Look(g, false))
    modifies ept
    ensures ept.Valid()
    ensures !ok ==> ept.pool == [] && forall y :: ept.Look(y, false) == old(ept.Look(y, false))
    ensures ok ==> forall y :: ept.Look(y, false) ==
                     if Place(y, 0) == Place(g, 0) then LeafAt(LeafWord(h - h % PAGE, perm, memtype, false), 1)
                     else old(ept.Look(y, false))
    ensures ok && perm % 2 == 1 ==> forall y :: Place(y, 0) == Place(g, 0) ==>
              Carries(ept.Look(y, false), perm, memtype) && Allows(ept, y) == perm
  {
    hide Index, AddrOf, Large, Lookup, BigLeaf, TreeOk, LeafWord, LinksOk;
    var guest, host := g - g % PAGE, h - h % PAGE;
    PageStart(g);
    assert ept.Look(guest, false) == ept.Look(g, false) by { SameLook(ept, guest, g); }
    var r := WalkTo(ept, guest, true);
    if r.Absent? {
      return false;
    }
    ept.WriteLeaf(r.table, r.level, guest, LeafWord(host, perm, memtype, false), false);
    LeafGrants(host, perm, memtype, false);
    forall y | perm % 2 == 1 && Place(y, 0) == Place(g, 0) ensures Carries(ept.Look(y, false), perm, memtype) && Allows(ept, y) == perm {
      EffectiveRights(ept, y);
    }
    return true;
  }

  lemma LeafGrants(h: nat, perm: nat, memtype: nat, large: bool)
    requires h % PAGE == 0 && FlagsOk(perm, memtype)
    ensures perm % 2 == 1 ==> Carries(LeafAt(LeafWord(h, perm, memtype, large), if large then 2 else 1), perm, memtype)
  {
    hide LeafWord, And, Or;
    var w := LeafWord(h, perm, memtype, large);
    WordBits(h, perm, memtype, large);
    AndOne(w);
    OddOctal(w);
  }

  lemma OddOctal(w: nat)
    ensures w % 8 % 2 == w % 2
  {
  }

  lemma PageStart(g: nat)
    ensures Place(g - g % PAGE, 0) == Place(g, 0)
  {
    hide Index, LinksOk;
    PlaceIs(g);
    PlaceIs(g - g % PAGE);
  }

  /** Addresses of one page are looked up alike. */
  lemma SameLook(ept: Space, x: nat, y: nat)
    requires ept.Valid() && ept.links == RWX && Place(x, 0) == Place(y, 0)
    ensures ept.Look(x, false) == ept.Look(y, false)
  {
    SameWalk(ept.tables, ept.root, 4, x, y, false);
  }

  /** Why: a 4 KB leaf written over a larger one, at level 2 or 3, is from then on a pointer to
      a table at the mapped page exactly when it grants read permission, and maps nothing
      otherwise. */
  lemma SmallLeafOverLarge(h: nat, perm: nat, memtype: nat, level: nat)
    requires h % PAGE == 0 && h < 0x10_0000_0000_0000 && FlagsOk(perm, memtype) && 2 <= level <= 3
    ensures var w := LeafWord(h, perm, memtype, false);
            (Pointer(w, level) <==> perm % 2 == 1) && AddrOf(w) == h && !BigLeaf(w, level, false)
  {
    hide LeafWord, AddrOf, Present, Large, LinksOk;
    LeafWordFields(h, perm, memtype, false);
  }

  /** ept_map_page_2m where no 1 GB page is in the way: the same for a 2 MB region, whatever
      4 KB pages it held before. */
  method MapPage2M(ept: Space, g: nat, h: nat, perm: nat, memtype: nat) returns (ok: bool)
    requires ept.Valid() && ept.links == RWX && FlagsOk(perm, memtype) && h < 0x10_0000_0000_0000
    requires NoHuge(ept.Look(g - g % MB2, false))
    modifies ept
    ensures ept.Valid()
    ensures !ok ==> ept.pool == [] && forall y :: ept.Look(y, false) == old(ept.Look(y, false))
    ensures ok ==> forall y :: ept.Look(y, false) ==
                     if Place(y, 1) == Place(g, 1) then LeafAt(LeafWord(h - h % MB2, perm, memtype, true), 2)
                     else old(ept.Look(y, false))
    ensures ok && perm % 2 == 1 ==> forall y :: Place(y, 1) == Place(g, 1) ==>
              Carries(ept.Look(y, false), perm, memtype) && Allows(ept, y) == perm
  {
    hide Index, AddrOf, Large, Lookup, TreeOk, LeafWord, EntryAt, LinksOk;
    var guest, host := g - g % MB2, h - h % MB2;
    RegionStart(g);
    LeafWordFields(host, perm, memtype, true);
    RwxFlags();
    RootHolds(ept, guest);
    var pdpt := ept.Descend(ept.root, 4, guest, true, RWX, false);
    if pdpt == 0 {
      return false;
    }
    NotHuge(ept, pdpt, guest);
    var pd := ept.Descend(pdpt, 3, guest, true, RWX, false);
    if pd == 0 {
      return false;
    }
    ept.WriteLeaf(pd, 2, guest, LeafWord(host, perm, memtype, true), false);
    LeafGrants(host, perm, memtype, true);
    forall y | perm % 2 == 1 && Place(y, 1) == Place(g, 1) ensures Carries(ept.Look(y, false), perm, memtype) && Allows(ept, y) == perm {
      EffectiveRights(ept, y);
    }
    return true;
  }

  lemma RegionStart(g: nat)
    ensures Place(g - g % MB2, 1) == Place(g, 1)
  {
    hide Index, LinksOk;
    PlaceIs(g);
    PlaceIs(g - g % MB2);
  }

  lemma NotHuge(ept: Space, pdpt: nat, x: nat)
    requires ept.Valid() && ept.links == RWX && ept.Holds(pdpt, 3, x) && NoHuge(ept.Look(x, false))
    ensures !Large(EntryAt(ept.tables, pdpt, Index(x, 3)))
  {
    hide Index, EntryAt, Lookup, Large, LinksOk;
    ept.HoldsFacts(pdpt, 3, x);
    LookupStep(ept.tables, pdpt, 3, x, false);
  }

  /** ept_unmap_page: clears the leaf that maps g, of whatever size; fails exactly when
      there is none. */
  method UnmapPage(ept: Space, g: nat) returns (ok: bool)
    requires ept.Valid() && ept.links == RWX
    modifies ept
    ensures ept.Valid()
    ensures ok <==> old(ept.Look(g, false)).Mapped?
    ensures forall y :: ept.Look(y, false) ==
              if ok && Place(y, old(ept.Look(g, false)).level - 1) == Place(g, old(ept.Look(g, false)).level - 1)
              then Unmapped else old(ept.Look(y, false))
  {
    hide Index, AddrOf, Lookup, TreeOk, LinksOk;
    var r := WalkTo(ept, g, false);
    if r.At? && Present(ept.tables[r.table][r.index]) {
      if r.level >= 3 {
        NothingUnderLeaf(ept, r.table, r.level, g);
      }
      ZeroAbsent();
      ept.WriteLeaf(r.table, r.level, g, 0, false);
      return true;
    }
    return false;
  }

  lemma NothingUnderLeaf(ept: Space, t: nat, level: nat, x: nat)
    requires ept.Valid() && ept.links == RWX && ept.Holds(t, level, x) && level >= 2
    requires t in ept.tables && Index(x, level) < |ept.tables[t]| && BigLeaf(ept.tables[t][Index(x, level)], level, false)
    ensures Slot(level - 1, Place(x, level - 1)) !in ept.tab
  {
    hide Index, Lookup, Large, Present, LinksOk;
    ept.HoldsFacts(t, level, x);
  }

  // ---- mapping a range --------------------------------------------------------------------

  /** Walks use the low 48 bits of an address only. */
  ghost predicate InRange(x: nat, g: nat, n: nat) {
    g <= x % SPAN < g + n
  }

  lemma PageIsRange(y: nat, g: nat)
    requires g % PAGE == 0 && g < SPAN
    ensures Place(y, 0) == Place(g, 0) <==> InRange(y, g, PAGE)
  {
    hide Index, LinksOk;
    PlaceIs(y);
    PlaceIs(g);
    LowPage(y);
    LowPage(g);
  }

  lemma LowPage(x: nat)
    ensures (x / 0x1000) % 0x10_0000_0000 == (x % SPAN) / PAGE
  {
    var k := x / SPAN;
    assert x == SPAN * k + x % SPAN;
    assert x / 0x1000 == 0x10_0000_0000 * k + (x % SPAN) / PAGE;
  }

  lemma RegionIsRange(y: nat, g: nat)
    requires g % MB2 == 0 && g < SPAN
    ensures Place(y, 1) == Place(g, 1) <==> InRange(y, g, MB2)
  {
    hide Index, LinksOk;
    PlaceIs(y);
    PlaceIs(g);
    LowRegion(y);
    LowRegion(g);
  }

  lemma LowRegion(x: nat)
    ensures (x / 0x20_0000) % 0x800_0000 == (x % SPAN) / MB2
  {
    var k := x / SPAN;
    assert x == SPAN * k + x % SPAN;
    assert x / 0x20_0000 == 0x800_0000 * k + (x % SPAN) / MB2;
  }

  /** What x translates to when the range from g is mapped to the range from h. */
  ghost function Target(x: nat, g: nat, h: nat, perm: nat): int {
    if perm % 2 == 1 then h + (x % SPAN - g) else 0
  }

  /** The leaf for x translates it as asked and, where it grants read permission, carries this
      permission and memory type. */
  ghost predicate LeafTo(leaf: Leaf, x: nat, g: nat, h: nat, perm: nat, memtype: nat) {
    && HostPhys(leaf, x) == Target(x, g, h, perm)
    && (perm % 2 == 1 ==> Carries(leaf, perm, memtype))
  }

  lemma SmallTarget(y: nat, g: nat, h: nat, perm: nat, memtype: nat)
    requires g % PAGE == 0 && h % PAGE == 0 && h < 0x10_0000_0000_0000 && FlagsOk(perm, memtype) && InRange(y, g, PAGE)
    ensures LeafTo(LeafAt(LeafWord(h, perm, memtype, false), 1), y, g, h, perm, memtype)
  {
    hide LeafWord, AddrOf, And, Or, Present, LinksOk;
    LeafWordFields(h, perm, memtype, false);
    OffsetSmall(h, y);
    OffsetIn(y, g, PAGE);
  }

  lemma LargeTarget(y: nat, g: nat, h: nat, perm: nat, memtype: nat)
    requires g % MB2 == 0 && h % MB2 == 0 && h < 0x10_0000_0000_0000 && FlagsOk(perm, memtype) && InRange(y, g, MB2)
    ensures LeafTo(LeafAt(LeafWord(h, perm, memtype, true), 2), y, g, h, perm, memtype)
  {
    hide LeafWord, AddrOf, And, Or, Present, LinksOk;
    LeafWordFields(h, perm, memtype, true);
    OffsetLarge(h, y);
    OffsetIn(y, g, MB2);
  }

  lemma OffsetIn(y: nat, g: nat, n: nat)
    requires (n == PAGE || n == MB2) && g % n == 0 && InRange(y, g, n)
    ensures y % n == y % SPAN - g
  {
    LowPart(y);
    if n == PAGE {
      SmallRemainder(y % SPAN, g);
    } else {
      LargeRemainder(y % SPAN, g);
    }
  }

  lemma LowPart(y: nat)
    ensures y % PAGE == y % SPAN % PAGE && y % MB2 == y % SPAN % MB2
  {
    var k, low := y / SPAN, y % SPAN;
    assert y == SPAN * k + low;
    SmallRemainder(y, PAGE * (0x10_0000_0000 * k + low / PAGE));
    LargeRemainder(y, MB2 * (0x800_0000 * k + low / MB2));
  }

  lemma SmallRemainder(x: nat, g: nat)
    requires g % PAGE == 0 && g <= x < g + PAGE
    ensures x % PAGE == x - g
  {
  }

  lemma LargeRemainder(x: nat, g: nat)
    requires g % MB2 == 0 && g <= x < g + MB2
    ensures x % MB2 == x - g
  {
  }

  /** The bytes at the front of a range that are mapped with 2 MB pages. */
  ghost function BigPart(g: nat, h: nat, size: nat): nat {
    if g % MB2 == 0 && h % MB2 == 0 then size / MB2 * MB2 else 0
  }

  /** ept_map_range on page-aligned addresses. `done` is the part that was mapped: all whole
      pages on success, what was reached before memory ran out on failure. Every address in
      it translates to its target, whatever mix of leaves was used, and every address
      outside keeps what the tables said of it. */
  method MapRange(ept: Space, g: nat, h: nat, size: nat, perm: nat, memtype: nat) returns (ok: bool, ghost done: nat)
    requires ept.Valid() && ept.links == RWX && FlagsOk(perm, memtype)
    requires g % PAGE == 0 && h % PAGE == 0 && g + size <= SPAN && h + size <= 0x10_0000_0000_0000
    requires forall x: nat :: InRange(x, g, size) ==> NoHuge(ept.Look(x, false))
    requires forall x: nat :: InRange(x, g + BigPart(g, h, size), size - BigPart(g, h, size)) ==> NoLarge(ept.Look(x, false))
    modifies ept
    ensures ept.Valid()
    ensures done <= size && (ok ==> done == size - size % PAGE)
    ensures !ok <==> size == 0 || done < size - size % PAGE
    ensures !ok ==> size == 0 || ept.pool == []
    ensures forall x: nat :: InRange(x, g, done) ==> Translate(ept, x) == Target(x, g, h, perm)
    ensures forall x: nat :: InRange(x, g, done) && perm % 2 == 1 ==> Carries(ept.Look(x, false), perm, memtype) && Allows(ept, x) == perm
    ensures forall x: nat :: !InRange(x, g, done) ==> ept.Look(x, false) == old(ept.Look(x, false))
  {
    hide HostPhys, Target, BigPart, InRange, LeafTo, Carries, Allows, Lookup, TreeOk, PoolOk, LinksOk;
    ok, done := false, 0;
    if size == 0 {
      NothingInRange(g);
      return;
    }
    BigPartIs(g, h, size);
    var guest, host, left;
    ok, guest, host, left := MapLargePart(ept, g, h, size, perm, memtype);
    done := size - left;
    RangeGranted(ept, g, h, done, perm, memtype);
    if !ok {
      return;
    }
    PartArith(g, h, size, done);
    forall x: nat | InRange(x, guest, left) ensures NoLarge(ept.Look(x, false)) {
      RangeSplit(x, g, done, left);
    }
    label Large:
    ok, left := MapSmallPart(ept, guest, host, left, perm, memtype);
    forall x: nat | InRange(x, g, size - left) ensures LeafTo(ept.Look(x, false), x, g, h, perm, memtype) {
      RangeSplit(x, g, done, size - left - done);
      TargetShift(ept.Look(x, false), x, g, h, perm, memtype, done);
      if !InRange(x, guest, size - left - done) {
        assert ept.Look(x, false) == old@Large(ept.Look(x, false));
      }
    }
    forall x: nat | !InRange(x, g, size - left) ensures ept.Look(x, false) == old(ept.Look(x, false)) {
      RangeSplit(x, g, done, size - left - done);
      assert ept.Look(x, false) == old@Large(ept.Look(x, false));
    }
    done := size - left;
    assert size % PAGE < PAGE;
    RangeGranted(ept, g, h, done, perm, memtype);
  }

  /** What the leaves say is what the guest gets. */
  lemma RangeGranted(ept: Space, g: nat, h: nat, n: nat, perm: nat, memtype: nat)
    requires ept.Valid() && ept.links == RWX && FlagsOk(perm, memtype)
    requires forall x: nat :: InRange(x, g, n) ==> LeafTo(ept.Look(x, false), x, g, h, perm, memtype)
    ensures forall x: nat :: InRange(x, g, n) ==> Translate(ept, x) == Target(x, g, h, perm)
    ensures forall x: nat :: InRange(x, g, n) && perm % 2 == 1 ==> Carries(ept.Look(x, false), perm, memtype) && Allows(ept, x) == perm
  {
    hide Target, InRange, HostPhys, Lookup, TreeOk, LinksOk, PoolOk, Allows;
    forall x: nat | InRange(x, g, n) && perm % 2 == 1 ensures Carries(ept.Look(x, false), perm, memtype) && Allows(ept, x) == perm {
      EffectiveRights(ept, x);
    }
  }

  lemma PartArith(g: nat, h: nat, size: nat, d: nat)
    requires g % PAGE == 0 && h % PAGE == 0 && d <= size && d % MB2 == 0
    ensures (g + d) % PAGE == 0 && (h + d) % PAGE == 0 && (size - d) % PAGE == size % PAGE
  {
    var k := 512 * (d / MB2);
    assert d == PAGE * k;
    WholePages(g / PAGE + k);
    WholePages(h / PAGE + k);
    WholePages(size / PAGE - k);
    SmallRemainder(size - d, PAGE * (size / PAGE - k));
  }

  lemma WholePages(n: nat)
    ensures PAGE * n % PAGE == 0
  {
  }

  lemma NothingInRange(g: nat)
    ensures forall x: nat :: !InRange(x, g, 0)
  {
  }

  lemma RangeSplit(x: nat, g: nat, a: nat, b: nat)
    ensures InRange(x, g, a + b) <==> InRange(x, g, a) || InRange(x, g + a, b)
    ensures !(InRange(x, g, a) && InRange(x, g + a, b))
  {
  }

  lemma TargetShift(leaf: Leaf, x: nat, g: nat, h: nat, perm: nat, memtype: nat, d: nat)
    ensures LeafTo(leaf, x, g + d, h + d, perm, memtype) <==> LeafTo(leaf, x, g, h, perm, memtype)
  {
  }

  /** The 2 MB loop of ept_map_range. */
  method MapLargePart(ept: Space, g: nat, h: nat, size: nat, perm: nat, memtype: nat)
    returns (ok: bool, guest: nat, host: nat, left: nat)
    requires ept.Valid() && ept.links == RWX && FlagsOk(perm, memtype)
    requires g % PAGE == 0 && h % PAGE == 0 && g + size <= SPAN && h + size <= 0x10_0000_0000_0000
    requires forall x: nat :: InRange(x, g, size) ==> NoHuge(ept.Look(x, false))
    modifies ept
    ensures ept.Valid() && left <= size && guest == g + (size - left) && host == h + (size - left)
    ensures ok ==> size - left == BigPart(g, h, size)
    ensures !ok ==> ept.pool == [] && size - left < BigPart(g, h, size)
    ensures forall x: nat :: InRange(x, g, size - left) ==> LeafTo(ept.Look(x, false), x, g, h, perm, memtype)
    ensures forall x: nat :: !InRange(x, g, size - left) ==> ept.Look(x, false) == old(ept.Look(x, false))
  {
    hide BigPart, HostPhys, Target, FlagsOk, LeafTo, Carries, Lookup, TreeOk, PoolOk, LinksOk;
    guest, host, left := g, h, size;
    BigLoop(g, h, size, left);
    while left >= MB2 && guest % MB2 == 0 && host % MB2 == 0
      invariant ept.Valid() && left <= size && (size - left) % MB2 == 0 && size - left <= BigPart(g, h, size)
      invariant guest == g + (size - left) && host == h + (size - left)
      invariant forall x: nat :: InRange(x, g, size - left) ==> LeafTo(ept.Look(x, false), x, g, h, perm, memtype)
      invariant forall x: nat :: !InRange(x, g, size - left) ==> ept.Look(x, false) == old(ept.Look(x, false))
    {
      BigLoop(g, h, size, left);
      assert InRange(guest, g, size) && !InRange(guest, g, size - left);
      ok := Map2MStep(ept, guest, host, perm, memtype, g, h, size - left);
      if !ok {
        return;
      }
      guest, host, left := guest + MB2, host + MB2, left - MB2;
    }
    BigLoop(g, h, size, left);
    ok := true;
  }

  /** The 2 MB loop covers exactly the big part. */
  lemma BigLoop(g: nat, h: nat, size: nat, left: nat)
    requires left <= size && (size - left) % MB2 == 0
    ensures size == left ==> 0 <= BigPart(g, h, size)
    ensures left >= MB2 && (g + (size - left)) % MB2 == 0 && (h + (size - left)) % MB2 == 0 ==> size - left + MB2 <= BigPart(g, h, size)
    ensures size - left <= BigPart(g, h, size) && !(left >= MB2 && (g + (size - left)) % MB2 == 0 && (h + (size - left)) % MB2 == 0) ==>
              size - left == BigPart(g, h, size)
  {
    var d := size - left;
    assert d == MB2 * (d / MB2);
    assert (g + d) % MB2 == g % MB2 && (h + d) % MB2 == h % MB2;
  }

  /** The 4 KB loop of ept_map_range. */
  method MapSmallPart(ept: Space, g: nat, h: nat, size: nat, perm: nat, memtype: nat) returns (ok: bool, left: nat)
    requires ept.Valid() && ept.links == RWX && FlagsOk(perm, memtype)
    requires g % PAGE == 0 && h % PAGE == 0 && g + size <= SPAN && h + size <= 0x10_0000_0000_0000
    requires forall x: nat :: InRange(x, g, size) ==> NoLarge(ept.Look(x, false))
    modifies ept
    ensures ept.Valid() && left <= size
    ensures ok ==> left == size % PAGE
    ensures !ok ==> ept.pool == [] && left >= PAGE
    ensures forall x: nat :: InRange(x, g, size - left) ==> LeafTo(ept.Look(x, false), x, g, h, perm, memtype)
    ensures forall x: nat :: !InRange(x, g, size - left) ==> ept.Look(x, false) == old(ept.Look(x, false))
  {
    hide HostPhys, Target, FlagsOk, LeafTo, Carries, Lookup, TreeOk, PoolOk, LinksOk;
    var guest, host := g, h;
    left := size;
    while left >= PAGE
      invariant ept.Valid() && left <= size && (size - left) % PAGE == 0
      invariant guest == g + (size - left) && host == h + (size - left)
      invariant forall x: nat :: InRange(x, g, size - left) ==> LeafTo(ept.Look(x, false), x, g, h, perm, memtype)
      invariant forall x: nat :: !InRange(x, g, size - left) ==> ept.Look(x, false) == old(ept.Look(x, false))
    {
      assert InRange(guest, g, size) && !InRange(guest, g, size - left);
      ok := MapStep(ept, guest, host, perm, memtype, g, h, size - left);
      if !ok {
        return;
      }
      guest, host, left := guest + PAGE, host + PAGE, left - PAGE;
    }
    ok := true;
  }

  lemma BigPartIs(g: nat, h: nat, size: nat)
    ensures BigPart(g, h, size) <= size - size % PAGE && BigPart(g, h, size) % MB2 == 0
    ensures g % MB2 == 0 && h % MB2 == 0 ==> size - BigPart(g, h, size) < MB2
    ensures g % MB2 != 0 || h % MB2 != 0 ==> BigPart(g, h, size) == 0
  {
    WholePart(size);
  }

  lemma WholePart(size: nat)
    ensures size / MB2 * MB2 <= size - size % PAGE && (size / MB2 * MB2) % MB2 == 0
  {
    var k, low := size / MB2, size % MB2;
    SmallRemainder(size, PAGE * (512 * k + low / PAGE));
  }

  /** One turn of the 2 MB loop, in terms of the whole range. */
  method Map2MStep(ept: Space, guest: nat, host: nat, perm: nat, memtype: nat, ghost g: nat, ghost h: nat, ghost done: nat)
    returns (ok: bool)
    requires ept.Valid() && ept.links == RWX && FlagsOk(perm, memtype) && NoHuge(ept.Look(guest, false))
    requires guest % MB2 == 0 && host % MB2 == 0 && guest < SPAN && host < 0x10_0000_0000_0000
    requires guest == g + done && host == h + done
    modifies ept
    ensures ept.Valid()
    ensures !ok ==> ept.pool == [] && forall x: nat :: ept.Look(x, false) == old(ept.Look(x, false))
    ensures ok ==> forall x: nat :: InRange(x, guest, MB2) ==> LeafTo(ept.Look(x, false), x, g, h, perm, memtype)
    ensures ok ==> forall x: nat :: !InRange(x, guest, MB2) ==> ept.Look(x, false) == old(ept.Look(x, false))
  {
    hide HostPhys, LeafWord, Lookup, LeafAt, LinksOk;
    ok := MapPage2M(ept, guest, host, perm, memtype);
    forall x: nat ensures Place(x, 1) == Place(guest, 1) <==> InRange(x, guest, MB2) {
      RegionIsRange(x, guest);
    }
    forall x: nat | ok && InRange(x, guest, MB2) ensures LeafTo(ept.Look(x, false), x, g, h, perm, memtype) {
      LargeTarget(x, guest, host, perm, memtype);
    }
  }

  /** One turn of the 4 KB loop, in terms of the whole range. */
  method MapStep(ept: Space, guest: nat, host: nat, perm: nat, memtype: nat, ghost g: nat, ghost h: nat, ghost done: nat)
    returns (ok: bool)
    requires ept.Valid() && ept.links == RWX && FlagsOk(perm, memtype) && NoLarge(ept.Look(guest, false))
    requires guest % PAGE == 0 && host % PAGE == 0 && guest < SPAN && host < 0x10_0000_0000_0000
    requires guest == g + done && host == h + done
    modifies ept
    ensures ept.Valid()
    ensures !ok ==> ept.pool == [] && forall x: nat :: ept.Look(x, false) == old(ept.Look(x, false))
    ensures ok ==> forall x: nat :: InRange(x, guest, PAGE) ==> LeafTo(ept.Look(x, false), x, g, h, perm, memtype)
    ensures ok ==> forall x: nat :: !InRange(x, guest, PAGE) ==> ept.Look(x, false) == old(ept.Look(x, false))
  {
    hide HostPhys, LeafWord, Lookup, LeafAt, LinksOk;
    ok := MapPage(ept, guest, host, perm, memtype);
    forall x: nat ensures Place(x, 0) == Place(guest, 0) <==> InRange(x, guest, PAGE) {
      PageIsRange(x, guest);
    }
    forall x: nat | ok && InRange(x, guest, PAGE) ensures LeafTo(ept.Look(x, false), x, g, h, perm, memtype) {
      SmallTarget(x, guest, host, perm, memtype);
    }
  }
}
