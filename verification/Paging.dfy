/** The paging contexts of src/mm/paging.c, given 4 KB mappings in the lower half: lookups
    agree with the mapped ranges, and destroying a context frees exactly the pages that were
    taken for its tables, each once. */
module Paging {
  import opened Bits
  import opened PageTables
  import opened Links
  import opened TableSpace

  const PAGE: nat := 0x1000
  const HALF: nat := 0x8000_0000_0000
  const TABLE_FLAGS: nat := 3

  // ---- flags ---------------------------------------------------------------------------

  /** MAP_USER, MAP_WRITE, MAP_EXEC and MAP_NOCACHE. */
  datatype MapFlags = MapFlags(user: bool, write: bool, exec: bool, nocache: bool)

  /** flags_to_pte: present, writable, user, cache-disable, and bit 63 for no-execute. */
  function FlagsToPte(f: MapFlags): nat {
    Or(Or(Or(Or(1, if f.write then 2 else 0), if f.user then 4 else 0),
          if f.exec then 0 else 0x8000_0000_0000_0000), if f.nocache then 16 else 0)
  }

  lemma PteFlagFields(f: MapFlags)
    ensures AddrOf(FlagsToPte(f)) == 0 && Present(FlagsToPte(f)) && !Large(FlagsToPte(f))
    ensures HasFlags(FlagsToPte(f), f)
  {
    hide And, Or, AddrOf, Present, Large, LinksOk;
    OneBit(1);
    OneBit(if f.write then 2 else 0);
    OneBit(if f.user then 4 else 0);
    OneBit(if f.exec then 0 else 0x8000_0000_0000_0000);
    OneBit(if f.nocache then 16 else 0);
    var a := Or(1, if f.write then 2 else 0);
    var b := Or(a, if f.user then 4 else 0);
    var c := Or(b, if f.exec then 0 else 0x8000_0000_0000_0000);
    OrFields(1, if f.write then 2 else 0);
    OrFields(a, if f.user then 4 else 0);
    OrFields(b, if f.exec then 0 else 0x8000_0000_0000_0000);
    OrFields(c, if f.nocache then 16 else 0);
    FlagBits(f);
  }

  /** Bit 1 for writing, bit 2 for user mode, bit 4 against caching, bit 63 against execution. */
  ghost predicate HasFlags(w: nat, f: MapFlags) {
    && w % 2 == 1
    && (w / 2 % 2 == 1 <==> f.write)
    && (w / 4 % 2 == 1 <==> f.user)
    && (w / 16 % 2 == 1 <==> f.nocache)
    && (w / 0x8000_0000_0000_0000 % 2 == 1 <==> !f.exec)
  }

  lemma FlagBits(f: MapFlags)
    ensures HasFlags(FlagsToPte(f), f)
  {
    hide Or, Bit;
    var write, user, noexec, nocache := if f.write then 2 else 0, if f.user then 4 else 0, if f.exec then 0 else 0x8000_0000_0000_0000, if f.nocache then 16 else 0;
    forall k: nat ensures Bit(FlagsToPte(f), k) <==> Bit(1, k) || Bit(write, k) || Bit(user, k) || Bit(noexec, k) || Bit(nocache, k) {
      OrBit(1, write, k);
      OrBit(Or(1, write), user, k);
      OrBit(Or(Or(1, write), user), noexec, k);
      OrBit(Or(Or(Or(1, write), user), noexec), nocache, k);
    }
    BitsAre(FlagsToPte(f));
    BitsAre(1);
    BitsAre(write);
    BitsAre(user);
    BitsAre(noexec);
    BitsAre(nocache);
  }

  /** A page-aligned address below 2^52 leaves the flags alone. */
  lemma PteBits(phys: nat, f: MapFlags)
    requires phys % PAGE == 0 && phys < 0x10_0000_0000_0000
    ensures HasFlags(Or(phys, FlagsToPte(f)), f)
  {
    hide Or, Bit, FlagsToPte;
    FlagBits(f);
    AlignedBits(phys);
    forall k: nat ensures Bit(Or(phys, FlagsToPte(f)), k) <==> Bit(phys, k) || Bit(FlagsToPte(f), k) {
      OrBit(phys, FlagsToPte(f), k);
    }
    BitsAre(phys);
    BitsAre(FlagsToPte(f));
    BitsAre(Or(phys, FlagsToPte(f)));
  }

  lemma OneBit(f: nat)
    requires f in {0, 1, 2, 4, 16, 0x8000_0000_0000_0000}
    ensures AddrOf(f) == 0 && !Large(f) && (Present(f) <==> f == 1)
  {
    hide And, AddrOf, Large, LinksOk;
    AddrOfIs(f);
    AndOne(f);
    LargeIs(f);
  }

  lemma TableFlagFields()
    ensures Present(TABLE_FLAGS) && !Large(TABLE_FLAGS)
  {
    AndOne(TABLE_FLAGS);
    LargeIs(TABLE_FLAGS);
  }

  // ---- what a mapping allows ---------------------------------------------------------------

  predicate Writes(e: nat) { e / 2 % 2 == 1 }
  predicate Users(e: nat) { e / 4 % 2 == 1 }
  predicate Executes(e: nat) { e / 0x8000_0000_0000_0000 % 2 == 0 }

  /** An access is possible if every entry on the walk allows it. */
  ghost predicate Allowed(ctx: Space, x: nat, P: nat -> bool)
    reads ctx
  {
    Every(ctx.tables, ctx.root, 4, x, true, P)
  }

  /** Writing and execution are as the leaf says. User mode has no access whatever the leaf says:
      get_pte marks the tables on the way as writable, but not for user mode. */
  lemma EffectiveAccess(ctx: Space, x: nat)
    requires ctx.Valid() && ctx.links == TABLE_FLAGS && ctx.Look(x, true).Mapped?
    ensures var w := ctx.Look(x, true).word;
            (Allowed(ctx, x, Writes) <==> Writes(w)) && (Allowed(ctx, x, Executes) <==> Executes(w)) && !Allowed(ctx, x, Users)
  {
    hide Lookup, TreeOk, LinksOk, PoolOk, Every;
    LinksAllow();
    RootHolds(ctx, x);
    EveryIs(ctx.tables, ctx.tab, x, 4, true, TABLE_FLAGS, Writes, true);
    EveryIs(ctx.tables, ctx.tab, x, 4, true, TABLE_FLAGS, Executes, true);
    EveryIs(ctx.tables, ctx.tab, x, 4, true, TABLE_FLAGS, Users, false);
  }

  lemma LinksAllow()
    ensures forall e :: LinkWord(e, TABLE_FLAGS) ==> Writes(e) && Executes(e) && !Users(e)
  {
    forall e | LinkWord(e, TABLE_FLAGS) ensures Writes(e) && Executes(e) && !Users(e) {
      var q := e / 4096;
      assert e == 4096 * q + 3;
    }
  }

  // ---- contexts --------------------------------------------------------------------------

  ghost predicate LowerHalf(x: nat) { x < HALF }

  /** The root and the tables of the lower half, which belong to this context alone. */
  ghost predicate Own(s: Slot) {
    s.level >= 4 || Above(s, 3) < 256
  }

  ghost function OwnTables(tab: map<Slot, nat>): set<nat> {
    set s | s in tab && Own(s) :: tab[s]
  }

  /** The lower half holds no large page, and the pages taken for tables are those in use. */
  ghost predicate ContextOk(ctx: Space)
    reads ctx
  {
    && ctx.Valid() && ctx.links == TABLE_FLAGS
    && (forall x: nat :: LowerHalf(x) ==> ctx.Look(x, true).Unmapped? || ctx.Look(x, true).level <= 1)
    && ctx.taken == OwnTables(ctx.tab)
  }

  /** paging_get_phys on what the walk found. */
  function PhysOf(leaf: Leaf, x: nat): nat {
    if leaf.Mapped? then Or(AddrOf(leaf.word), And(x, PAGE - 1)) else 0
  }

  ghost function Translate(ctx: Space, x: nat): nat
    reads ctx
  {
    PhysOf(ctx.Look(x, true), x)
  }

  // ---- creating a context ------------------------------------------------------------------

  /** paging_create_context: an empty lower half and the kernel's upper half. Null when the
      context or its root cannot be allocated. */
  method CreateContext(kernel: Space, pages: seq<nat>, kmallocOk: bool) returns (ctx: Space?)
    requires kernel.Valid() && kernel.links == TABLE_FLAGS && PoolOk(pages, kernel.tables)
    ensures ctx == null <==> !kmallocOk || pages == []
    ensures ctx != null ==> fresh(ctx) && ContextOk(ctx) && ctx.pool == pages[1..] && ctx.taken == {pages[0]}
    ensures ctx != null ==> forall x: nat :: ctx.Look(x, true) == if Index(x, 4) < 256 then Unmapped else kernel.Look(x, true)
  {
    hide Lookup, TreeOk, PoolOk, Index, Above, LinksOk;
    if !kmallocOk || pages == [] {
      return null;
    }
    ctx := new Space.SharingUpperHalf(kernel, pages);
    OnlyRootOwn(ctx.tables, ctx.tab);
    forall x: nat | LowerHalf(x) ensures Index(x, 4) < 256 {
      IndexIs(x, 4);
    }
  }

  lemma OnlyRootOwn(ts: Tables, tab: map<Slot, nat>)
    requires TreeOk(ts, tab) && forall s :: s in tab && s.level < 4 ==> Above(s, 3) >= 256
    ensures OwnTables(tab) == {tab[Slot(4, 0)]}
  {
    forall s | s in tab && Own(s) ensures s == Slot(4, 0) {
      assert TableOk(ts, tab, s);
    }
  }

  // ---- get_pte -----------------------------------------------------------------------

  method GetPte(ctx: Space, x: nat, create: bool) returns (r: Found)
    requires ctx.Valid() && ctx.links == TABLE_FLAGS
    modifies if create then {ctx} else {}
    ensures ctx.Valid()
    ensures forall y :: ctx.Look(y, true) == old(ctx.Look(y, true))
    ensures LowerHalf(x) && old(ctx.taken == OwnTables(ctx.tab)) ==> ctx.taken == OwnTables(ctx.tab)
    ensures r.At? ==>
              && ctx.Holds(r.table, r.level, x) && r.index == Index(x, r.level) < ENTRIES
              && r.table in ctx.tables && |ctx.tables[r.table]| == ENTRIES
              && (r.level == 1 || BigLeaf(ctx.tables[r.table][r.index], r.level, true))
              && ctx.Look(x, true) == LeafAt(ctx.tables[r.table][r.index], r.level)
    ensures r.Absent? ==> ctx.Look(x, true) == Unmapped && (create ==> ctx.pool == [])
  {
    hide Index, AddrOf, Large, EntryAt, Lookup, EntryOk, TreeOk, OwnTables, Present, LinksOk;
    TableFlagFields();
    assert ctx.Holds(ctx.root, 4, x) by { RootHolds(ctx, x); }
    var pdpt := Below(ctx, ctx.root, 4, x, create);
    if pdpt == 0 {
      return Absent;
    }
    ctx.HoldsFacts(pdpt, 3, x);
    ctx.EntryIs(pdpt, Index(x, 3));
    LookupStep(ctx.tables, pdpt, 3, x, true);
    var e := ctx.tables[pdpt][Index(x, 3)];
    if Present(e) && Large(e) {
      return At(pdpt, Index(x, 3), 3);
    }
    var pd := Below(ctx, pdpt, 3, x, create);
    if pd == 0 {
      return Absent;
    }
    ctx.HoldsFacts(pd, 2, x);
    ctx.EntryIs(pd, Index(x, 2));
    LookupStep(ctx.tables, pd, 2, x, true);
    e := ctx.tables[pd][Index(x, 2)];
    if Present(e) && Large(e) {
      return At(pd, Index(x, 2), 2);
    }
    var pt := Below(ctx, pd, 2, x, create);
    if pt == 0 {
      return Absent;
    }
    ctx.HoldsFacts(pt, 1, x);
    ctx.EntryIs(pt, Index(x, 1));
    LookupStep(ctx.tables, pt, 1, x, true);
    return At(pt, Index(x, 1), 1);
  }

  lemma RootHolds(ctx: Space, x: nat)
    requires ctx.Valid() && ctx.links == TABLE_FLAGS
    ensures ctx.Holds(ctx.root, 4, x)
  {
  }

  /** One level of get_pte, with the account of table pages. */
  method Below(ctx: Space, t: nat, level: nat, x: nat, create: bool) returns (next: nat)
    requires ctx.Valid() && ctx.links == TABLE_FLAGS && ctx.Holds(t, level, x) && level >= 2
    requires !BigLeaf(EntryAt(ctx.tables, t, Index(x, level)), level, true)
    modifies if create then {ctx} else {}
    ensures ctx.Valid()
    ensures forall y :: ctx.Look(y, true) == old(ctx.Look(y, true))
    ensures next != 0 ==> ctx.Holds(next, level - 1, x)
    ensures next == 0 ==> ctx.Look(x, true) == Unmapped && (create ==> ctx.pool == [])
    ensures LowerHalf(x) && old(ctx.taken == OwnTables(ctx.tab)) ==> ctx.taken == OwnTables(ctx.tab)
  {
    hide Index, AddrOf, Large, EntryAt, Lookup, EntryOk, TreeOk, OwnTables, Present, LinksOk;
    TableFlagFields();
    ctx.HoldsFacts(t, level, x);
    LookupStep(ctx.tables, t, level, x, true);
    ghost var was := ctx.tab;
    if !Present(EntryAt(ctx.tables, t, Index(x, level))) {
      ctx.NoChild(t, level, x);
    }
    next := ctx.Descend(t, level, x, create, TABLE_FLAGS, true);
    if ctx.tab != was && LowerHalf(x) {
      OwnGrows(was, Slot(level - 1, Place(x, level - 1)), next, x);
    }
  }

  /** The tables on the way to a lower-half address belong to the context. */
  lemma LowerIsOwn(x: nat, level: nat)
    requires LowerHalf(x) && 1 <= level <= 3
    ensures Own(Slot(level, Place(x, level)))
  {
    hide Index, LinksOk;
    IndexIs(x, 4);
    AboveIs(x, level);
  }

  lemma {:induction false} AboveIs(x: nat, level: nat)
    requires 1 <= level <= 3
    ensures Above(Slot(level, Place(x, level)), 3) == Place(x, 3) == Index(x, 4)
    decreases 4 - level
  {
    hide Index, LinksOk;
    if level < 3 {
      IndexIs(x, level + 1);
      assert Place(x, level) == Place(x, level + 1) * ENTRIES + Index(x, level + 1);
      assert Place(x, level) / ENTRIES == Place(x, level + 1);
      AboveIs(x, level + 1);
    } else {
      assert Place(x, 3) == Place(x, 4) * ENTRIES + Index(x, 4);
    }
  }

  lemma OwnGrows(tab: map<Slot, nat>, s: Slot, n: nat, x: nat)
    requires LowerHalf(x) && 1 <= s.level <= 3 && s == Slot(s.level, Place(x, s.level)) && s !in tab
    ensures OwnTables(tab[s := n]) == OwnTables(tab) + {n}
  {
    LowerIsOwn(x, s.level);
    var tab' := tab[s := n];
    forall t | t in OwnTables(tab) + {n} ensures t in OwnTables(tab') {
      if t in OwnTables(tab) {
        var u :| u in tab && Own(u) && tab[u] == t;
        assert u in tab' && tab'[u] == t;
      } else {
        assert s in tab' && Own(s);
      }
    }
  }

  // ---- mapping, unmapping, looking up -------------------------------------------------------

  method GetPhys(ctx: Space, x: nat) returns (addr: nat)
    requires ctx.Valid() && ctx.links == TABLE_FLAGS
    ensures addr == Translate(ctx, x)
  {
    hide AddrOf, And, Or, Large, Index, Lookup, LinksOk;
    var r := GetPte(ctx, x, false);
    if r.Absent? || !Present(ctx.tables[r.table][r.index]) {
      return 0;
    }
    addr := Or(AddrOf(ctx.tables[r.table][r.index]), And(x, PAGE - 1));
  }

  /** Writing the level-1 entry for x: the only address range affected is its page. */
  method WritePte(ctx: Space, r: Found, x: nat, w: nat)
    requires ContextOk(ctx) && LowerHalf(x) && r.At? && r.level == 1 && ctx.Holds(r.table, 1, x)
    modifies ctx
    ensures ContextOk(ctx) && ctx.pool == old(ctx.pool)
    ensures forall y :: ctx.Look(y, true) ==
              if Place(y, 0) == Place(x, 0) then LeafAt(w, 1) else old(ctx.Look(y, true))
  {
    hide Lookup, TreeOk, Index, OwnTables, LinksOk;
    ctx.WriteLeaf(r.table, 1, x, w, true);
  }

  lemma {:induction false} SamePage(x: nat, y: nat)
    requires x < HALF && y < HALF
    ensures Place(x, 0) == Place(y, 0) <==> x / PAGE == y / PAGE
  {
    hide Index, LinksOk;
    PlaceIs(x);
    PlaceIs(y);
  }

  /** The leaf is a 4 KB page that translates x to `target` and has these flags. */
  ghost predicate PageTo(leaf: Leaf, x: nat, target: int, f: MapFlags) {
    leaf.Mapped? && leaf.level == 1 && PhysOf(leaf, x) == target && HasFlags(leaf.word, f)
  }

  lemma PteTarget(phys: nat, f: MapFlags, x: nat)
    requires phys % PAGE == 0 && phys < 0x10_0000_0000_0000
    ensures PageTo(LeafAt(Or(phys, FlagsToPte(f)), 1), x, phys + x % PAGE, f)
  {
    hide AddrOf, And, Or, Large, Present, FlagsToPte, Shl, Pow2, LinksOk;
    PteFlagFields(f);
    EntryFields(phys, FlagsToPte(f));
    var q := phys / PAGE;
    Powers();
    ShlMul(q, 12);
    Mask12(x);
    OrDisjoint(q, x % PAGE, 12);
    PteBits(phys, f);
  }

  /** The 4 KB path of paging_map. `done` is the part that was mapped: everything on success,
      what was reached before memory ran out on failure. */
  method Map(ctx: Space, virt: nat, phys: nat, size: nat, f: MapFlags) returns (ok: bool, ghost done: nat)
    requires ContextOk(ctx)
    requires virt % PAGE == 0 && phys % PAGE == 0 && size % PAGE == 0
    requires virt + size <= HALF && phys + size <= 0x10_0000_0000_0000
    modifies ctx
    ensures ContextOk(ctx)
    ensures done <= size && (ok <==> done == size)
    ensures !ok ==> ctx.pool == []
    ensures forall x: nat :: virt <= x < virt + done ==> Translate(ctx, x) == phys + (x - virt)
    ensures forall x: nat :: virt <= x < virt + done ==> PageTo(ctx.Look(x, true), x, phys + (x - virt), f)
    ensures forall x: nat :: virt <= x < virt + done ==>
              (Allowed(ctx, x, Writes) <==> f.write) && (Allowed(ctx, x, Executes) <==> f.exec) && !Allowed(ctx, x, Users)
    ensures forall x: nat :: LowerHalf(x) && !(virt <= x < virt + done) ==> ctx.Look(x, true) == old(ctx.Look(x, true))
  {
    hide PhysOf, HasFlags, PageTo, Allowed, Lookup, TreeOk, PoolOk, Index, OwnTables, LinksOk;
    ok, done := false, 0;
    var v, p, left := virt, phys, size;
    while left > 0
      invariant ContextOk(ctx) && done <= size && done % PAGE == 0
      invariant v == virt + done && p == phys + done && left == size - done
      invariant forall x: nat :: virt <= x < virt + done ==> PageTo(ctx.Look(x, true), x, phys + (x - virt), f)
      invariant forall x: nat :: LowerHalf(x) && !(virt <= x < virt + done) ==> ctx.Look(x, true) == old(ctx.Look(x, true))
    {
      label Before:
      var mapped := MapOne(ctx, v, p, f);
      forall x: nat | virt <= x < virt + done ensures PageTo(ctx.Look(x, true), x, phys + (x - virt), f) {
        assert LowerHalf(x) && ctx.Look(x, true) == old@Before(ctx.Look(x, true));
              }
      if !mapped {
        RangeAllowed(ctx, virt, phys, done, f);
        return;
      }
      done := done + PAGE;
      v, p, left := v + PAGE, p + PAGE, left - PAGE;
    }
    ok := true;
    RangeAllowed(ctx, virt, phys, done, f);
  }

  lemma RangeAllowed(ctx: Space, virt: nat, phys: nat, n: nat, f: MapFlags)
    requires ctx.Valid() && ctx.links == TABLE_FLAGS
    requires forall x: nat :: virt <= x < virt + n ==> PageTo(ctx.Look(x, true), x, phys + (x - virt), f)
    ensures forall x: nat :: virt <= x < virt + n ==> Translate(ctx, x) == phys + (x - virt)
    ensures forall x: nat :: virt <= x < virt + n ==>
              (Allowed(ctx, x, Writes) <==> f.write) && (Allowed(ctx, x, Executes) <==> f.exec) && !Allowed(ctx, x, Users)
  {
    hide Lookup, TreeOk, LinksOk, PoolOk, Allowed, PhysOf;
    forall x: nat | virt <= x < virt + n
      ensures (Allowed(ctx, x, Writes) <==> f.write) && (Allowed(ctx, x, Executes) <==> f.exec) && !Allowed(ctx, x, Users)
    {
      assert PageTo(ctx.Look(x, true), x, phys + (x - virt), f);
      EffectiveAccess(ctx, x);
      NoExecuteBit(ctx.Look(x, true).word);
    }
  }

  lemma NoExecuteBit(w: nat)
    ensures Executes(w) <==> w / 0x8000_0000_0000_0000 % 2 != 1
  {
  }

  /** One turn of the loop of paging_map. */
  method MapOne(ctx: Space, v: nat, p: nat, f: MapFlags) returns (ok: bool)
    requires ContextOk(ctx) && v % PAGE == 0 && p % PAGE == 0 && v < HALF && p < 0x10_0000_0000_0000
    modifies ctx
    ensures ContextOk(ctx)
    ensures !ok ==> ctx.pool == [] && forall x: nat :: ctx.Look(x, true) == old(ctx.Look(x, true))
    ensures ok ==> forall x: nat :: v <= x < v + PAGE ==> PageTo(ctx.Look(x, true), x, p + (x - v), f)
    ensures ok ==> forall x: nat :: LowerHalf(x) && !(v <= x < v + PAGE) ==> ctx.Look(x, true) == old(ctx.Look(x, true))
  {
    hide Lookup, TreeOk, PoolOk, Index, OwnTables, PhysOf, LeafAt, FlagsToPte, Or, HasFlags, PageTo, LinksOk;
    var r := FindPte(ctx, v, true);
    if r.Absent? {
      return false;
    }
    WritePte(ctx, r, v, Or(p, FlagsToPte(f)));
    forall x: nat | LowerHalf(x) ensures Place(x, 0) == Place(v, 0) <==> v <= x < v + PAGE {
      SamePage(x, v);
    }
    forall x: nat | v <= x < v + PAGE ensures PageTo(ctx.Look(x, true), x, p + (x - v), f) {
      PteTarget(p, f, x);
    }
    return true;
  }

  /** get_pte in a context without large pages in the lower half. */
  method FindPte(ctx: Space, x: nat, create: bool) returns (r: Found)
    requires ContextOk(ctx) && LowerHalf(x)
    modifies if create then {ctx} else {}
    ensures ContextOk(ctx)
    ensures forall y :: ctx.Look(y, true) == old(ctx.Look(y, true))
    ensures r.At? ==> r.level == 1 && ctx.Holds(r.table, 1, x)
    ensures r.At? ==> r.table in ctx.tables && r.index < |ctx.tables[r.table]| && ctx.Look(x, true) == LeafAt(ctx.tables[r.table][r.index], 1)
    ensures r.Absent? ==> ctx.Look(x, true) == Unmapped && (create ==> ctx.pool == [])
  {
    hide Lookup, TreeOk, PoolOk, Index, OwnTables, Large, LinksOk;
    r := GetPte(ctx, x, create);
  }

  /** paging_unmap: no address of the range is mapped any more, no other is affected. */
  method Unmap(ctx: Space, virt: nat, size: nat)
    requires ContextOk(ctx) && virt % PAGE == 0 && size % PAGE == 0 && virt + size <= HALF
    modifies ctx
    ensures ContextOk(ctx)
    ensures forall x: nat :: virt <= x < virt + size ==> ctx.Look(x, true) == Unmapped
    ensures forall x: nat :: LowerHalf(x) && !(virt <= x < virt + size) ==> ctx.Look(x, true) == old(ctx.Look(x, true))
  {
    hide Lookup, TreeOk, PoolOk, Index, OwnTables, LinksOk;
    var v, left := virt, size;
    ghost var done := 0;
    while left > 0
      invariant ContextOk(ctx) && 0 <= done <= size && done % PAGE == 0
      invariant v == virt + done && left == size - done
      invariant forall x: nat :: virt <= x < virt + done ==> ctx.Look(x, true) == Unmapped
      invariant forall x: nat :: LowerHalf(x) && !(virt <= x < virt + done) ==> ctx.Look(x, true) == old(ctx.Look(x, true))
    {
      UnmapOne(ctx, v);
      done := done + PAGE;
      v := v + PAGE;
      left := if left >= PAGE then left - PAGE else 0;
    }
  }

  /** One turn of the loop of paging_unmap. */
  method UnmapOne(ctx: Space, v: nat)
    requires ContextOk(ctx) && v % PAGE == 0 && v < HALF
    modifies ctx
    ensures ContextOk(ctx)
    ensures forall x: nat :: v <= x < v + PAGE ==> ctx.Look(x, true) == Unmapped
    ensures forall x: nat :: LowerHalf(x) && !(v <= x < v + PAGE) ==> ctx.Look(x, true) == old(ctx.Look(x, true))
  {
    hide Lookup, TreeOk, PoolOk, Index, OwnTables, Present, LinksOk;
    forall x: nat | LowerHalf(x) ensures Place(x, 0) == Place(v, 0) <==> v <= x < v + PAGE {
      SamePage(x, v);
    }
    forall x: nat | v <= x < v + PAGE ensures ctx.Look(x, true) == ctx.Look(v, true) {
      SameWalk(ctx.tables, ctx.root, 4, x, v, true);
    }
    var r := FindPte(ctx, v, false);
    ZeroAbsent();
    if r.At? && Present(ctx.tables[r.table][r.index]) {
      WritePte(ctx, r, v, 0);
    }
  }

  // ---- destroying a context -----------------------------------------------------------------

  /** The tables under place p of a level, that one included. */
  ghost function Under(tab: map<Slot, nat>, level: nat, p: nat): set<Slot> {
    set s | s in tab && s.level <= level && Above(s, level) == p
  }

  /** The pages `freed`, in order, are the tables at distinct slots that make up `slots`. */
  ghost predicate FreesExactly(tab: map<Slot, nat>, freed: seq<nat>, slots: set<Slot>) {
    && slots <= tab.Keys
    && (forall i, j :: 0 <= i < j < |freed| ==> freed[i] != freed[j])
    && (forall n :: n in freed <==> exists s :: s in slots && tab[s] == n)
  }

  lemma FreesConcat(tab: map<Slot, nat>, f: seq<nat>, a: set<Slot>, g: seq<nat>, b: set<Slot>)
    requires FreesExactly(tab, f, a) && FreesExactly(tab, g, b) && a !! b
    requires forall s, s' :: s in tab && s' in tab && tab[s] == tab[s'] ==> s == s'
    ensures FreesExactly(tab, f + g, a + b)
  {
    forall i, j | 0 <= i < j < |f + g| ensures (f + g)[i] != (f + g)[j] {
      if i < |f| <= j {
        assert f[i] in f && g[j - |f|] in g;
      }
    }
  }

  lemma {:induction false} AboveUp(s: Slot, l: nat, k: nat)
    requires s.level <= l <= k
    ensures Above(s, k) == Above(Slot(l, Above(s, l)), k)
    decreases l - s.level
  {
    if s.level < l {
      AboveUp(Slot(s.level + 1, s.place / ENTRIES), l, k);
    }
  }

  /** Every table above one in use is in use. */
  lemma {:induction false} AboveIn(ts: Tables, tab: map<Slot, nat>, s: Slot, l: nat)
    requires TreeOk(ts, tab) && s in tab && s.level <= l <= 4
    ensures Slot(l, Above(s, l)) in tab
    decreases l - s.level
  {
    if s.level < l {
      assert TableOk(ts, tab, s);
      AboveIn(ts, tab, Slot(s.level + 1, s.place / ENTRIES), l);
    }
  }

  /** The tables under an entry of the table at place p: none if it points nowhere. */
  lemma UnderEntry(ts: Tables, tab: map<Slot, nat>, level: nat, p: nat, i: nat)
    requires TreeOk(ts, tab) && 2 <= level <= 4 && Slot(level, p) in tab && i < ENTRIES
    ensures !Pointer(EntryAt(ts, tab[Slot(level, p)], i), level) ==> Under(tab, level - 1, p * ENTRIES + i) == {}
    ensures Pointer(EntryAt(ts, tab[Slot(level, p)], i), level) ==>
              && Slot(level - 1, p * ENTRIES + i) in tab
              && AddrOf(EntryAt(ts, tab[Slot(level, p)], i)) == tab[Slot(level - 1, p * ENTRIES + i)]
  {
    hide Pointer, AddrOf, EntryAt, TreeOk, LinksOk;
    EntryFact(ts, tab, Slot(level, p), i);
    var c := Slot(level - 1, p * ENTRIES + i);
    if Under(tab, c.level, c.place) != {} {
      var s :| s in Under(tab, c.level, c.place);
      AboveIn(ts, tab, s, c.level);
      assert c in tab;
    }
  }

  /** The tables under the first i entries of the table at place p. */
  ghost function UnderFirst(tab: map<Slot, nat>, level: nat, p: nat, i: nat): set<Slot>
    requires level >= 1
  {
    set s | s in tab && s.level < level && p * ENTRIES <= Above(s, level - 1) < p * ENTRIES + i
  }

  lemma UnderNext(tab: map<Slot, nat>, level: nat, p: nat, i: nat)
    requires level >= 2
    ensures UnderFirst(tab, level, p, 0) == {}
    ensures UnderFirst(tab, level, p, i + 1) == UnderFirst(tab, level, p, i) + Under(tab, level - 1, p * ENTRIES + i)
    ensures UnderFirst(tab, level, p, i) !! Under(tab, level - 1, p * ENTRIES + i)
  {
  }

  /** A table and what hangs under its entries. */
  lemma UnderAll(ts: Tables, tab: map<Slot, nat>, level: nat, p: nat)
    requires TreeOk(ts, tab) && 2 <= level <= 3 && Slot(level, p) in tab
    ensures Under(tab, level, p) == UnderFirst(tab, level, p, ENTRIES) + {Slot(level, p)}
    ensures Slot(level, p) !in UnderFirst(tab, level, p, ENTRIES)
  {
    forall s | s in tab && s.level < level
      ensures Above(s, level) == p <==> p * ENTRIES <= Above(s, level - 1) < p * ENTRIES + ENTRIES
    {
      AboveUp(s, level - 1, level);
      assert Above(Slot(level - 1, Above(s, level - 1)), level) == Above(s, level - 1) / ENTRIES;
    }
  }

  /** The innermost loop of paging_destroy_context and the free of the page directory. */
  method FreeDirectory(ctx: Space, pd: nat, ghost p: nat) returns (freed: seq<nat>)
    requires ctx.Valid() && ctx.links == TABLE_FLAGS && Slot(2, p) in ctx.tab && ctx.tab[Slot(2, p)] == pd
    ensures FreesExactly(ctx.tab, freed, Under(ctx.tab, 2, p))
  {
    hide Under, UnderFirst, Pointer, AddrOf, FreesExactly, EntryAt, LinksOk;
    ghost var tab := ctx.tab;
    assert TableOk(ctx.tables, tab, Slot(2, p));
    freed := [];
    UnderNext(tab, 2, p, 0);
    FreesNone(tab);
    for k := 0 to ENTRIES
      invariant FreesExactly(tab, freed, UnderFirst(tab, 2, p, k))
    {
      UnderNext(tab, 2, p, k);
      assert UnderFirst(tab, 2, p, k) + {} == UnderFirst(tab, 2, p, k);
      UnderEntry(ctx.tables, tab, 2, p, k);
      ctx.EntryIs(pd, k);
      var e := ctx.tables[pd][k];
      if PointerTest(e) {
        OneTable(ctx.tables, tab, p * ENTRIES + k);
        FreesConcat(tab, freed, UnderFirst(tab, 2, p, k), [AddrOf(e)], Under(tab, 1, p * ENTRIES + k));
        freed := freed + [AddrOf(e)];
      }
    }
    UnderAll(ctx.tables, tab, 2, p);
    FreesOne(tab, Slot(2, p));
    FreesConcat(tab, freed, UnderFirst(tab, 2, p, ENTRIES), [pd], {Slot(2, p)});
    freed := freed + [pd];
  }

  /** The test of the freeing loops at the two lower levels: present and not huge. */
  predicate PointerTest(e: nat)
    ensures PointerTest(e) <==> Pointer(e, 2)
    ensures PointerTest(e) <==> Pointer(e, 3)
  {
    Present(e) && !Large(e)
  }

  lemma FreesNone(tab: map<Slot, nat>)
    ensures FreesExactly(tab, [], {})
  {
  }

  lemma FreesOne(tab: map<Slot, nat>, s: Slot)
    requires s in tab
    ensures FreesExactly(tab, [tab[s]], {s})
  {
  }

  lemma OneTable(ts: Tables, tab: map<Slot, nat>, q: nat)
    requires TreeOk(ts, tab) && Slot(1, q) in tab
    ensures Under(tab, 1, q) == {Slot(1, q)}
    ensures FreesExactly(tab, [tab[Slot(1, q)]], Under(tab, 1, q))
  {
    forall s | s in Under(tab, 1, q) ensures s == Slot(1, q) {
      assert TableOk(ts, tab, s);
    }
  }

  /** The middle loop of paging_destroy_context and the free of the PDPT. */
  method FreePointers(ctx: Space, pdpt: nat, ghost p: nat) returns (freed: seq<nat>)
    requires ctx.Valid() && ctx.links == TABLE_FLAGS && Slot(3, p) in ctx.tab && ctx.tab[Slot(3, p)] == pdpt
    ensures FreesExactly(ctx.tab, freed, Under(ctx.tab, 3, p))
  {
    hide Under, UnderFirst, Pointer, AddrOf, FreesExactly, EntryAt, LinksOk;
    ghost var tab := ctx.tab;
    assert TableOk(ctx.tables, tab, Slot(3, p));
    freed := [];
    UnderNext(tab, 3, p, 0);
    FreesNone(tab);
    for j := 0 to ENTRIES
      invariant FreesExactly(tab, freed, UnderFirst(tab, 3, p, j))
    {
      UnderNext(tab, 3, p, j);
      assert UnderFirst(tab, 3, p, j) + {} == UnderFirst(tab, 3, p, j);
      UnderEntry(ctx.tables, tab, 3, p, j);
      ctx.EntryIs(pdpt, j);
      var e := ctx.tables[pdpt][j];
      if PointerTest(e) {
        var more := FreeDirectory(ctx, AddrOf(e), p * ENTRIES + j);
        FreesConcat(tab, freed, UnderFirst(tab, 3, p, j), more, Under(tab, 2, p * ENTRIES + j));
        freed := freed + more;
      }
    }
    UnderAll(ctx.tables, tab, 3, p);
    FreesOne(tab, Slot(3, p));
    FreesConcat(tab, freed, UnderFirst(tab, 3, p, ENTRIES), [pdpt], {Slot(3, p)});
    freed := freed + [pdpt];
  }

  /** paging_destroy_context. `freed` lists the calls to pmm_free_page: every page ever taken
      for this context's tables, each exactly once, and nothing else. */
  method Destroy(ctx: Space) returns (freed: seq<nat>)
    requires ContextOk(ctx)
    ensures forall i, j :: 0 <= i < j < |freed| ==> freed[i] != freed[j]
    ensures forall n :: n in freed <==> n in ctx.taken
    ensures forall n :: n in freed ==> n in ctx.tables
  {
    hide Under, UnderFirst, AddrOf, FreesExactly, EntryAt, OwnTables, Present, LinksOk;
    ghost var tab := ctx.tab;
    freed := [];
    UnderNext(tab, 4, 0, 0);
    FreesNone(tab);
    assert TableOk(ctx.tables, tab, Slot(4, 0));
    for i := 0 to 256
      invariant FreesExactly(tab, freed, UnderFirst(tab, 4, 0, i))
    {
      UnderNext(tab, 4, 0, i);
      assert UnderFirst(tab, 4, 0, i) + {} == UnderFirst(tab, 4, 0, i);
      UnderEntry(ctx.tables, tab, 4, 0, i);
      ctx.EntryIs(ctx.root, i);
      var e := ctx.tables[ctx.root][i];
      if Present(e) {
        var more := FreePointers(ctx, AddrOf(e), i);
        FreesConcat(tab, freed, UnderFirst(tab, 4, 0, i), more, Under(tab, 3, i));
        freed := freed + more;
      }
    }
    OwnIsUnder(ctx.tables, tab);
    FreesOne(tab, Slot(4, 0));
    FreesConcat(tab, freed, UnderFirst(tab, 4, 0, 256), [ctx.root], {Slot(4, 0)});
    freed := freed + [ctx.root];
    FreedAreOwn(ctx.tables, tab, freed);
  }

  lemma OwnIsUnder(ts: Tables, tab: map<Slot, nat>)
    requires TreeOk(ts, tab)
    ensures Slot(4, 0) !in UnderFirst(tab, 4, 0, 256)
    ensures forall s :: s in tab && Own(s) <==> s in UnderFirst(tab, 4, 0, 256) + {Slot(4, 0)}
  {
    forall s | s in tab && Own(s) ensures s in UnderFirst(tab, 4, 0, 256) + {Slot(4, 0)} {
      assert TableOk(ts, tab, s);
    }
  }

  lemma FreedAreOwn(ts: Tables, tab: map<Slot, nat>, freed: seq<nat>)
    requires TreeOk(ts, tab) && FreesExactly(tab, freed, UnderFirst(tab, 4, 0, 256) + {Slot(4, 0)})
    requires forall s :: s in tab && Own(s) <==> s in UnderFirst(tab, 4, 0, 256) + {Slot(4, 0)}
    ensures forall i, j :: 0 <= i < j < |freed| ==> freed[i] != freed[j]
    ensures forall n :: n in freed <==> n in OwnTables(tab)
    ensures forall n :: n in freed ==> n in ts
  {
    hide UnderFirst, Own, LinksOk;
    forall n | n in freed ensures n in ts && n in OwnTables(tab) {
      var s :| s in UnderFirst(tab, 4, 0, 256) + {Slot(4, 0)} && tab[s] == n;
      assert TableOk(ts, tab, s);
    }
  }
}
