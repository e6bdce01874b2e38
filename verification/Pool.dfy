/** Storage pools of src/storage/pool.c with unreplicated volumes: next-fit extent
    allocation, thin and thick volumes, and the translation of volume offsets to device
    offsets. An extent-map entry of 0 means "not allocated", so extent 0 can never be
    recorded as the home of anything; what depends on that is said where it matters. */
module Pool {
  import opened Extents

  const U32: nat := 0x1_0000_0000
  const U64: nat := 0x1_0000_0000_0000_0000
  const SPAN: nat := 0x40_0000_0000_0000  // U32 extents

  datatype Volume = Volume(extentMap: seq<nat>, thin: bool, online: bool, claimed: nat)

  type Volumes = map<nat, Volume>

  datatype Result<+T> = Ok(value: T) | Failed

  /** The extent-map entries that are in use, over all volumes. */
  ghost predicate Uses(vols: Volumes, v: nat, i: nat, e: nat) {
    v in vols && i < |vols[v].extentMap| && vols[v].extentMap[i] == e && e != 0
  }

  /** Isolation: entries in use name allocated extents, and no extent is named twice. */
  ghost predicate Isolated(vols: Volumes, es: seq<Extent>) {
    && (forall v: nat, i: nat, e: nat :: Uses(vols, v, i, e) ==> e < |es| && es[e].state == ALLOCATED)
    && (forall v: nat, i: nat, w: nat, j: nat, e: nat :: Uses(vols, v, i, e) && Uses(vols, w, j, e) ==> v == w && i == j)
  }

  /** What volume_submit reads at offset o of a volume: zeros where nothing is allocated. */
  function VolumeByte(vols: Volumes, es: seq<Extent>, disks: Disks, v: nat, o: nat): bv8 {
    if v in vols && o / EXTENT < |vols[v].extentMap| && vols[v].extentMap[o / EXTENT] != 0
    then ByteOf(es, disks, vols[v].extentMap[o / EXTENT], o % EXTENT) else 0
  }

  /** The bytes written to each volume so far, last write wins. */
  type Log = map<nat, map<nat, bv8>>

  /** Every byte ever written to a volume and kept is still there. */
  ghost predicate Remembers(vols: Volumes, es: seq<Extent>, disks: Disks, log: Log) {
    && log.Keys == vols.Keys
    && forall v, o :: v in log && o in log[v] ==> Kept(vols, es, disks, v, o, log[v][o])
  }

  ghost predicate Kept(vols: Volumes, es: seq<Extent>, disks: Disks, v: nat, o: nat, b: bv8) {
    && v in vols && o / EXTENT < |vols[v].extentMap| && vols[v].extentMap[o / EXTENT] != 0
    && VolumeByte(vols, es, disks, v, o) == b
  }

  /** The number of extents of a volume of the given size, as 64-bit and then 32-bit values. */
  function ExtentsFor(size: nat): nat {
    ((size + EXTENT - 1) % U64 / EXTENT) % U32
  }

  /** ExtentsFor is the least number of extents that hold `size` bytes. */
  lemma ExtentsForIs(size: nat)
    requires size <= SPAN - EXTENT
    ensures (ExtentsFor(size) - 1) * EXTENT < size <= ExtentsFor(size) * EXTENT || (size == 0 && ExtentsFor(size) == 0)
  {
  }

  /** Extent e is the first free one from the cursor on or, if there is none, from extent 1 on. */
  ghost predicate NextFit(es: seq<Extent>, cursor: nat, e: nat) {
    && e < |es| && es[e].state == FREE
    && if e >= cursor then forall j :: cursor <= j < e ==> es[j].state != FREE
       else e >= 1 && (forall j :: cursor <= j < |es| ==> es[j].state != FREE) && forall j :: 1 <= j < e ==> es[j].state != FREE
  }

  /** e is one of the extents in the map. */
  ghost predicate Names(m: seq<nat>, e: nat) { e != 0 && e in m }

  ghost predicate InFirst(m: seq<nat>, n: nat, e: nat) {
    exists j :: 0 <= j < n <= |m| && m[j] == e
  }

  /** The first n entries of a thick volume name extents that were free and now belong to it, all
      different, 0 at most at the front and only where extent 0 was free; all other extents
      are as before. */
  ghost predicate Provisioned(es: seq<Extent>, es': seq<Extent>, m: seq<nat>, n: nat, id: nat) {
    && n <= |m| && |es'| == |es|
    && (forall j :: 0 <= j < n ==> m[j] < |es| && es[m[j]].state == FREE && es'[m[j]] == es[m[j]].(state := ALLOCATED, volume := id))
    && (forall j, k :: 0 <= j < k < n ==> m[j] != m[k])
    && (forall e :: 0 <= e < |es| && !InFirst(m, n, e) ==> es'[e] == es[e])
    && (n > 0 ==> es != [] && (m[0] == 0 <==> es[0].state == FREE)) && (forall j :: 0 < j < n ==> m[j] != 0)
  }

  lemma ProvisionStep(es: seq<Extent>, es': seq<Extent>, m: seq<nat>, n: nat, id: nat, e: nat, m': seq<nat>)
    requires Provisioned(es, es', m, n, id) && n < |m| == |m'| && e < |es'| && es'[e].state == FREE
    requires (e == 0 <==> es'[0].state == FREE) && m'[n] == e && forall j :: 0 <= j < |m| && j != n ==> m'[j] == m[j]
    ensures Provisioned(es, es'[e := es'[e].(state := ALLOCATED, volume := id)], m', n + 1, id)
  {
    var now := es'[e := es'[e].(state := ALLOCATED, volume := id)];
    forall j | 0 <= j < n ensures m[j] != e {
      assert es'[m[j]].state == ALLOCATED;
    }
    assert !InFirst(m, n, e);
    LastOfFirst(m', n);
    forall x | 0 <= x < |es| && !InFirst(m', n + 1, x) ensures now[x] == es[x] {
      assert !InFirst(m, n, x) by { SameFirst(m, m', n, x); }
    }
    if n > 0 {
      assert es'[0].state != FREE by { ZeroGone(es, es', m, n, id); }
    }
  }

  lemma LastOfFirst(m: seq<nat>, n: nat)
    requires n < |m|
    ensures InFirst(m, n + 1, m[n])
  {
  }

  lemma SameFirst(m: seq<nat>, m': seq<nat>, n: nat, x: nat)
    requires n < |m| == |m'| && forall j :: 0 <= j < |m| && j != n ==> m'[j] == m[j]
    ensures InFirst(m, n, x) ==> InFirst(m', n + 1, x)
  {
    if j :| 0 <= j < n <= |m| && m[j] == x {
      assert m'[j] == x;
    }
  }

  lemma ZeroGone(es: seq<Extent>, es': seq<Extent>, m: seq<nat>, n: nat, id: nat)
    requires Provisioned(es, es', m, n, id) && n > 0
    ensures es' != [] && es'[0].state != FREE
  {
    assert es'[m[0]].state == ALLOCATED;
    if InFirst(m, n, 0) {
      var j :| 0 <= j < n <= |m| && m[j] == 0;
      assert es'[m[j]].state == ALLOCATED;
    }
  }

  // ---- steps on volumes and extents -----------------------------------------------------------

  /** Extents that differ at most in state and owner. */
  ghost predicate SamePlaces(es: seq<Extent>, es': seq<Extent>) {
    |es'| >= |es| && forall i :: 0 <= i < |es| ==> es'[i].device == es[i].device && es'[i].offset == es[i].offset
  }

  lemma SameSelf(es: seq<Extent>)
    ensures SamePlaces(es, es)
  {
  }

  lemma ClaimIsolated(vols: Volumes, es: seq<Extent>, e: nat)
    requires Isolated(vols, es) && e < |es| && es[e].state == FREE
    ensures Isolated(vols, es[e := es[e].(state := ALLOCATED)])
    ensures forall v: nat, i: nat :: !Uses(vols, v, i, e)
  {
  }

  lemma OwnerIsolated(vols: Volumes, es: seq<Extent>, e: nat, owner: nat)
    requires Isolated(vols, es) && e < |es|
    ensures Isolated(vols, es[e := es[e].(volume := owner)])
  {
  }

  lemma FreeIsolated(vols: Volumes, es: seq<Extent>, e: nat, x: Extent)
    requires Isolated(vols, es) && e < |es| && forall v: nat, i: nat :: !Uses(vols, v, i, e)
    ensures Isolated(vols, es[e := x])
  {
  }

  lemma MoreIsolated(vols: Volumes, es: seq<Extent>, more: seq<Extent>)
    requires Isolated(vols, es)
    ensures Isolated(vols, es + more)
  {
  }

  lemma StillAllocated(vols: Volumes, es: seq<Extent>)
    requires Isolated(vols, es)
    ensures forall v: nat, i: nat, e: nat :: Uses(vols, v, i, e) ==> e < |es| && es[e].state == ALLOCATED
  {
  }

  /** A volume takes an allocated extent that nobody uses. */
  lemma AssignIsolated(vols: Volumes, es: seq<Extent>, v: nat, vol: Volume, i: nat, e: nat)
    requires Isolated(vols, es) && v in vols && i < |vol.extentMap| && |vol.extentMap| == |vols[v].extentMap|
    requires vol.extentMap == vols[v].extentMap[i := e]
    requires e != 0 ==> e < |es| && es[e].state == ALLOCATED && forall w: nat, j: nat :: !Uses(vols, w, j, e)
    ensures Isolated(vols[v := vol], es)
  {
    var vols' := vols[v := vol];
    forall w: nat, j: nat, f: nat | Uses(vols', w, j, f)
      ensures if w == v && j == i then f == e else Uses(vols, w, j, f) && f != e
    {
      assert !Uses(vols, w, j, e);
    }
  }

  lemma GrowIsolated(vols: Volumes, es: seq<Extent>, v: nat, vol: Volume)
    requires Isolated(vols, es)
    requires forall i: nat, e: nat :: Uses(vols[v := vol], v, i, e) ==> Uses(vols, v, i, e)
    ensures Isolated(vols[v := vol], es)
  {
    var vols' := vols[v := vol];
    forall w: nat, j: nat, f: nat | Uses(vols', w, j, f) ensures Uses(vols, w, j, f) {
      assert w == v ==> Uses(vols[v := vol], v, j, f);
    }
  }

  lemma DropIsolated(vols: Volumes, es: seq<Extent>, v: nat)
    requires Isolated(vols, es)
    ensures Isolated(vols - {v}, es)
  {
    forall w: nat, j: nat, f: nat | Uses(vols - {v}, w, j, f) ensures Uses(vols, w, j, f) {
    }
  }

  /** Nothing that keeps entries in use, placement and their bytes forgets a written byte. */
  lemma StillRemembers(vols: Volumes, es: seq<Extent>, disks: Disks, log: Log,
                       vols': Volumes, es': seq<Extent>, disks': Disks, log': Log)
    requires Remembers(vols, es, disks, log)
    requires log'.Keys == vols'.Keys
    requires forall v :: v in log' ==> log'[v] == map[] || (v in log && log'[v] == log[v])
    requires forall v: nat, i: nat, e: nat :: v in vols' && Uses(vols, v, i, e) ==> Uses(vols', v, i, e)
    requires forall v: nat, i: nat, e: nat, k: nat :: Uses(vols, v, i, e) && k < EXTENT ==> ByteOf(es', disks', e, k) == ByteOf(es, disks, e, k)
    ensures Remembers(vols', es', disks', log')
  {
    forall v, o | v in log' && o in log'[v] ensures Kept(vols', es', disks', v, o, log'[v][o]) {
      assert Kept(vols, es, disks, v, o, log[v][o]);
      var i, e := o / EXTENT, vols[v].extentMap[o / EXTENT];
      assert Uses(vols, v, i, e) && Uses(vols', v, i, e);
      assert ByteOf(es', disks', e, o % EXTENT) == ByteOf(es, disks, e, o % EXTENT);
    }
  }

  lemma SameBytes(es: seq<Extent>, es': seq<Extent>, disks: Disks, more: Disks)
    requires PlacedOk(es, disks) && SamePlaces(es, es')
    ensures forall e: nat, k: nat :: e < |es| && k < EXTENT ==> ByteOf(es', disks + more, e, k) == ByteOf(es, disks, e, k)
  {
  }

  lemma NothingYet()
    ensures PlacedOk([], []) && Isolated(map[], []) && Remembers(map[], [], [], map[]) && CountFree([]) == 0
  {
  }

  class StoragePool {
    var extents: seq<Extent>
    var freeExtents: nat
    var nextExtent: nat
    var disks: Disks
    var online: bool
    var volumes: Volumes
    var nextVolumeId: nat
    ghost var log: Log

    ghost predicate Counted()
      reads this
    {
      && freeExtents == CountFree(extents)
      && nextExtent <= |extents|
      && (extents != [] && extents[0].state == FREE ==> nextExtent == 0)
    }

    ghost predicate Valid()
      reads this
    {
      && Counted()
      && PlacedOk(extents, disks)
      && Isolated(volumes, extents)
      && Remembers(volumes, extents, disks, log)
      && (forall v :: v in volumes ==> v < nextVolumeId)
    }

    /** Extent 0 has been taken: from then on it stays out of circulation. */
    ghost predicate ZeroTaken()
      reads this
    {
      extents != [] && extents[0].state == ALLOCATED
    }

    constructor ()
      ensures Valid() && volumes == map[] && extents == [] && !online
    {
      hide PlacedOk, Isolated, Remembers, CountFree;
      extents, freeExtents, nextExtent, disks, online := [], 0, 0, [], false;
      volumes, nextVolumeId, log := map[], 1, map[];
      new;
      NothingYet();
    }

    /** pool_alloc_extent: finds a free extent exactly when there is one, although the second
        scan starts at 1. */
    method AllocExtent() returns (r: Result<nat>)
      requires Counted()
      modifies `extents, `freeExtents, `nextExtent
      ensures Counted()
      ensures old(ZeroTaken()) ==> ZeroTaken()
      ensures r.Ok? <==> exists i :: 0 <= i < |old(extents)| && old(extents)[i].state == FREE
      ensures r.Failed? ==> extents == old(extents)
      ensures r.Ok? ==>
                && r.value < |old(extents)| && old(extents)[r.value].state == FREE
                && extents == old(extents)[r.value := old(extents)[r.value].(state := ALLOCATED)]
                && (r.value == 0 <==> old(extents)[0].state == FREE)
                && nextExtent == r.value + 1 && NextFit(old(extents), old(nextExtent), r.value)
    {
      CountZero(extents);
      if freeExtents == 0 {
        return Failed;
      }
      for i := nextExtent to |extents|
        invariant forall j :: nextExtent <= j < i ==> extents[j].state != FREE
        invariant extents == old(extents) && freeExtents == old(freeExtents) && nextExtent == old(nextExtent)
      {
        if extents[i].state == FREE {
          Claim(i);
          return Ok(i);
        }
      }
      for i := 1 to nextExtent
        invariant forall j :: 1 <= j < i ==> extents[j].state != FREE
        invariant extents == old(extents) && freeExtents == old(freeExtents) && nextExtent == old(nextExtent)
      {
        if extents[i].state == FREE {
          Claim(i);
          return Ok(i);
        }
      }
      return Failed;
    }

    /** The body of both scans for the extent they stop at. */
    method Claim(i: nat)
      requires i < |extents| && extents[i].state == FREE && freeExtents == CountFree(extents)
      requires extents[0].state == FREE ==> i == 0
      modifies `extents, `freeExtents, `nextExtent
      ensures Counted() && extents == old(extents)[i := old(extents)[i].(state := ALLOCATED)] && nextExtent == i + 1
      ensures old(ZeroTaken()) ==> ZeroTaken()
    {
      CountUpdate(extents, i, extents[i].(state := ALLOCATED));
      extents := extents[i := extents[i].(state := ALLOCATED)];
      freeExtents := freeExtents - 1;
      nextExtent := i + 1;
    }

    /** pool_free_extent of an allocated extent; extent 0 and bad numbers are ignored. */
    method FreeExtent(e: nat)
      requires Counted() && (0 < e < |extents| ==> extents[e].state == ALLOCATED)
      modifies `extents, `freeExtents
      ensures Counted()
      ensures old(ZeroTaken()) ==> ZeroTaken()
      ensures extents == if 0 < e < |old(extents)| then old(extents)[e := old(extents)[e].(state := FREE, volume := 0)] else old(extents)
    {
      if 0 < e < |extents| {
        CountUpdate(extents, e, extents[e].(state := FREE, volume := 0));
        extents := extents[e := extents[e].(state := FREE, volume := 0)];
        freeExtents := freeExtents + 1;
      }
    }

    /** pool_add_device with a device of these contents; its whole extents become free. */
    method AddDevice(contents: seq<bv8>, allocOk: bool) returns (ok: bool)
      requires Valid()
      modifies `extents, `freeExtents, `disks, `online
      ensures Valid()
      ensures old(ZeroTaken()) ==> ZeroTaken()
      ensures ok <==> |old(disks)| < 16 && allocOk
      ensures !ok ==> extents == old(extents) && disks == old(disks)
      ensures ok ==> disks == old(disks) + [contents] && extents == old(extents) + NewExtents(|old(disks)|, |contents| / EXTENT)
      ensures ok ==> freeExtents == old(freeExtents) + |contents| / EXTENT && online
    {
      hide PlacedOk, Kept, CountFree, ByteOf, Isolated;
      if |disks| >= 16 || !allocOk {
        return false;
      }
      ghost var es, ds := extents, disks;
      var dev, count := |disks|, |contents| / EXTENT;
      var added := NewExtents(dev, count);
      CountAppend(extents, added);
      CountNew(dev, count);
      SameBytes(es, es + added, ds, [contents]);
      disks, extents, freeExtents, online := disks + [contents], extents + added, freeExtents + count, true;
      AddPlaced(es, ds, contents);
      MoreIsolated(volumes, es, added);
      StillAllocated(volumes, es);
      StillRemembers(volumes, es, ds, log, volumes, extents, disks, log);
      ok := true;
    }

    /** The facts that extents may change in state and owner only. */
    ghost predicate SamePool(es: seq<Extent>)
      reads this
    {
      |extents| == |es| && SamePlaces(es, extents)
    }

    lemma KeepRest(es: seq<Extent>, vols: Volumes, was: Log)
      requires PlacedOk(es, disks) && SamePool(es) && Isolated(vols, es)
      requires Remembers(vols, es, disks, was)
      requires log.Keys == volumes.Keys && forall v :: v in log ==> log[v] == map[] || (v in was && log[v] == was[v])
      requires forall v: nat, i: nat, e: nat :: v in volumes && Uses(vols, v, i, e) ==> Uses(volumes, v, i, e)
      ensures PlacedOk(extents, disks) && Remembers(volumes, extents, disks, log)
    {
      assert disks + [] == disks;
      SameBytes(es, extents, disks, []);
      StillRemembers(vols, es, disks, was, volumes, extents, disks, log);
    }

    /** volume_create without replicas. A thick volume gets its extents at once, and the
        space check makes sure that this cannot fail half-way. */
    method VolumeCreate(size: nat, thin: bool, allocOk: bool) returns (r: Result<nat>)
      requires Valid()
      modifies this
      ensures Valid()
      ensures old(ZeroTaken()) ==> ZeroTaken()
      ensures r.Ok? <==> old(online) && allocOk && (thin || old(freeExtents) >= ExtentsFor(size))
      ensures r.Failed? ==> volumes == old(volumes) && extents == old(extents) && log == old(log) && disks == old(disks)
      ensures r.Ok? ==>
                && r.value !in old(volumes) && volumes.Keys == old(volumes).Keys + {r.value}
                && |volumes[r.value].extentMap| == ExtentsFor(size) && volumes[r.value].online
                && (forall v :: v in old(volumes) ==> volumes[v] == old(volumes)[v])
                && log == old(log)[r.value := map[]] && disks == old(disks)
      ensures r.Ok? ==> volumes[r.value].thin == thin && volumes[r.value].claimed == if thin then 0 else ExtentsFor(size) * EXTENT
      ensures r.Ok? && thin ==> extents == old(extents) && forall i :: 0 <= i < ExtentsFor(size) ==> volumes[r.value].extentMap[i] == 0
      ensures r.Ok? && !thin ==> Provisioned(old(extents), extents, volumes[r.value].extentMap, ExtentsFor(size), r.value)
      ensures r.Ok? && !thin ==> freeExtents == old(freeExtents) - ExtentsFor(size)
    {
      hide PlacedOk, Kept, CountFree, Isolated, SamePlaces, ExtentsFor, Provisioned;
      SameSelf(extents);
      var count := ExtentsFor(size);
      if !online || (!thin && freeExtents < count) || !allocOk {
        return Failed;
      }
      ghost var es, vols, was := extents, volumes, log;
      var id := nextVolumeId;
      nextVolumeId := nextVolumeId + 1;
      var m: seq<nat> := seq(count, _ => 0);
      volumes := volumes[id := Volume(m, thin, true, 0)];
      log := log[id := map[]];
      GrowIsolated(vols, extents, id, Volume(m, thin, true, 0));
      if !thin {
        Provision(id, count);
      }
      KeepRest(es, vols, was);
      r := Ok(id);
    }

    /** The loop of volume_create that allocates every extent of a thick volume. */
    method Provision(id: nat, count: nat)
      requires Counted() && Isolated(volumes, extents) && id in volumes && freeExtents >= count
      requires volumes[id].extentMap == seq(count, _ => 0)
      modifies `extents, `freeExtents, `nextExtent, `volumes
      ensures Counted() && Isolated(volumes, extents) && SamePool(old(extents))
      ensures old(ZeroTaken()) ==> ZeroTaken()
      ensures freeExtents == old(freeExtents) - count
      ensures volumes.Keys == old(volumes).Keys && forall v :: v in volumes && v != id ==> volumes[v] == old(volumes)[v]
      ensures |volumes[id].extentMap| == count && volumes[id].claimed == count * EXTENT
      ensures volumes[id].online == old(volumes)[id].online && volumes[id].thin == old(volumes)[id].thin
      ensures Provisioned(old(extents), extents, volumes[id].extentMap, count, id)
    {
      hide Isolated, CountFree, SamePlaces, Provisioned;
      SameSelf(extents);
      NoneProvisioned(extents, volumes[id].extentMap, id);
      for i := 0 to count
        invariant Counted() && Isolated(volumes, extents) && SamePool(old(extents)) && (old(ZeroTaken()) ==> ZeroTaken())
        invariant freeExtents == old(freeExtents) - i
        invariant volumes.Keys == old(volumes).Keys && forall v :: v in volumes && v != id ==> volumes[v] == old(volumes)[v]
        invariant |volumes[id].extentMap| == count && volumes[id].online == old(volumes)[id].online && volumes[id].thin == old(volumes)[id].thin
        invariant Provisioned(old(extents), extents, volumes[id].extentMap, i, id)
        invariant forall j :: i <= j < count ==> volumes[id].extentMap[j] == 0
      {
        ghost var es, m := extents, volumes[id].extentMap;
        ghost var e := ProvisionOne(id, i);
        ProvisionStep(old(extents), es, m, i, id, e, volumes[id].extentMap);
      }
      GrowIsolated(volumes, extents, id, volumes[id].(claimed := count * EXTENT));
      volumes := volumes[id := volumes[id].(claimed := count * EXTENT)];
    }

    /** One turn of that loop. */
    method ProvisionOne(id: nat, i: nat) returns (ghost e: nat)
      requires Counted() && Isolated(volumes, extents) && id in volumes && freeExtents > 0 && i < |volumes[id].extentMap|
      modifies `extents, `freeExtents, `nextExtent, `volumes
      ensures Counted() && Isolated(volumes, extents) && freeExtents == old(freeExtents) - 1
      ensures old(ZeroTaken()) ==> ZeroTaken()
      ensures forall es :: SamePlaces(es, old(extents)) ==> SamePlaces(es, extents)
      ensures |extents| == |old(extents)|
      ensures volumes.Keys == old(volumes).Keys && forall v :: v in volumes && v != id ==> volumes[v] == old(volumes)[v]
      ensures |volumes[id].extentMap| == |old(volumes)[id].extentMap| && volumes[id].extentMap[i] == e
      ensures volumes[id].online == old(volumes)[id].online && volumes[id].thin == old(volumes)[id].thin
      ensures e < |old(extents)| && old(extents)[e].state == FREE && (e == 0 <==> old(extents)[0].state == FREE)
      ensures extents == old(extents)[e := old(extents)[e].(state := ALLOCATED, volume := id)]
      ensures forall j :: 0 <= j < |volumes[id].extentMap| && j != i ==> volumes[id].extentMap[j] == old(volumes)[id].extentMap[j]
    {
      hide Isolated, CountFree, Uses;
      CountZero(extents);
      ghost var es := extents;
      var r := AllocExtent();
      if r.Failed? {
        assert false;
      }
      e := r.value;
      ClaimIsolated(volumes, es, r.value);
      CountUpdate(es, r.value, extents[r.value]);
      AssignIsolated(volumes, extents, id, WithEntry(volumes[id], i, r.value), i, r.value);
      volumes := volumes[id := WithEntry(volumes[id], i, r.value)];
      OwnerIsolated(volumes, extents, r.value, id);
      CountUpdate(extents, r.value, extents[r.value].(volume := id));
      extents := extents[r.value := extents[r.value].(volume := id)];
    }

    /** volume_destroy: every extent in the volume's map becomes free. */
    method VolumeDestroy(v: nat)
      requires Valid() && v in volumes
      modifies this
      ensures Valid()
      ensures old(ZeroTaken()) ==> ZeroTaken()
      ensures volumes == old(volumes) - {v} && log == old(log) - {v} && disks == old(disks)
      ensures forall i: nat, e: nat :: Uses(old(volumes), v, i, e) ==> e < |extents| && extents[e].state == FREE
      ensures forall w: nat, i: nat, e: nat :: w != v && Uses(old(volumes), w, i, e) ==> e < |extents| && extents[e].state == ALLOCATED
      ensures |extents| == |old(extents)| && forall e: nat :: e < |extents| ==>
                extents[e] == old(extents)[e] || (extents[e] == old(extents)[e].(state := FREE, volume := 0) && Names(old(volumes)[v].extentMap, e))
    {
      hide PlacedOk, Kept, CountFree, SamePlaces;
      ghost var es, vols, was := extents, volumes, log;
      SameSelf(es);
      FreeAll(v);
      volumes := volumes - {v};
      log := log - {v};
      KeepRest(es, vols, was);
      forall w: nat, i: nat, e: nat | w != v && Uses(vols, w, i, e) ensures Uses(volumes, w, i, e) {
      }
    }

    /** The loop of volume_destroy. */
    method FreeAll(v: nat)
      requires Counted() && Isolated(volumes, extents) && v in volumes
      modifies `extents, `freeExtents
      ensures Counted() && Isolated(volumes - {v}, extents) && |extents| == |old(extents)|
      ensures old(ZeroTaken()) ==> ZeroTaken()
      ensures SamePlaces(old(extents), extents)
      ensures forall i: nat, e: nat :: Uses(volumes, v, i, e) ==> e < |extents| && extents[e].state == FREE
      ensures forall e: nat :: e < |extents| ==>
                extents[e] == old(extents)[e] || (extents[e] == old(extents)[e].(state := FREE, volume := 0) && Names(volumes[v].extentMap, e))
    {
      hide CountFree, Isolated;
      var m := volumes[v].extentMap;
      ghost var left := volumes;
      assert Zeroed(m, 0) == m;
      for i := 0 to |m|
        invariant Counted() && SamePool(old(extents)) && (old(ZeroTaken()) ==> ZeroTaken())
        invariant left == volumes[v := volumes[v].(extentMap := Zeroed(m, i))] && Isolated(left, extents)
        invariant forall j :: 0 <= j < i && m[j] != 0 ==> m[j] < |extents| && extents[m[j]].state == FREE
        invariant forall e: nat :: e < |extents| ==>
                    extents[e] == old(extents)[e] || (extents[e] == old(extents)[e].(state := FREE, volume := 0) && Names(m, e))
      {
        if m[i] != 0 {
          UsedIsAllocated(left, extents, v, i, m[i]);
          ZeroStep(left, extents, v, m, i);
          left := left[v := left[v].(extentMap := Zeroed(m, i + 1))];
          FreeIsolated(left, extents, m[i], extents[m[i]].(state := FREE, volume := 0));
          FreeExtent(m[i]);
        } else {
          assert Zeroed(m, i + 1) == Zeroed(m, i);
        }
      }
      assert left - {v} == volumes - {v};
      DropIsolated(left, extents, v);
    }

    lemma UsedIsAllocated(vols: Volumes, es: seq<Extent>, v: nat, i: nat, e: nat)
      requires Isolated(vols, es) && Uses(vols, v, i, e)
      ensures e < |es| && es[e].state == ALLOCATED
    {
    }

    /** volume_resize: growing adds unallocated extents, shrinking is refused. */
    method VolumeResize(v: nat, size: nat, allocOk: bool) returns (ok: bool)
      requires Valid() && v in volumes
      modifies `volumes
      ensures Valid() && volumes.Keys == old(volumes).Keys
      ensures forall w :: w in volumes && w != v ==> volumes[w] == old(volumes)[w]
      ensures var n, n' := |old(volumes)[v].extentMap|, ExtentsFor(size);
              && (ok <==> n' == n || (n' > n && allocOk))
              && volumes[v] == (if ok && n' > n
                                then old(volumes)[v].(extentMap := old(volumes)[v].extentMap + seq(n' - n, _ => 0))
                                else old(volumes)[v])
    {
      hide PlacedOk, Kept, CountFree;
      var n, n' := |volumes[v].extentMap|, ExtentsFor(size);
      if n' == n {
        return true;
      }
      if n' < n || !allocOk {
        return false;
      }
      ghost var vols := volumes;
      var grown: seq<nat> := volumes[v].extentMap + seq(n' - n, _ => 0);
      volumes := volumes[v := volumes[v].(extentMap := grown)];
      GrowIsolated(vols, extents, v, volumes[v]);
      KeepRest(extents, vols, log);
      ok := true;
    }

    // ---- volume_submit --------------------------------------------------------------------------

    /** A read request within one extent: the bytes the volume holds there, which are the last
        ones written where any were. */
    method Read(v: nat, offset: nat, len: nat) returns (r: Result<seq<bv8>>)
      requires Valid() && v in volumes && offset % EXTENT + len <= EXTENT
      ensures r.Ok? <==> volumes[v].online && online && IndexOf(offset) < |volumes[v].extentMap|
      ensures r.Ok? ==> |r.value| == len && forall k :: 0 <= k < len ==>
                          r.value[k] == VolumeByte(volumes, extents, disks, v, Spot(offset, k))
      ensures r.Ok? ==> forall k :: 0 <= k < len && v in log && Spot(offset, k) in log[v] ==> r.value[k] == log[v][Spot(offset, k)]
    {
      hide PlacedOk, Isolated, Remembers, Counted, IndexOf, Spot;
      if !volumes[v].online || !online {
        return Failed;
      }
      var idx, at := IndexOf(offset), offset % EXTENT;
      if idx >= |volumes[v].extentMap| {
        return Failed;
      }
      var e := volumes[v].extentMap[idx];
      if e == 0 {
        r := Ok(seq(len, _ => 0));
      } else {
        UsedIsAllocated(volumes, extents, v, idx, e);
        UsedIsPlaced(extents, disks, e);
        var x := extents[e];
        r := Ok(disks[x.device][x.offset + at..x.offset + at + len]);
      }
      forall k: nat | k < len ensures r.value[k] == VolumeByte(volumes, extents, disks, v, Spot(offset, k)) {
        WithinExtent(offset, k);
      }
      forall k: nat | k < len && v in log && Spot(offset, k) in log[v] ensures r.value[k] == log[v][Spot(offset, k)] {
        ReadsBack(v, Spot(offset, k));
      }
    }

    /** A byte recorded as written is what the volume holds. */
    lemma ReadsBack(v: nat, o: nat)
      requires Valid() && v in log && o in log[v]
      ensures VolumeByte(volumes, extents, disks, v, o) == log[v][o]
    {
      assert Kept(volumes, extents, disks, v, o, log[v][o]);
    }

    /** A write request within one extent, allocating it if need be. `home` is the extent the
        bytes go to. They are kept exactly when it is not extent 0: an entry of 0 reads as
        unallocated. That happens to the one write that is given extent 0. The other bytes of the
        extent read as what the device held there before: an extent is not cleared when it is
        taken, so the rest of it reads as zero exactly where the device held a zero. */
    method Write(v: nat, offset: nat, data: seq<bv8>) returns (ok: bool, ghost home: nat)
      requires Valid() && v in volumes && offset % EXTENT + |data| <= EXTENT
      modifies this
      ensures Valid()
      ensures old(ZeroTaken()) ==> ZeroTaken()
      ensures ok <==> && old(volumes)[v].online && old(online) && IndexOf(offset) < |old(volumes)[v].extentMap|
                      && (old(volumes)[v].extentMap[IndexOf(offset)] != 0 || old(freeExtents) > 0)
      ensures !ok ==> volumes == old(volumes) && disks == old(disks) && log == old(log) && extents == old(extents)
      ensures volumes.Keys == old(volumes).Keys && forall w :: w in volumes && w != v ==> volumes[w] == old(volumes)[w]
      ensures ok ==> (home == 0 <==> old(volumes)[v].extentMap[IndexOf(offset)] == 0 && |old(extents)| > 0 && old(extents)[0].state == FREE)
      ensures ok && old(volumes)[v].extentMap[IndexOf(offset)] != 0 ==> extents == old(extents) && volumes == old(volumes) && home == old(volumes)[v].extentMap[IndexOf(offset)]
      ensures ok && old(volumes)[v].extentMap[IndexOf(offset)] == 0 ==>
                && NextFit(old(extents), old(nextExtent), home) && extents == old(extents)[home := old(extents)[home].(state := ALLOCATED)]
                && volumes[v].extentMap == old(volumes)[v].extentMap[IndexOf(offset) := home] && volumes[v].claimed == old(volumes)[v].claimed + EXTENT
      ensures ok && home != 0 ==> log == old(log)[v := Overlaid(old(log)[v], offset % SPAN, data)]
      ensures ok && home == 0 ==> ZeroTaken() && log == old(log) && forall k :: 0 <= k < |data| ==>
                                    VolumeByte(volumes, extents, disks, v, Spot(offset, k)) == 0
      ensures ok ==> |extents| == |old(extents)| && forall f: nat, k: nat :: f < |extents| && k < EXTENT ==>
                ByteOf(extents, disks, f, k) == if f == home && offset % EXTENT <= k < offset % EXTENT + |data| then data[k - offset % EXTENT]
                                                else old(ByteOf(extents, disks, f, k))
      ensures ok && home != 0 ==> forall k: nat :: k < EXTENT && !(offset % EXTENT <= k < offset % EXTENT + |data|) ==>
                                    VolumeByte(volumes, extents, disks, v, PlaceIn(offset, k)) == old(ByteOf(extents, disks, home, k))
    {
      hide CountFree, PlacedOk, Remembers, ByteOf, Isolated, Overlaid, IndexOf, Spot;
      ok, home := false, 0;
      if !volumes[v].online || !online {
        return;
      }
      var idx, at := IndexOf(offset), offset % EXTENT;
      if idx >= |volumes[v].extentMap| {
        return;
      }
      var e := volumes[v].extentMap[idx];
      if e == 0 {
        CountZero(extents);
        var r := AssignExtent(v, idx);
        if r.Failed? {
          return;
        }
        e := r.value;
      } else {
        UsedIsAllocated(volumes, extents, v, idx, e);
      }
      home := e;
      StoreBytes(v, offset, e, data);
      forall k: nat | k < EXTENT ensures VolumeByte(volumes, extents, disks, v, PlaceIn(offset, k)) == if e == 0 then 0 else ByteOf(extents, disks, e, k) {
        PlaceInIs(offset, k);
      }
      forall k: nat | k < |data| && e == 0 ensures VolumeByte(volumes, extents, disks, v, Spot(offset, k)) == 0 {
        WithinExtent(offset, k);
      }
      ok := true;
    }

    /** volume_submit's allocation on write. */
    method AssignExtent(v: nat, idx: nat) returns (r: Result<nat>)
      requires Valid() && v in volumes && idx < |volumes[v].extentMap| && volumes[v].extentMap[idx] == 0
      modifies `extents, `freeExtents, `nextExtent, `volumes
      ensures Valid()
      ensures old(ZeroTaken()) ==> ZeroTaken()
      ensures r.Ok? <==> old(freeExtents) > 0
      ensures r.Failed? ==> volumes == old(volumes) && extents == old(extents)
      ensures r.Ok? ==> && r.value < |old(extents)| && extents == old(extents)[r.value := old(extents)[r.value].(state := ALLOCATED)]
                        && NextFit(old(extents), old(nextExtent), r.value)
                        && volumes[v] == old(volumes)[v].(extentMap := volumes[v].extentMap, claimed := old(volumes)[v].claimed + EXTENT)
      ensures r.Ok? ==> && r.value < |extents| && extents[r.value].state == ALLOCATED && volumes.Keys == old(volumes).Keys && volumes[v].extentMap == old(volumes)[v].extentMap[idx := r.value]
                        && (forall w :: w in volumes && w != v ==> volumes[w] == old(volumes)[w])
                        && (r.value == 0 <==> old(extents)[0].state == FREE)
                        && forall f: nat, k: nat :: ByteOf(extents, disks, f, k) == old(ByteOf(extents, disks, f, k))
    {
      hide CountFree, PlacedOk, Kept, Isolated;
      ghost var es, vols := extents, volumes;
      CountZero(extents);
      r := AllocExtent();
      if r.Failed? {
        return;
      }
      ClaimIsolated(volumes, es, r.value);
      var vol := WithEntry(volumes[v], idx, r.value).(claimed := volumes[v].claimed + EXTENT);
      AssignIsolated(volumes, extents, v, vol, idx, r.value);
      volumes := volumes[v := vol];
      KeepRest(es, vols, log);
    }

    /** block_write to extent e at the place of `offset`. */
    method StoreBytes(v: nat, offset: nat, e: nat, data: seq<bv8>)
      requires Valid() && v in volumes && offset % EXTENT + |data| <= EXTENT
      requires IndexOf(offset) < |volumes[v].extentMap| && volumes[v].extentMap[IndexOf(offset)] == e < |extents|
      modifies `disks, `log
      ensures Valid()
      ensures log == if e == 0 then old(log) else old(log)[v := Overlaid(old(log)[v], offset % SPAN, data)]
      ensures forall f: nat, k: nat :: f < |extents| && k < EXTENT ==>
                ByteOf(extents, disks, f, k) == if f == e && offset % EXTENT <= k < offset % EXTENT + |data| then data[k - offset % EXTENT]
                                                else old(ByteOf(extents, disks, f, k))
    {
      hide CountFree, PlacedOk, Kept, ByteOf, Isolated, Overlaid, IndexOf;
      var x := extents[e];
      StorePlaced(extents, disks, e, offset % EXTENT, data);
      StoreRemembers(volumes, extents, disks, log, v, offset, e, data);
      forall f: nat, k: nat | f < |extents| && k < EXTENT {
        WriteByte(extents, disks, e, offset % EXTENT, data, f, k);
      }
      disks := disks[x.device := Splice(disks[x.device], x.offset + offset % EXTENT, data)];
      if e != 0 {
        log := log[v := Overlaid(log[v], offset % SPAN, data)];
      }
    }
  }

  /** The k-th byte of a request: offsets that agree modulo 2^32 extents are the same place. */
  function Spot(offset: nat, k: nat): nat {
    offset % SPAN + k
  }

  /** The volume offset of the k-th byte of the extent a request is for. */
  function PlaceIn(offset: nat, k: nat): nat {
    IndexOf(offset) * EXTENT + k
  }

  lemma PlaceInIs(offset: nat, k: nat)
    requires k < EXTENT
    ensures PlaceIn(offset, k) / EXTENT == IndexOf(offset) && PlaceIn(offset, k) % EXTENT == k
  {
  }

  lemma UsedIsPlaced(es: seq<Extent>, disks: Disks, e: nat)
    requires PlacedOk(es, disks) && e < |es|
    ensures es[e].device < |disks| && es[e].offset + EXTENT <= |disks[es[e].device]|
  {
  }

  /** The extent_idx of volume_submit, a 32-bit value. */
  function IndexOf(offset: nat): nat {
    offset / EXTENT % U32
  }

  lemma StorePlaced(es: seq<Extent>, disks: Disks, e: nat, at: nat, data: seq<bv8>)
    requires PlacedOk(es, disks) && e < |es| && at + |data| <= EXTENT
    ensures es[e].device < |disks| && es[e].offset + at + |data| <= |disks[es[e].device]|
    ensures PlacedOk(es, disks[es[e].device := Splice(disks[es[e].device], es[e].offset + at, data)])
  {
  }

  /** After a write the volume remembers the new bytes, and every other byte of every volume:
      what lies elsewhere in the extent and, by isolation, what lies in other extents. */
  lemma StoreRemembers(vols: Volumes, es: seq<Extent>, disks: Disks, log: Log, v: nat, offset: nat, e: nat, data: seq<bv8>)
    requires PlacedOk(es, disks) && Isolated(vols, es) && Remembers(vols, es, disks, log)
    requires v in vols && IndexOf(offset) < |vols[v].extentMap| && vols[v].extentMap[IndexOf(offset)] == e < |es|
    requires offset % EXTENT + |data| <= EXTENT
    ensures es[e].device < |disks| && es[e].offset + offset % EXTENT + |data| <= |disks[es[e].device]|
    ensures var d := es[e].device;
            var disks' := disks[d := Splice(disks[d], es[e].offset + offset % EXTENT, data)];
            var log' := if e == 0 then log else log[v := Overlaid(log[v], offset % SPAN, data)];
            Remembers(vols, es, disks', log')
  {
    hide PlacedOk, Isolated, ByteOf;
    StorePlaced(es, disks, e, offset % EXTENT, data);
    var d, at := es[e].device, offset % EXTENT;
    var disks' := disks[d := Splice(disks[d], es[e].offset + at, data)];
    var log' := if e == 0 then log else log[v := Overlaid(log[v], offset % SPAN, data)];
    forall w, o | w in log' && o in log'[w] ensures Kept(vols, es, disks', w, o, log'[w][o]) {
      if e != 0 && w == v && offset % SPAN <= o < offset % SPAN + |data| {
        WithinExtent(offset, o - offset % SPAN);
        WriteByte(es, disks, e, at, data, e, o % EXTENT);
      } else {
        if e != 0 && w == v {
          OverlaidOld(log[w], offset % SPAN, data, o);
        }
        assert Kept(vols, es, disks, w, o, log[w][o]);
        OtherByte(vols, es, disks, v, offset, e, data, w, o);
      }
    }
  }

  lemma OverlaidOld(m: map<nat, bv8>, o: nat, data: seq<bv8>, p: nat)
    requires !(o <= p < o + |data|)
    ensures p in Overlaid(m, o, data) ==> p in m && Overlaid(m, o, data)[p] == m[p]
  {
  }

  lemma OtherByte(vols: Volumes, es: seq<Extent>, disks: Disks, v: nat, offset: nat, e: nat, data: seq<bv8>, w: nat, o: nat)
    requires PlacedOk(es, disks) && Isolated(vols, es) && w in vols && v in vols
    requires IndexOf(offset) < |vols[v].extentMap| && vols[v].extentMap[IndexOf(offset)] == e < |es|
    requires offset % EXTENT + |data| <= EXTENT
    requires o / EXTENT < |vols[w].extentMap| && vols[w].extentMap[o / EXTENT] != 0
    requires !(e != 0 && w == v && offset % SPAN <= o < offset % SPAN + |data|)
    ensures es[e].device < |disks| && es[e].offset + offset % EXTENT + |data| <= |disks[es[e].device]|
    ensures var d := es[e].device;
            VolumeByte(vols, es, disks[d := Splice(disks[d], es[e].offset + offset % EXTENT, data)], w, o) == VolumeByte(vols, es, disks, w, o)
  {
    hide PlacedOk, ByteOf;
    StorePlaced(es, disks, e, offset % EXTENT, data);
    var f := vols[w].extentMap[o / EXTENT];
    assert Uses(vols, w, o / EXTENT, f);
    WriteByte(es, disks, e, offset % EXTENT, data, f, o % EXTENT);
    if f == e {
      assert Uses(vols, v, IndexOf(offset), e);
      SameSpot(offset, o);
    }
  }

  /** Within one extent, offsets differ as the places in the extent do. */
  lemma SameSpot(offset: nat, o: nat)
    requires o / EXTENT == IndexOf(offset)
    ensures o - offset % SPAN == o % EXTENT - offset % EXTENT
  {
  }

  /** The written bytes with `data` laid over them from offset o on. */
  ghost function Overlaid(m: map<nat, bv8>, o: nat, data: seq<bv8>): map<nat, bv8> {
    map p: nat | p in m.Keys + OffsetsOf(o, |data|) :: if o <= p < o + |data| then data[p - o] else if p in m then m[p] else 0
  }

  ghost function OffsetsOf(o: nat, n: nat): set<nat> {
    set k: nat | k < n && InData(k, n) :: o + k
  }

  predicate InData(k: nat, n: nat) { k < n }

  lemma WithinExtent(offset: nat, k: nat)
    requires offset % EXTENT + k < EXTENT
    ensures Spot(offset, k) / EXTENT == IndexOf(offset) && Spot(offset, k) % EXTENT == offset % EXTENT + k
  {
  }

  lemma NoneProvisioned(es: seq<Extent>, m: seq<nat>, id: nat)
    ensures Provisioned(es, es, m, 0, id)
  {
  }

  function WithEntry(vol: Volume, i: nat, e: nat): (r: Volume)
    requires i < |vol.extentMap|
    ensures r.extentMap == vol.extentMap[i := e] && r.online == vol.online && r.thin == vol.thin && r.claimed == vol.claimed
  {
    var m: seq<nat> := vol.extentMap;
    vol.(extentMap := m[..i] + [e] + m[i + 1..])
  }

  /** The map with its first n entries cleared. */
  ghost function Zeroed(m: seq<nat>, n: nat): seq<nat> {
    seq(|m|, j requires 0 <= j < |m| => if j < n then 0 else m[j])
  }

  lemma ZeroStep(vols: Volumes, es: seq<Extent>, v: nat, m: seq<nat>, i: nat)
    requires Isolated(vols, es) && v in vols && vols[v].extentMap == Zeroed(m, i) && i < |m| && m[i] != 0
    ensures var vols' := vols[v := vols[v].(extentMap := Zeroed(m, i + 1))];
            Isolated(vols', es) && forall w: nat, j: nat :: !Uses(vols', w, j, m[i])
  {
    var vols' := vols[v := vols[v].(extentMap := Zeroed(m, i + 1))];
    assert Uses(vols, v, i, m[i]);
    GrowIsolated(vols, es, v, vols'[v]);
    forall w: nat, j: nat ensures !Uses(vols', w, j, m[i]) {
      if Uses(vols', w, j, m[i]) {
        assert Uses(vols, w, j, m[i]);
      }
    }
  }

  lemma AddPlaced(es: seq<Extent>, ds: Disks, contents: seq<bv8>)
    requires PlacedOk(es, ds)
    ensures PlacedOk(es + NewExtents(|ds|, |contents| / EXTENT), ds + [contents])
  {
    var n := |contents| / EXTENT;
    var es', ds' := es + NewExtents(|ds|, n), ds + [contents];
    forall i | 0 <= i < |es'|
      ensures es'[i].device < |ds'| && es'[i].offset % EXTENT == 0 && es'[i].offset + EXTENT <= |ds'[es'[i].device]|
    {
      if i >= |es| {
        assert es'[i] == NewExtents(|ds|, n)[i - |es|];
      } else {
        assert es'[i] == es[i];
      }
    }
    forall i, j | 0 <= i < j < |es'| ensures es'[i].device != es'[j].device || es'[i].offset != es'[j].offset {
      if i >= |es| {
        assert es'[i] == NewExtents(|ds|, n)[i - |es|] && es'[j] == NewExtents(|ds|, n)[j - |es|];
      } else if j >= |es| {
        assert es'[i] == es[i] && es'[j] == NewExtents(|ds|, n)[j - |es|];
      }
    }
  }
}
