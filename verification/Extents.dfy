/** The extents of a storage pool (src/storage/pool.c): states, placement on the devices,
    and the count of free ones. */
module Extents {

  const EXTENT: nat := 0x40_0000

  datatype ExtentState = FREE | ALLOCATED

  datatype Extent = Extent(state: ExtentState, volume: nat, device: nat, offset: nat)

  function CountFree(es: seq<Extent>): nat {
    if es == [] then 0
    else CountFree(es[..|es| - 1]) + (if es[|es| - 1].state == FREE then 1 else 0)
  }

  lemma {:induction false} CountUpdate(es: seq<Extent>, i: nat, e: Extent)
    requires i < |es|
    ensures CountFree(es[i := e]) ==
            CountFree(es) - (if es[i].state == FREE then 1 else 0) + (if e.state == FREE then 1 else 0)
  {
    var n := |es| - 1;
    if i < n {
      CountUpdate(es[..n], i, e);
      assert es[i := e][..n] == es[..n][i := e];
    } else {
      assert es[i := e][..n] == es[..n];
    }
  }

  lemma {:induction false} CountAppend(es: seq<Extent>, more: seq<Extent>)
    ensures CountFree(es + more) == CountFree(es) + CountFree(more)
  {
    if more == [] {
      assert es + more == es;
    } else {
      var n := |more| - 1;
      assert (es + more)[..|es + more| - 1] == es + more[..n];
      CountAppend(es, more[..n]);
    }
  }

  /** The count says whether there is a free extent. */
  lemma {:induction false} CountZero(es: seq<Extent>)
    ensures CountFree(es) == 0 <==> forall i :: 0 <= i < |es| ==> es[i].state != FREE
    ensures CountFree(es) <= |es|
  {
    if es != [] {
      var n := |es| - 1;
      CountZero(es[..n]);
      assert forall i :: 0 <= i < n ==> es[..n][i] == es[i];
    }
  }

  /** The extents pool_add_device makes of a device of n whole extents. */
  function NewExtents(device: nat, n: nat): (r: seq<Extent>)
    ensures |r| == n && forall i :: 0 <= i < n ==> r[i] == Extent(FREE, 0, device, i * EXTENT)
  {
    seq(n, (i: nat) => Extent(FREE, 0, device, i * EXTENT))
  }

  lemma {:induction false} CountNew(device: nat, n: nat)
    ensures CountFree(NewExtents(device, n)) == n
  {
    if n > 0 {
      CountNew(device, n - 1);
      assert NewExtents(device, n)[..n - 1] == NewExtents(device, n - 1);
    }
  }

  // ---- contents of the devices ------------------------------------------------------------

  type Disks = seq<seq<bv8>>

  /** Every extent lies within its device, and no two share a byte. */
  ghost predicate PlacedOk(es: seq<Extent>, disks: Disks) {
    && (forall i :: 0 <= i < |es| ==>
          es[i].device < |disks| && es[i].offset % EXTENT == 0 && es[i].offset + EXTENT <= |disks[es[i].device]|)
    && (forall i, j :: 0 <= i < j < |es| ==> es[i].device != es[j].device || es[i].offset != es[j].offset)
  }

  /** The byte at position k of extent e. */
  function ByteOf(es: seq<Extent>, disks: Disks, e: nat, k: nat): bv8 {
    if e < |es| && es[e].device < |disks| && es[e].offset + k < |disks[es[e].device]|
    then disks[es[e].device][es[e].offset + k] else 0
  }

  function Splice(s: seq<bv8>, at: nat, data: seq<bv8>): (r: seq<bv8>)
    requires at + |data| <= |s|
    ensures |r| == |s|
    ensures forall k :: 0 <= k < |s| ==> r[k] == if at <= k < at + |data| then data[k - at] else s[k]
  {
    s[..at] + data + s[at + |data|..]
  }

  /** Writing within one extent changes these bytes of it and no byte of another extent. */
  lemma WriteByte(es: seq<Extent>, disks: Disks, e: nat, at: nat, data: seq<bv8>, f: nat, k: nat)
    requires PlacedOk(es, disks) && e < |es| && f < |es| && at + |data| <= EXTENT && k < EXTENT
    ensures var d := es[e].device;
            var disks' := disks[d := Splice(disks[d], es[e].offset + at, data)];
            ByteOf(es, disks', f, k) ==
            if f == e && at <= k < at + |data| then data[k - at] else ByteOf(es, disks, f, k)
  {
    if f != e && es[f].device == es[e].device {
      ApartOffsets(es[e].offset, es[f].offset);
    }
  }

  lemma ApartOffsets(a: nat, b: nat)
    requires a % EXTENT == 0 && b % EXTENT == 0 && a != b
    ensures a + EXTENT <= b || b + EXTENT <= a
  {
  }
}
