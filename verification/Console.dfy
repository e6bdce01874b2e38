/** The console's receive path as it runs: the ring buffer and device of
    src/virtio/virtio_console.c and the virtqueue operations of src/virtio/virtio.c it uses. */
module Console {
  import opened ConsoleQueue

  const SIZE: nat := 4096
  const U64: nat := 0x1_0000_0000_0000_0000

  datatype Option<+T> = None | Some(value: T)

  /** The place of the k-th byte of a ring that starts at h. */
  function At(h: nat, k: nat): (r: nat)
    ensures r < SIZE
  {
    (h + k) % SIZE
  }

  class RingBuffer {
    const data: array<bv8>
    var head: nat
    var tail: nat
    var count: nat

    ghost predicate Valid()
      reads this
    {
      data.Length == SIZE && head < SIZE && count <= SIZE && tail == At(head, count)
    }

    ghost function Contents(): (s: seq<bv8>)
      reads this, data
      requires Valid()
      ensures |s| == count
    {
      seq(count, (k: int) requires 0 <= k < count reads this, data => data[At(head, k)])
    }

    constructor ()
      ensures Valid() && Contents() == [] && fresh(data)
    {
      data := new bv8[SIZE];
      head, tail, count := 0, 0, 0;
    }

    /** buffer_init */
    method Clear()
      requires Valid()
      modifies this
      ensures Valid() && Contents() == []
    {
      head, tail, count := 0, 0, 0;
    }

    /** buffer_get */
    method Get() returns (r: Option<bv8>)
      requires Valid()
      modifies this
      ensures Valid()
      ensures r == if old(Contents()) == [] then None else Some(old(Contents())[0])
      ensures Contents() == if old(Contents()) == [] then [] else old(Contents())[1..]
    {
      if count == 0 {
        return None;
      }
      assert At(head, 0) == head;
      r := Some(data[head]);
      head := (head + 1) % SIZE;
      count := count - 1;
      forall k | 0 <= k < count ensures Contents()[k] == old(Contents())[k + 1] {
        WrapNext(old(head), k);
      }
    }

    /** buffer_write: takes as many bytes as there is room for. */
    method Write(bytes: seq<bv8>) returns (written: nat)
      requires Valid()
      modifies this, data
      ensures Valid() && written == Least(|bytes|, SIZE - old(count))
      ensures Contents() == old(Contents()) + bytes[..written]
    {
      written := 0;
      while written < |bytes| && count < SIZE
        invariant Valid() && written <= |bytes| && count == old(count) + written
        invariant Contents() == old(Contents()) + bytes[..written]
      {
        PutOne(bytes[written]);
        written := written + 1;
      }
    }

    /** One turn of that loop. */
    method PutOne(c: bv8)
      requires Valid() && count < SIZE
      modifies this, data
      ensures Valid() && count == old(count) + 1 && Contents() == old(Contents()) + [c]
    {
      data[tail] := c;
      tail := (tail + 1) % SIZE;
      count := count + 1;
      forall k | 0 <= k < count - 1 ensures At(head, k) != old(tail) {
        WrapApart(head, k, count - 1);
      }
    }
  }

  lemma WrapNext(h: nat, k: nat)
    ensures At((h + 1) % SIZE, k) == At(h, k + 1)
  {
  }

  lemma WrapApart(h: nat, k: nat, n: nat)
    requires k < n < SIZE
    ensures At(h, k) != At(h, n)
  {
  }

  class Virtqueue {
    var enabled: bool
    var desc: seq<Desc>
    var ring: seq<nat>
    var idx: nat
    var noInterrupt: bool
    var used: seq<Used>
    var usedIdx: nat
    var lastAvail: nat
    var lastUsed: nat

    ghost function Offered(): Offer
      reads this
    {
      Offer(enabled, desc, ring, idx)
    }

    ghost predicate Valid()
      reads this
    {
      OfferOk(Offered()) && |used| == NUM && usedIdx < U16 && lastAvail < U16 && lastUsed < U16
    }

    constructor ()
      ensures Valid() && !enabled && lastAvail == 0
    {
      enabled, noInterrupt := false, false;
      desc, ring, used := seq(NUM, _ => Desc(0, 0, false)), seq(NUM, _ => 0), seq(NUM, _ => Used(0, 0));
      idx, usedIdx, lastAvail, lastUsed := 0, 0, 0, 0;
    }

    /** virtq_pop, up to the length of the chain it reports. */
    method Pop() returns (head: Option<nat>)
      requires Valid()
      modifies `lastAvail
      ensures Valid()
      ensures !enabled || old(lastAvail) == idx ==> head == None && lastAvail == old(lastAvail)
      ensures enabled && old(lastAvail) != idx ==> head == Some(ring[old(lastAvail) % NUM]) && lastAvail == Next(old(lastAvail))
    {
      if !enabled || lastAvail == idx {
        return None;
      }
      head := Some(ring[lastAvail % NUM]);
      lastAvail := Next(lastAvail);
    }

    /** virtq_get_desc */
    method GetDesc(index: nat) returns (d: Option<Desc>)
      requires Valid()
      ensures d == if !enabled || index >= NUM then None else Some(desc[index])
    {
      if !enabled || index >= NUM {
        return None;
      }
      return Some(desc[index]);
    }

    /** virtq_push */
    method Push(head: nat, len: nat)
      requires Valid()
      modifies `used, `usedIdx, `lastUsed
      ensures Valid()
      ensures used == if enabled then old(used)[old(usedIdx) % NUM := Used(head, len)] else old(used)
      ensures usedIdx == if enabled then Next(old(usedIdx)) else old(usedIdx)
      ensures lastUsed == if enabled then Next(old(lastUsed)) else old(lastUsed)
    {
      if !enabled {
        return;
      }
      used := used[usedIdx % NUM := Used(head, len)];
      usedIdx := Next(usedIdx);
      lastUsed := Next(lastUsed);
    }
  }

  class ConsoleDevice {
    const input: RingBuffer
    const rx: Virtqueue
    var memory: Memory
    var rxChars: nat
    var interrupt: bool
    ghost var accepted: seq<bv8>
    ghost var delivered: seq<bv8>

    /** The stream invariant: since the last reset, the delivered bytes followed by the bytes
        still in the ring are the accepted bytes. */
    ghost predicate Valid()
      reads this, input, input.data, rx
    {
      && input.Valid() && rx.Valid()
      && delivered + input.Contents() == accepted
      && rxChars == |delivered| % U64
    }

    constructor ()
      ensures Valid() && accepted == [] && !rx.enabled && fresh(input) && fresh(input.data) && fresh(rx)
    {
      input := new RingBuffer();
      rx := new Virtqueue();
      memory, rxChars, interrupt, accepted, delivered := map[], 0, false, [], [];
    }

    /** virtio_console_write: accepts what fits into the ring and serves the guest. */
    method ConsoleWrite(bytes: seq<bv8>) returns (written: nat, ghost pieces: seq<Piece>)
      requires Valid()
      modifies this, input, input.data, rx
      ensures interrupt == (old(interrupt) || (rx.enabled && !rx.noInterrupt))
      ensures Valid() && written == Least(|bytes|, SIZE - old(input.count))
      ensures accepted == old(accepted) + bytes[..written]
      ensures Ran(old(rx.Offered()), old(rx.lastAvail), old(input.Contents()) + bytes[..written], pieces)
      ensures Put(old(memory), old(delivered), old(rx.used), old(rx.usedIdx), pieces)
    {
      written := input.Write(bytes);
      accepted := accepted + bytes[..written];
      assert delivered + input.Contents() == accepted;
      pieces := ProcessRx();
    }

    /** The queue-notify callback for queue 0: the guest has made buffers available. */
    method Notify() returns (ghost pieces: seq<Piece>)
      requires Valid()
      modifies this, input, rx
      ensures interrupt == (old(interrupt) || (rx.enabled && !rx.noInterrupt))
      ensures Valid() && accepted == old(accepted)
      ensures Ran(old(rx.Offered()), old(rx.lastAvail), old(input.Contents()), pieces)
      ensures Put(old(memory), old(delivered), old(rx.used), old(rx.usedIdx), pieces)
    {
      pieces := ProcessRx();
    }

    /** What the guest may do to the queue between calls: new descriptors, available entries and
        index, switching it on or off. None of it disturbs the stream. */
    method GuestSets(q: Offer, used: seq<Used>, usedIdx: nat, noInterrupt: bool)
      requires Valid() && OfferOk(q) && |used| == NUM && usedIdx < U16
      modifies rx
      ensures Valid() && rx.Offered() == q && rx.lastAvail == old(rx.lastAvail)
    {
      rx.enabled, rx.desc, rx.ring, rx.idx := q.enabled, q.desc, q.ring, q.idx;
      rx.used, rx.usedIdx, rx.noInterrupt := used, usedIdx, noInterrupt;
    }

    /** A device reset: the stream starts anew. */
    method Reset()
      requires Valid()
      modifies this, input, rx
      ensures !interrupt && rxChars == 0 && rx.lastUsed == 0 && input.count == 0
      ensures Valid() && accepted == [] && delivered == [] && !rx.enabled && rx.lastAvail == 0
    {
      rx.enabled, rx.lastAvail, rx.lastUsed := false, 0, 0;
      interrupt := false;
      input.Clear();
      rxChars, accepted, delivered := 0, [], [];
    }

    /** The ring and the queue are left as Serve says. */
    ghost predicate Ran(q: Offer, last: nat, was: seq<bv8>, pieces: seq<Piece>)
      reads this, input, input.data, rx
      requires OfferOk(q) && last < U16 && input.Valid()
    {
      Serve(q, last, was) == Served(pieces, input.Contents(), rx.lastAvail) && rx.Offered() == q
    }

    /** The pieces have been stored in guest memory and reported in the used ring. */
    ghost predicate Put(m: Memory, sent: seq<bv8>, used: seq<Used>, usedIdx: nat, pieces: seq<Piece>)
      reads this, rx
      requires |used| == NUM
    {
      && memory == Delivered(m, pieces) && delivered == sent + Bytes(pieces)
      && rx.used == Reported(used, usedIdx, pieces) && rx.usedIdx == Later(usedIdx, |pieces|)
    }

    /** process_rx */
    method ProcessRx() returns (ghost pieces: seq<Piece>)
      requires Valid()
      modifies this, input, rx
      ensures interrupt == (old(interrupt) || (rx.enabled && !rx.noInterrupt))
      ensures Valid() && accepted == old(accepted)
      ensures Ran(old(rx.Offered()), old(rx.lastAvail), old(input.Contents()), pieces)
      ensures Put(old(memory), old(delivered), old(rx.used), old(rx.usedIdx), pieces)
    {
      hide OfferOk, Serve, Reported, Delivered, Bytes, Slot, Later, Next, Pending, PendingOf, RingBuffer.Contents, RingBuffer.Valid, After;
      pieces := [];
      ghost var q, last, was := rx.Offered(), rx.lastAvail, input.Contents();
      ReportNone(memory, rx.used, rx.usedIdx);
      var more := input.count > 0;
      ServeEmpty(q, last, was);
      while more
        invariant Valid() && accepted == old(accepted) && rx.Offered() == q && interrupt == old(interrupt) && rx.noInterrupt == old(rx.noInterrupt)
        invariant Serve(q, last, was) == After(pieces, Serve(q, rx.lastAvail, input.Contents()))
        invariant Put(old(memory), old(delivered), old(rx.used), old(rx.usedIdx), pieces)
        invariant more ==> input.count > 0
        invariant !more ==> Serve(q, rx.lastAvail, input.Contents()) == Served([], input.Contents(), rx.lastAvail)
        decreases PendingOf(rx.lastAvail, q), more
      {
        ghost var piece;
        more, piece := ServeOne();
        ReportMore(old(rx.used), old(rx.usedIdx), old(memory), pieces, piece);
        AfterMore(pieces, piece, Serve(q, rx.lastAvail, input.Contents()));
        pieces := pieces + piece;
        ServeEmpty(q, rx.lastAvail, input.Contents());
        more := more && input.count > 0;
      }
      AfterEnd(pieces, input.Contents(), rx.lastAvail);
      if rx.enabled && !rx.noInterrupt {
        interrupt := true;
      }
    }

    /** One turn of its loop: takes one available entry and fills its buffer, if it has one. */
    method ServeOne() returns (more: bool, ghost piece: seq<Piece>)
      requires Valid() && input.count > 0
      modifies this, input, rx
      ensures interrupt == old(interrupt) && rx.noInterrupt == old(rx.noInterrupt)
      ensures Valid() && accepted == old(accepted) && rx.Offered() == old(rx.Offered()) && |piece| <= 1
      ensures Serve(rx.Offered(), old(rx.lastAvail), old(input.Contents())) ==
              After(piece, Serve(rx.Offered(), rx.lastAvail, input.Contents()))
      ensures !more ==> piece == [] && rx.lastAvail == old(rx.lastAvail) && Serve(rx.Offered(), rx.lastAvail, input.Contents()) == Served([], input.Contents(), rx.lastAvail)
      ensures more ==> PendingOf(rx.lastAvail, rx.Offered()) < PendingOf(old(rx.lastAvail), rx.Offered())
      ensures PutOne(old(memory), old(delivered), old(rx.used), old(rx.usedIdx), piece)
    {
      hide OfferOk, Serve, Reported, Delivered, Bytes, Store, Slot;
      ghost var q, last, was := rx.Offered(), rx.lastAvail, input.Contents();
      ServeTurn(q, last, was);
      piece, more := [], true;
      var head := rx.Pop();
      if head.None? {
        more := false;
        return;
      }
      var d := rx.GetDesc(head.value);
      if d.None? {
        return;
      }
      if d.value.write {
        var len, bytes := Fill(d.value);
        rx.Push(head.value, len);
        piece := [Piece(head.value, d.value.addr, bytes)];
      }
    }

    /** One piece, or none, has been stored and reported. */
    ghost predicate PutOne(m: Memory, sent: seq<bv8>, used: seq<Used>, usedIdx: nat, piece: seq<Piece>)
      reads this, rx
      requires |used| == NUM && |piece| <= 1
    {
      if piece == [] then memory == m && delivered == sent && rx.used == used && rx.usedIdx == usedIdx
      else var p := piece[0];
           && memory == Store(m, p.addr, p.bytes) && delivered == sent + p.bytes
           && rx.used == used[usedIdx % NUM := Used(p.head, |p.bytes|)] && rx.usedIdx == Next(usedIdx)
    }

    /** The inner loop: moves bytes from the ring to one buffer. */
    method Fill(d: Desc) returns (len: nat, ghost bytes: seq<bv8>)
      requires Valid()
      modifies this, input
      ensures interrupt == old(interrupt) && rx.noInterrupt == old(rx.noInterrupt)
      ensures Valid() && accepted == old(accepted) && len == |bytes| == Least(d.len, old(input.count))
      ensures bytes == old(input.Contents())[..len] && input.Contents() == old(input.Contents())[len..]
      ensures memory == Store(old(memory), d.addr, bytes) && delivered == old(delivered) + bytes
    {
      hide OfferOk, Store;
      StoreNone(memory, d.addr);
      len, bytes := 0, [];
      ghost var was := input.Contents();
      while len < d.len && input.count > 0
        invariant interrupt == old(interrupt)
        invariant Valid() && accepted == old(accepted) && len == |bytes| && len <= d.len && len <= |was|
        invariant bytes == was[..len] && input.Contents() == was[len..]
        invariant memory == Store(old(memory), d.addr, bytes) && delivered == old(delivered) + bytes
      {
        StoreOne(old(memory), d.addr, bytes, was[len]);
        MoveOne(d.addr + len);
        bytes := bytes + [was[len]];
        len := len + 1;
      }
    }

    /** One turn of the inner loop. */
    method MoveOne(a: nat)
      requires Valid() && input.count > 0
      modifies this, input
      ensures interrupt == old(interrupt) && rx.noInterrupt == old(rx.noInterrupt)
      ensures Valid() && accepted == old(accepted) && input.Contents() == old(input.Contents())[1..]
      ensures memory == old(memory)[a := old(input.Contents())[0]] && delivered == old(delivered) + [old(input.Contents())[0]]
    {
      hide OfferOk, RingBuffer.Contents, RingBuffer.Valid, Virtqueue.Valid, Virtqueue.Offered;
      ghost var was := input.Contents();
      assert |was| == input.count;
      StreamStep(delivered, was, accepted, rxChars);
      var c := input.Get();
      memory := memory[a := c.value];
      rxChars := (rxChars + 1) % U64;
      delivered := delivered + [c.value];
    }
  }

  lemma StreamStep(delivered: seq<bv8>, was: seq<bv8>, accepted: seq<bv8>, chars: nat)
    requires was != [] && delivered + was == accepted && chars == |delivered| % U64
    ensures delivered + [was[0]] + was[1..] == accepted && (chars + 1) % U64 == |delivered + [was[0]]| % U64
  {
    assert was == [was[0]] + was[1..];
  }

  function After(ps: seq<Piece>, r: Served): Served {
    r.(pieces := ps + r.pieces)
  }

  ghost function PendingOf(last: nat, q: Offer): nat {
    if last < U16 && q.idx < U16 then Pending(last, q.idx) else 0
  }

  lemma ServeEmpty(q: Offer, last: nat, input: seq<bv8>)
    requires OfferOk(q) && last < U16
    ensures input == [] ==> Serve(q, last, input) == Served([], input, last)
    ensures Serve(q, last, input) == After([], Serve(q, last, input))
  {
  }

  /** Serve, one available entry at a time. */
  lemma ServeTurn(q: Offer, last: nat, input: seq<bv8>)
    requires OfferOk(q) && last < U16 && input != []
    ensures !q.enabled || last == q.idx ==> Serve(q, last, input) == Served([], input, last)
    ensures q.enabled && last != q.idx ==>
              && PendingOf(Next(last), q) < PendingOf(last, q)
              && var head := q.ring[last % NUM];
                 if head < NUM && q.desc[head].write
                 then var n := Least(q.desc[head].len, |input|);
                      Serve(q, last, input) == After([Piece(head, q.desc[head].addr, input[..n])], Serve(q, Next(last), input[n..]))
                 else Serve(q, last, input) == After([], Serve(q, Next(last), input))
    ensures Serve(q, last, input) == After([], Serve(q, last, input))
  {
    hide OfferOk;
    if q.enabled && last != q.idx {
      OneFewer(q, last);
    }
    assert Serve(q, Next(last), input) == After([], Serve(q, Next(last), input));
  }

  lemma OneFewer(q: Offer, last: nat)
    requires OfferOk(q) && last < U16 && last != q.idx
    ensures Next(last) < U16 && PendingOf(Next(last), q) < PendingOf(last, q)
  {
  }

  lemma AfterEnd(ps: seq<Piece>, rest: seq<bv8>, last: nat)
    ensures After(ps, Served([], rest, last)) == Served(ps, rest, last)
  {
    assert ps + [] == ps;
  }

  lemma AfterMore(ps: seq<Piece>, piece: seq<Piece>, r: Served)
    ensures After(ps, After(piece, r)) == After(ps + piece, r)
  {
    assert ps + (piece + r.pieces) == (ps + piece) + r.pieces;
  }

  /** The 16-bit index n entries on. */
  function Later(idx: nat, n: nat): nat { (idx + n) % U16 }

  lemma ReportNone(m: Memory, used: seq<Used>, idx: nat)
    requires |used| == NUM && idx < U16
    ensures Reported(used, idx, []) == used && Delivered(m, []) == m && Bytes([]) == [] && Later(idx, 0) == idx
  {
  }

  lemma ReportMore(used: seq<Used>, idx: nat, m: Memory, ps: seq<Piece>, piece: seq<Piece>)
    requires |used| == NUM && idx < U16 && |piece| <= 1
    ensures Bytes(ps + piece) == Bytes(ps) + (if piece == [] then [] else piece[0].bytes)
    ensures piece != [] ==> && Reported(used, idx, ps + piece) == Reported(used, idx, ps)[Later(idx, |ps|) % NUM := Used(piece[0].head, |piece[0].bytes|)]
                            && Delivered(m, ps + piece) == Store(Delivered(m, ps), piece[0].addr, piece[0].bytes)
    ensures piece == [] ==> ps + piece == ps
    ensures piece != [] ==> Later(idx, |ps + piece|) == Next(Later(idx, |ps|))
  {
    hide Later, Next, Slot, Reported, Delivered, Bytes, Store;
    BytesAppend(ps, piece);
    if piece == [] {
      BytesFew(piece);
    } else {
      assert piece == [piece[0]];
      BytesFew(piece);
      ReportLast(used, idx, m, ps + piece);
      assert (ps + piece)[..|ps|] == ps;
      LaterNext(idx, |ps|);
    }
  }

  lemma BytesFew(piece: seq<Piece>)
    requires |piece| <= 1
    ensures Bytes(piece) == if piece == [] then [] else piece[0].bytes
  {
  }

  lemma ReportLast(used: seq<Used>, idx: nat, m: Memory, ps: seq<Piece>)
    requires |used| == NUM && ps != []
    ensures var n := |ps| - 1;
            && Reported(used, idx, ps) == Reported(used, idx, ps[..n])[Slot(idx, n) := Used(ps[n].head, |ps[n].bytes|)]
            && Delivered(m, ps) == Store(Delivered(m, ps[..n]), ps[n].addr, ps[n].bytes)
  {
    hide Slot, Store;
  }

  lemma LaterNext(idx: nat, n: nat)
    ensures Later(idx, n + 1) == Next(Later(idx, n)) && Slot(idx, n) == Later(idx, n) % NUM
  {
  }

  lemma StoreNone(m: Memory, a: nat)
    ensures Store(m, a, []) == m
  {
  }

  lemma StoreOne(m: Memory, a: nat, bytes: seq<bv8>, c: bv8)
    ensures Store(m, a, bytes + [c]) == Store(m, a, bytes)[a + |bytes| := c]
  {
    assert (bytes + [c])[..|bytes|] == bytes;
  }
}
