/** The receive side of the virtio console on values: what one run of process_rx
    (src/virtio/virtio_console.c) takes from the ring, puts into guest buffers and reports in
    the used ring. Queue indices are 16-bit and wrap. */
module ConsoleQueue {

  const U16: nat := 0x1_0000
  const NUM: nat := 256

  datatype Desc = Desc(addr: nat, len: nat, write: bool)

  datatype Used = Used(id: nat, len: nat)

  /** What the guest offers: descriptor table, available ring and its index. */
  datatype Offer = Offer(enabled: bool, desc: seq<Desc>, ring: seq<nat>, idx: nat)

  predicate OfferOk(q: Offer) {
    && |q.desc| == NUM && |q.ring| == NUM && q.idx < U16
    && forall i :: 0 <= i < NUM ==> q.ring[i] < U16
  }

  /** The bytes put into one guest buffer. */
  datatype Piece = Piece(head: nat, addr: nat, bytes: seq<bv8>)

  type Memory = map<nat, bv8>

  function Next(i: nat): nat { (i + 1) % U16 }

  /** The number of available-ring entries not yet taken. */
  function Pending(last: nat, idx: nat): nat
    requires last < U16 && idx < U16
  {
    if idx >= last then idx - last else idx + U16 - last
  }

  datatype Served = Served(pieces: seq<Piece>, rest: seq<bv8>, last: nat)

  /** Whether this entry of the available ring can take bytes; others are skipped. */
  predicate Takes(q: Offer, last: nat)
    requires OfferOk(q)
  {
    q.ring[last % NUM] < NUM && q.desc[q.ring[last % NUM]].write
  }

  function Least(a: nat, b: nat): nat { if a <= b then a else b }

  function Serve(q: Offer, last: nat, input: seq<bv8>): Served
    requires OfferOk(q) && last < U16
    decreases Pending(last, q.idx)
  {
    if input == [] || !q.enabled || last == q.idx then Served([], input, last)
    else if !Takes(q, last) then Serve(q, Next(last), input)
    else
      var head := q.ring[last % NUM];
      var n := Least(q.desc[head].len, |input|);
      var r := Serve(q, Next(last), input[n..]);
      Served([Piece(head, q.desc[head].addr, input[..n])] + r.pieces, r.rest, r.last)
  }

  function Bytes(ps: seq<Piece>): seq<bv8> {
    if ps == [] then [] else ps[0].bytes + Bytes(ps[1..])
  }

  lemma {:induction false} BytesAppend(a: seq<Piece>, b: seq<Piece>)
    ensures Bytes(a + b) == Bytes(a) + Bytes(b)
  {
    if a == [] {
      assert a + b == b;
    } else {
      assert (a + b)[1..] == a[1..] + b;
      BytesAppend(a[1..], b);
    }
  }

  /** No byte is lost, duplicated or reordered: the pieces followed by what stays in the ring are
      the input. */
  lemma {:induction false} StreamKept(q: Offer, last: nat, input: seq<bv8>)
    requires OfferOk(q) && last < U16
    ensures var r := Serve(q, last, input); Bytes(r.pieces) + r.rest == input && r.last < U16
    decreases Pending(last, q.idx)
  {
    if input == [] || !q.enabled || last == q.idx {
    } else if !Takes(q, last) {
      StreamKept(q, Next(last), input);
    } else {
      var n := Least(q.desc[q.ring[last % NUM]].len, |input|);
      StreamKept(q, Next(last), input[n..]);
      var r := Serve(q, Next(last), input[n..]);
      var p := Piece(q.ring[last % NUM], q.desc[q.ring[last % NUM]].addr, input[..n]);
      assert ([p] + r.pieces)[1..] == r.pieces;
      assert input == input[..n] + input[n..];
    }
  }

  /** The device stops for one of two reasons: the ring is empty, or nothing more is available
      (or the queue is off). It takes at most as many entries as the guest made available. */
  lemma {:induction false} ServesAll(q: Offer, last: nat, input: seq<bv8>)
    requires OfferOk(q) && last < U16
    ensures var r := Serve(q, last, input);
            && r.last < U16 && (r.rest == [] || !q.enabled || r.last == q.idx)
            && Pending(r.last, q.idx) + |r.pieces| <= Pending(last, q.idx)
    decreases Pending(last, q.idx)
  {
    if input == [] || !q.enabled || last == q.idx {
    } else if !Takes(q, last) {
      ServesAll(q, Next(last), input);
    } else {
      ServesAll(q, Next(last), input[Least(q.desc[q.ring[last % NUM]].len, |input|)..]);
    }
  }

  /** Each piece goes to the buffer of an available descriptor, in the order of the available
      ring, and every buffer but the last is filled completely, and the last one too if bytes
      are left over. */
  lemma {:induction false} PiecesFit(q: Offer, last: nat, input: seq<bv8>, j: nat)
    requires OfferOk(q) && last < U16 && j < |Serve(q, last, input).pieces|
    ensures var p := Serve(q, last, input).pieces[j];
            && p.head < NUM && q.desc[p.head].write && p.addr == q.desc[p.head].addr && |p.bytes| <= q.desc[p.head].len
            && (j + 1 < |Serve(q, last, input).pieces| || Serve(q, last, input).rest != [] ==> |p.bytes| == q.desc[p.head].len)
    decreases Pending(last, q.idx)
  {
    if !Takes(q, last) {
      PiecesFit(q, Next(last), input, j);
    } else {
      var n := Least(q.desc[q.ring[last % NUM]].len, |input|);
      if j > 0 {
        PiecesFit(q, Next(last), input[n..], j - 1);
      } else {
        StreamKept(q, Next(last), input[n..]);
      }
    }
  }

  /** The device takes no entry more than it needs: without bytes it takes none, and when the bytes
      have run out the entry taken last is the one that got the last of them. */
  lemma {:induction false} StopsAtOnce(q: Offer, last: nat, input: seq<bv8>)
    requires OfferOk(q) && last < U16
    ensures var r := Serve(q, last, input);
            && (input == [] ==> r == Served([], [], last))
            && (input != [] && r.rest == [] ==>
                  && r.pieces != [] && r.pieces[|r.pieces| - 1].bytes != []
                  && r.last < U16 && q.ring[(if r.last == 0 then 0xFFFF else r.last - 1) % 256] == r.pieces[|r.pieces| - 1].head)
    decreases Pending(last, q.idx)
  {
    if input == [] || !q.enabled || last == q.idx {
    } else if !Takes(q, last) {
      StopsAtOnce(q, Next(last), input);
    } else {
      StopsAtOnce(q, Next(last), input[Least(q.desc[q.ring[last % NUM]].len, |input|)..]);
    }
  }

  /** The heads of the available entries that name a writable descriptor in range, in order. */
  function Heads(q: Offer, last: nat): seq<nat>
    requires OfferOk(q) && last < U16
    decreases Pending(last, q.idx)
  {
    if last == q.idx then []
    else
      var head := q.ring[last % 256];
      (if head < 256 && q.desc[head].write then [head] else []) + Heads(q, if last == 0xFFFF then 0 else last + 1)
  }

  lemma NextIs(i: nat)
    requires i < U16
    ensures Next(i) == if i == 0xFFFF then 0 else i + 1
  {
  }

  function PieceHeads(ps: seq<Piece>): seq<nat> {
    seq(|ps|, (i: int) requires 0 <= i < |ps| => ps[i].head)
  }

  /** The entries served are the first of those, none twice and none left out. */
  lemma {:induction false} ServedInOrder(q: Offer, last: nat, input: seq<bv8>)
    requires OfferOk(q) && last < U16
    ensures PieceHeads(Serve(q, last, input).pieces) <= Heads(q, last)
    ensures q.enabled && Serve(q, last, input).rest != [] ==> PieceHeads(Serve(q, last, input).pieces) == Heads(q, last)
    decreases Pending(last, q.idx)
  {
    hide Next, Bytes;
    NextIs(last);
    if input == [] || !q.enabled || last == q.idx {
      assert PieceHeads([]) == [];
    } else if !Takes(q, last) {
      ServedInOrder(q, Next(last), input);
      assert [] + Heads(q, Next(last)) == Heads(q, Next(last));
    } else {
      var head := q.ring[last % NUM];
      var n := Least(q.desc[head].len, |input|);
      ServedInOrder(q, Next(last), input[n..]);
      var r := Serve(q, Next(last), input[n..]);
      assert PieceHeads([Piece(head, q.desc[head].addr, input[..n])] + r.pieces) == [head] + PieceHeads(r.pieces);
    }
  }

  // ---- the used ring and guest memory -------------------------------------------------------------

  /** The ring slot of the j-th entry from index idx on. */
  function Slot(idx: nat, j: nat): (r: nat)
    ensures r < NUM
  {
    (idx + j) % U16 % NUM
  }

  lemma SlotIs(idx: nat, j: nat)
    ensures Slot(idx, j) == (idx + j) % NUM
  {
  }

  lemma SlotsDiffer(idx: nat, j: nat, k: nat)
    requires j < k < j + NUM
    ensures Slot(idx, j) != Slot(idx, k)
  {
    hide Slot;
    SlotIs(idx, j);
    SlotIs(idx, k);
  }

  /** The used ring after the pieces have been reported from index idx on. */
  function Reported(used: seq<Used>, idx: nat, ps: seq<Piece>): (r: seq<Used>)
    requires |used| == NUM
    ensures |r| == NUM
  {
    if ps == [] then used
    else var n := |ps| - 1;
         Reported(used, idx, ps[..n])[Slot(idx, n) := Used(ps[n].head, |ps[n].bytes|)]
  }

  /** A guest that offers at most 256 buffers finds each of them reported once, in order, with
      its number of bytes, also where the 16-bit index wraps. */
  lemma {:induction false} ReportedInOrder(used: seq<Used>, idx: nat, ps: seq<Piece>, j: nat)
    requires |used| == NUM && j < |ps| <= NUM
    ensures Reported(used, idx, ps)[Slot(idx, j)] == Used(ps[j].head, |ps[j].bytes|)
  {
    hide Slot;
    var n := |ps| - 1;
    if j < n {
      ReportedInOrder(used, idx, ps[..n], j);
      SlotsDiffer(idx, j, n);
    }
  }

  /** No other slot of the used ring is touched. */
  lemma {:induction false} ReportedElsewhere(used: seq<Used>, idx: nat, ps: seq<Piece>, t: nat)
    requires |used| == NUM && t < NUM && forall j :: 0 <= j < |ps| ==> Slot(idx, j) != t
    ensures Reported(used, idx, ps)[t] == used[t]
  {
    hide Slot;
    if ps != [] {
      ReportedElsewhere(used, idx, ps[..|ps| - 1], t);
    }
  }

  /** Guest memory after the bytes have been stored at a. */
  function Store(m: Memory, a: nat, bytes: seq<bv8>): (r: Memory) {
    if bytes == [] then m
    else var n := |bytes| - 1; Store(m, a, bytes[..n])[a + n := bytes[n]]
  }

  lemma {:induction false} StoreIs(m: Memory, a: nat, bytes: seq<bv8>, x: nat)
    ensures var r := Store(m, a, bytes);
            if a <= x < a + |bytes| then x in r && r[x] == bytes[x - a]
            else (x in r <==> x in m) && (x in m ==> r[x] == m[x])
  {
    if bytes != [] {
      var n := |bytes| - 1;
      StoreIs(m, a, bytes[..n], x);
    }
  }

  function Delivered(m: Memory, ps: seq<Piece>): Memory {
    if ps == [] then m
    else var n := |ps| - 1; Store(Delivered(m, ps[..n]), ps[n].addr, ps[n].bytes)
  }

  /** No byte outside the pieces is written. */
  lemma {:induction false} DeliveredElsewhere(m: Memory, ps: seq<Piece>, x: nat)
    requires forall j :: 0 <= j < |ps| ==> !(ps[j].addr <= x < ps[j].addr + |ps[j].bytes|)
    ensures (x in Delivered(m, ps) <==> x in m) && (x in m ==> Delivered(m, ps)[x] == m[x])
  {
    if ps != [] {
      var n := |ps| - 1;
      DeliveredElsewhere(m, ps[..n], x);
      StoreIs(Delivered(m, ps[..n]), ps[n].addr, ps[n].bytes, x);
    }
  }

  predicate Apart(p: Piece, q: Piece) {
    p.addr + |p.bytes| <= q.addr || q.addr + |q.bytes| <= p.addr
  }

  /** No two pieces overlap. */
  ghost predicate AllApart(ps: seq<Piece>) {
    forall i, j :: 0 <= i < j < |ps| ==> Apart(ps[i], ps[j])
  }

  /** What the guest reads at address a. */
  function Load(m: Memory, a: nat, n: nat): seq<bv8> {
    seq(n, (k: int) requires 0 <= k < n => if a + k in m then m[a + k] else 0)
  }

  /** The guest finds in each buffer the bytes of its piece, provided no later piece overlaps it. */
  lemma {:induction false} GuestReads(m: Memory, ps: seq<Piece>, j: nat)
    requires j < |ps| && forall i :: j < i < |ps| ==> Apart(ps[j], ps[i])
    ensures Load(Delivered(m, ps), ps[j].addr, |ps[j].bytes|) == ps[j].bytes
  {
    var n := |ps| - 1;
    var m' := Delivered(m, ps[..n]);
    if j < n {
      assert ps[..n][j] == ps[j];
      GuestReads(m, ps[..n], j);
    }
    forall k | 0 <= k < |ps[j].bytes|
      ensures Load(Delivered(m, ps), ps[j].addr, |ps[j].bytes|)[k] == ps[j].bytes[k]
    {
      StoreIs(m', ps[n].addr, ps[n].bytes, ps[j].addr + k);
      if j < n {
        assert Apart(ps[j], ps[n]);
        assert Load(m', ps[j].addr, |ps[j].bytes|)[k] == ps[j].bytes[k];
      }
    }
  }

  /** The bytes a guest collects from the buffers, in the order they were reported. */
  function Collected(m: Memory, ps: seq<Piece>): seq<bv8> {
    if ps == [] then []
    else var n := |ps| - 1; Collected(m, ps[..n]) + Load(m, ps[n].addr, |ps[n].bytes|)
  }

  lemma {:induction false} CollectedIs(m: Memory, ps: seq<Piece>, k: nat)
    requires k <= |ps| && AllApart(ps)
    ensures Collected(Delivered(m, ps), ps[..k]) == Bytes(ps[..k])
  {
    hide Collected, Delivered, Bytes, Load, Apart;
    if k == 0 {
      NothingCollected(Delivered(m, ps));
    } else {
      var before, p := ps[..k - 1], ps[k - 1];
      CollectedIs(m, ps, k - 1);
      GuestReads(m, ps, k - 1);
      assert ps[..k] == before + [p];
      CollectOne(Delivered(m, ps), before, p);
    }
  }

  lemma NothingCollected(m: Memory)
    ensures Collected(m, []) == Bytes([])
  {
  }

  lemma CollectOne(m: Memory, ps: seq<Piece>, p: Piece)
    ensures Collected(m, ps + [p]) == Collected(m, ps) + Load(m, p.addr, |p.bytes|)
    ensures Bytes(ps + [p]) == Bytes(ps) + p.bytes
  {
    hide Load;
    assert (ps + [p])[..|ps|] == ps;
    BytesAppend(ps, [p]);
  }

  /** End to end: with buffers that do not overlap, what the guest collects from memory followed
      by what stays in the ring is what was in the ring before. */
  lemma GuestGetsStream(q: Offer, last: nat, input: seq<bv8>, m: Memory)
    requires OfferOk(q) && last < U16
    requires AllApart(Serve(q, last, input).pieces)
    ensures var r := Serve(q, last, input); Collected(Delivered(m, r.pieces), r.pieces) + r.rest == input
  {
    var ps := Serve(q, last, input).pieces;
    CollectedIs(m, ps, |ps|);
    assert ps[..|ps|] == ps;
    StreamKept(q, last, input);
  }
}
