/** The address-sorted, doubly linked free list of src/mm/heap.c, threaded through the
    block headers. Each lemma is about the headers before and after one operation. */
module HeapList {

  const NULL: nat := 0

  datatype Header = Header(magic: nat, size: nat, free: bool, next: nat, prev: nat)

  type Memory = map<nat, Header>

  ghost predicate NodeOk(h: Memory, l: seq<nat>, i: nat)
    requires i < |l| && l[i] in h
  {
    && h[l[i]].next == (if i + 1 < |l| then l[i + 1] else NULL)
    && h[l[i]].prev == (if i > 0 then l[i - 1] else NULL)
  }

  ghost predicate Sorted(l: seq<nat>) {
    forall i, j :: 0 <= i < j < |l| ==> l[i] < l[j]
  }

  /** The headers from `head` on represent exactly l, strictly sorted by address. */
  ghost predicate ListOk(h: Memory, head: nat, l: seq<nat>) {
    && head == (if l == [] then NULL else l[0])
    && (forall i :: 0 <= i < |l| ==> l[i] in h && l[i] != NULL && h[l[i]].free)
    && (forall i :: 0 <= i < |l| ==> NodeOk(h, l, i))
    && Sorted(l)
  }

  /** Changing headers off the list, or anything but links and the free mark, keeps it. */
  lemma ListFrame(h: Memory, h': Memory, head: nat, l: seq<nat>)
    requires ListOk(h, head, l)
    requires forall b :: b in l ==> b in h' && h'[b].free && h'[b].next == h[b].next && h'[b].prev == h[b].prev
    ensures ListOk(h', head, l)
  {
    forall i | 0 <= i < |l| ensures NodeOk(h', l, i) {
      assert l[i] in l && NodeOk(h, l, i);
    }
  }

  lemma Neighbours(h: Memory, head: nat, l: seq<nat>, i: nat)
    requires ListOk(h, head, l) && i < |l|
    ensures h[l[i]].prev == (if i > 0 then l[i - 1] else NULL)
    ensures h[l[i]].next == (if i + 1 < |l| then l[i + 1] else NULL)
    ensures i > 0 ==> l[i - 1] != NULL && l[i - 1] < l[i]
    ensures i + 1 < |l| ==> l[i + 1] != NULL && l[i] < l[i + 1]
  {
    assert NodeOk(h, l, i);
  }

  // ---- insertion ---------------------------------------------------------------------

  /** The writes of free_list_add between the neighbours prev and next. */
  function Linked(h: Memory, b: nat, prev: nat, next: nat): Memory
    requires b in h && (prev != NULL ==> prev in h) && (next != NULL ==> next in h)
  {
    var h1 := h[b := h[b].(free := true, next := next, prev := prev)];
    var h2 := if next != NULL then h1[next := h1[next].(prev := b)] else h1;
    if prev != NULL then h2[prev := h2[prev].(next := b)] else h2
  }

  function Insert(l: seq<nat>, k: nat, b: nat): seq<nat>
    requires k <= |l|
  {
    l[..k] + [b] + l[k..]
  }

  lemma InsertOk(h: Memory, head: nat, l: seq<nat>, k: nat, b: nat)
    requires ListOk(h, head, l) && k <= |l| && b in h && b != NULL
    requires forall i :: 0 <= i < k ==> l[i] < b
    requires forall i :: k <= i < |l| ==> b < l[i]
    ensures var prev, next := if k > 0 then l[k - 1] else NULL, if k < |l| then l[k] else NULL;
            ListOk(Linked(h, b, prev, next), if k > 0 then head else b, Insert(l, k, b))
  {
    hide Linked, NodeOk, Insert;
    var prev, next := if k > 0 then l[k - 1] else NULL, if k < |l| then l[k] else NULL;
    var h', l' := Linked(h, b, prev, next), Insert(l, k, b);
    InsertSorted(l, k, b);
    forall i | 0 <= i < |l'| ensures l'[i] in h' && l'[i] != NULL && h'[l'[i]].free && NodeOk(h', l', i) {
      InsertNode(h, head, l, k, b, i);
    }
  }

  lemma InsertSorted(l: seq<nat>, k: nat, b: nat)
    requires Sorted(l) && k <= |l|
    requires forall i :: 0 <= i < k ==> l[i] < b
    requires forall i :: k <= i < |l| ==> b < l[i]
    ensures Sorted(Insert(l, k, b)) && |Insert(l, k, b)| == |l| + 1
    ensures Insert(l, k, b)[0] == if k > 0 then l[0] else b
  {
  }

  lemma InsertNode(h: Memory, head: nat, l: seq<nat>, k: nat, b: nat, i: nat)
    requires ListOk(h, head, l) && k <= |l| && b in h && b != NULL && i <= |l|
    requires forall j :: 0 <= j < k ==> l[j] < b
    requires forall j :: k <= j < |l| ==> b < l[j]
    ensures var prev, next := if k > 0 then l[k - 1] else NULL, if k < |l| then l[k] else NULL;
            var h', l' := Linked(h, b, prev, next), Insert(l, k, b);
            l'[i] in h' && l'[i] != NULL && h'[l'[i]].free && NodeOk(h', l', i)
  {
    var l' := Insert(l, k, b);
    if i < k {
      assert l'[i] == l[i] && NodeOk(h, l, i);
      assert i + 1 < k ==> l'[i + 1] == l[i + 1];
    } else if i > k {
      assert l'[i] == l[i - 1] && NodeOk(h, l, i - 1);
      assert i < |l| ==> l'[i + 1] == l[i];
      assert i - 1 > k ==> l'[i - 1] == l[i - 2];
    }
  }

  // ---- removal ------------------------------------------------------------------------

  function Without(l: seq<nat>, i: nat): seq<nat>
    requires i < |l|
  {
    l[..i] + l[i + 1..]
  }

  /** The writes that make prev and next neighbours. */
  function Bridged(h: Memory, prev: nat, next: nat): Memory
    requires (prev != NULL ==> prev in h) && (next != NULL ==> next in h)
  {
    var h1 := if prev != NULL then h[prev := h[prev].(next := next)] else h;
    if next != NULL then h1[next := h1[next].(prev := prev)] else h1
  }

  lemma BridgeOk(h: Memory, head: nat, l: seq<nat>, i: nat)
    requires ListOk(h, head, l) && i < |l|
    ensures var prev, next := if i > 0 then l[i - 1] else NULL, if i + 1 < |l| then l[i + 1] else NULL;
            ListOk(Bridged(h, prev, next), if i > 0 then head else next, Without(l, i))
  {
    var prev, next := if i > 0 then l[i - 1] else NULL, if i + 1 < |l| then l[i + 1] else NULL;
    var h', l' := Bridged(h, prev, next), Without(l, i);
    forall j | 0 <= j < |l'| ensures l'[j] in h' && l'[j] != NULL && h'[l'[j]].free && NodeOk(h', l', j) {
      BridgeNode(h, head, l, i, j);
    }
  }

  lemma BridgeNode(h: Memory, head: nat, l: seq<nat>, i: nat, j: nat)
    requires ListOk(h, head, l) && i < |l| && j < |l| - 1
    ensures var prev, next := if i > 0 then l[i - 1] else NULL, if i + 1 < |l| then l[i + 1] else NULL;
            var h', l' := Bridged(h, prev, next), Without(l, i);
            l'[j] in h' && l'[j] != NULL && h'[l'[j]].free && NodeOk(h', l', j)
  {
    var l' := Without(l, i);
    if j < i {
      assert l'[j] == l[j] && NodeOk(h, l, j);
      assert j + 1 < |l'| ==> l'[j + 1] == l[if j + 1 < i then j + 1 else j + 2];
    } else {
      assert l'[j] == l[j + 1] && NodeOk(h, l, j + 1);
      assert j + 1 < |l'| ==> l'[j + 1] == l[j + 2];
      assert j > 0 ==> l'[j - 1] == l[if j - 1 < i then j - 1 else j];
    }
  }

  lemma WithoutIs(l: seq<nat>, i: nat)
    requires i < |l| && Sorted(l)
    ensures forall b :: b in Without(l, i) <==> b in l && b != l[i]
  {
    forall b | b in l && b != l[i] ensures b in Without(l, i) {
      var j :| 0 <= j < |l| && l[j] == b;
      assert Without(l, i)[if j < i then j else j - 1] == b;
    }
    forall b | b in Without(l, i) ensures b in l && b != l[i] {
      var j :| 0 <= j < |l| - 1 && Without(l, i)[j] == b;
      assert b == l[if j < i then j else j + 1];
    }
  }

  lemma InsertIs(l: seq<nat>, k: nat, b: nat)
    requires k <= |l|
    ensures forall c :: c in Insert(l, k, b) <==> c in l || c == b
  {
    forall c | c in l ensures c in Insert(l, k, b) {
      var j :| 0 <= j < |l| && l[j] == c;
      assert Insert(l, k, b)[if j < k then j else j + 1] == c;
    }
    assert Insert(l, k, b)[k] == b;
  }

  /** The headers differ at most in their links, and in whether b is free. */
  ghost predicate SameButLinks(h: Memory, h': Memory, b: nat) {
    && h'.Keys == h.Keys
    && forall x :: x in h ==> h'[x].size == h[x].size && h'[x].magic == h[x].magic && (x != b ==> h'[x].free == h[x].free)
  }

  lemma LinkedSame(h: Memory, b: nat, prev: nat, next: nat)
    requires b in h && (prev != NULL ==> prev in h) && (next != NULL ==> next in h)
    ensures SameButLinks(h, Linked(h, b, prev, next), b)
  {
  }

  /** The list can be walked from the head up to b: every link of a block below b is in order.
      Should b be on the list itself, it ends there. */
  ghost predicate Walkable(h: Memory, head: nat, l: seq<nat>, b: nat) {
    && head == (if l == [] then NULL else l[0]) && Sorted(l)
    && (forall i :: 0 <= i < |l| ==> l[i] in h && l[i] != NULL)
    && (forall i :: 0 <= i < |l| && l[i] < b ==> NextOk(h, l, i))
    && (b in l && b in h ==> h[b].next == NULL)
  }

  ghost predicate NextOk(h: Memory, l: seq<nat>, i: nat)
    requires i < |l| && l[i] in h
  {
    h[l[i]].next == (if i + 1 < |l| then l[i + 1] else NULL)
  }

  lemma ListWalkable(h: Memory, head: nat, l: seq<nat>, b: nat)
    requires ListOk(h, head, l) && b !in l
    ensures Walkable(h, head, l, b)
  {
    forall i | 0 <= i < |l| ensures NextOk(h, l, i) {
      assert NodeOk(h, l, i);
    }
  }

  /** The k-th place is where b belongs. */
  ghost predicate PlaceOf(l: seq<nat>, b: nat, k: nat) {
    && k <= |l| && (forall i :: 0 <= i < k ==> l[i] < b) && (forall i :: k <= i < |l| ==> b < l[i])
  }

  /** A block below the head is below the whole list. */
  lemma BelowHead(h: Memory, head: nat, l: seq<nat>, b: nat)
    requires Walkable(h, head, l, b) && (head == NULL || b < head)
    ensures PlaceOf(l, b, 0)
    ensures head == NULL ==> l == []
    ensures head != NULL ==> l != [] && l[0] == head && head in h
  {
  }

  /** Where the insertion loop stops is where the block belongs. */
  lemma Between(h: Memory, head: nat, l: seq<nat>, i: nat, b: nat)
    requires Walkable(h, head, l, b) && i < |l| && l[i] <= b && b !in l
    requires i + 1 < |l| ==> l[i + 1] >= b
    ensures PlaceOf(l, b, i + 1)
  {
    assert l[i] in l;
    forall j | 0 <= j < i + 1 ensures l[j] < b {
      assert j < i ==> l[j] < l[i];
    }
    forall j | i + 1 <= j < |l| ensures b < l[j] {
      assert l[i + 1] in l;
      assert i + 1 < j ==> l[i + 1] < l[j];
    }
  }

  lemma Inserted(h: Memory, head: nat, l: seq<nat>, b: nat, prev: nat, next: nat, k: nat)
    requires ListOk(h, head, l) && b in h && b != NULL && PlaceOf(l, b, k)
    requires prev == (if k > 0 then l[k - 1] else NULL) && next == (if k < |l| then l[k] else NULL)
    ensures (prev != NULL ==> prev in h) && (next != NULL ==> next in h)
    ensures ListOk(Linked(h, b, prev, next), if k > 0 then head else b, Insert(l, k, b))
    ensures SameButLinks(h, Linked(h, b, prev, next), b) && b in Linked(h, b, prev, next) && Linked(h, b, prev, next)[b].free
  {
    hide NodeOk, Insert;
    InsertOk(h, head, l, k, b);
    LinkedSame(h, b, prev, next);
  }

  /** The writes of free_list_remove. */
  function Unlinked(h: Memory, b: nat, prev: nat, next: nat): Memory
    requires b in h && (prev != NULL ==> prev in h) && (next != NULL ==> next in h)
  {
    var h1 := Bridged(h, prev, next);
    h1[b := h1[b].(next := NULL, prev := NULL, free := false)]
  }

  lemma UnlinkOk(h: Memory, head: nat, l: seq<nat>, i: nat)
    requires ListOk(h, head, l) && i < |l|
    ensures var prev, next := if i > 0 then l[i - 1] else NULL, if i + 1 < |l| then l[i + 1] else NULL;
            && ListOk(Unlinked(h, l[i], prev, next), if i > 0 then head else next, Without(l, i))
            && SameButLinks(h, Unlinked(h, l[i], prev, next), l[i])
  {
    hide NodeOk, Bridged, Without;
    var prev, next := if i > 0 then l[i - 1] else NULL, if i + 1 < |l| then l[i + 1] else NULL;
    BridgeOk(h, head, l, i);
    WithoutIs(l, i);
    BridgedSame(h, prev, next);
    ListFrame(Bridged(h, prev, next), Unlinked(h, l[i], prev, next), if i > 0 then head else next, Without(l, i));
  }

  lemma BridgedSame(h: Memory, prev: nat, next: nat)
    requires (prev != NULL ==> prev in h) && (next != NULL ==> next in h)
    ensures Bridged(h, prev, next).Keys == h.Keys
    ensures forall x :: x in h ==> Bridged(h, prev, next)[x].size == h[x].size && Bridged(h, prev, next)[x].magic == h[x].magic
                                   && Bridged(h, prev, next)[x].free == h[x].free
  {
  }
}
