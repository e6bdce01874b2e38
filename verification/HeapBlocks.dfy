/** Blocks of the kernel heap (src/mm/heap.c) as a map from addresses to sizes, and the
    ways the allocator changes it. */
module HeapBlocks {

  type Sizes = map<nat, nat>

  predicate Within(m: Sizes, b: nat, a: nat)
    requires b in m
  {
    b <= a < b + m[b]
  }

  /** The blocks tile the arena: no byte outside, none twice, none left out. */
  ghost predicate Tiles(arena: set<nat>, m: Sizes) {
    && (forall b, a: nat :: b in m && Within(m, b, a) ==> a in arena)
    && (forall b, c, a: nat :: b in m && c in m && Within(m, b, a) && Within(m, c, a) ==> b == c)
    && (forall a :: a in arena ==> exists b :: b in m && Within(m, b, a))
    && (forall b :: b in m ==> m[b] > 0)
  }

  /** Cutting k bytes off the front of block b. */
  function Cut(m: Sizes, b: nat, k: nat): Sizes
    requires b in m && k <= m[b]
  {
    m[b := k][b + k := m[b] - k]
  }

  lemma CutTiles(arena: set<nat>, m: Sizes, b: nat, k: nat)
    requires Tiles(arena, m) && b in m && 0 < k < m[b]
    ensures b + k !in m && Tiles(arena, Cut(m, b, k))
  {
    assert Within(m, b, b + k);
    var m' := Cut(m, b, k);
    forall a: nat ensures Within(m, b, a) <==> Within(m', b, a) || Within(m', b + k, a) {
    }
    forall a | a in arena ensures exists c :: c in m' && Within(m', c, a) {
      var c :| c in m && Within(m, c, a);
      assert (if c != b then c else if a < b + k then b else b + k) in m';
    }
    forall c, d, a: nat | c in m' && d in m' && Within(m', c, a) && Within(m', d, a) ensures c == d {
      var c', d' := if c == b + k then b else c, if d == b + k then b else d;
      assert Within(m, c', a) && Within(m, d', a);
    }
  }

  /** Joining block b with the block that starts at its end. */
  function Joined(m: Sizes, b: nat): Sizes {
    if b in m && b + m[b] in m then (m - {b + m[b]})[b := m[b] + m[b + m[b]]] else m
  }

  /** These blocks have the same sizes before and after. */
  ghost predicate SameSizes(blocks: set<nat>, m: Sizes, m': Sizes) {
    forall b :: b in blocks ==> b in m && b in m' && m'[b] == m[b]
  }

  lemma JoinedIs(m: Sizes, b: nat)
    requires b in m && b + m[b] in m && m[b] > 0
    ensures forall c :: c in Joined(m, b) <==> c in m && c != b + m[b]
    ensures forall c :: c in Joined(m, b) ==> Joined(m, b)[c] == if c == b then m[b] + m[b + m[b]] else m[c]
  {
  }

  lemma JoinTiles(arena: set<nat>, m: Sizes, b: nat)
    requires Tiles(arena, m) && b in m && b + m[b] in m
    ensures Tiles(arena, Joined(m, b))
  {
    var c := b + m[b];
    var m' := Joined(m, b);
    assert c != b;
    forall a: nat ensures Within(m', b, a) <==> Within(m, b, a) || Within(m, c, a) {
    }
    forall a | a in arena ensures exists d :: d in m' && Within(m', d, a) {
      var d :| d in m && Within(m, d, a);
      assert (if d == c then b else d) in m';
    }
    forall d, e, a: nat | d in m' && e in m' && Within(m', d, a) && Within(m', e, a) ensures d == e {
      var d' := if d == b && Within(m, c, a) then c else d;
      var e' := if e == b && Within(m, c, a) then c else e;
      assert Within(m, d', a) && Within(m, e', a);
    }
  }

  /** A fresh region becomes one block. */
  lemma ExtendTiles(arena: set<nat>, m: Sizes, r: nat, n: nat, arena': set<nat>)
    requires Tiles(arena, m) && n > 0 && r !in m
    requires forall a: nat :: a in arena' <==> a in arena || r <= a < r + n
    requires forall a: nat :: r <= a < r + n ==> a !in arena
    ensures Tiles(arena', m[r := n])
  {
    var m' := m[r := n];
    forall b, a: nat | b in m ensures Within(m', b, a) == Within(m, b, a) {
    }
    forall a | a in arena' ensures exists b :: b in m' && Within(m', b, a) {
      if a in arena {
        var b :| b in m && Within(m, b, a);
        assert b in m';
      } else {
        assert r in m' && Within(m', r, a);
      }
    }
  }

  // ---- sums of sizes ----------------------------------------------------------------

  /** The sizes of a set of blocks, added up. */
  ghost function Sum(m: Sizes, s: set<nat>): nat
    requires s <= m.Keys
  {
    if s == {} then 0 else var b :| b in s; m[b] + Sum(m, s - {b})
  }

  lemma {:induction false} SumTake(m: Sizes, s: set<nat>, b: nat)
    requires s <= m.Keys && b in s
    ensures Sum(m, s) == m[b] + Sum(m, s - {b})
  {
    var c :| c in s && Sum(m, s) == m[c] + Sum(m, s - {c});
    if c != b {
      SumTake(m, s - {c}, b);
      SumTake(m, s - {b}, c);
      assert s - {c} - {b} == s - {b} - {c};
    }
  }

  lemma {:induction false} SumSame(m: Sizes, m': Sizes, s: set<nat>)
    requires s <= m.Keys && s <= m'.Keys && forall b :: b in s ==> m'[b] == m[b]
    ensures Sum(m', s) == Sum(m, s)
  {
    if s != {} {
      var b :| b in s;
      SumTake(m, s, b);
      SumTake(m', s, b);
      SumSame(m, m', s - {b});
    }
  }
}
