/** The bit operators of the source on unsigned words, as functions on naturals. */
module Bits {

  /** 1 << n */
  function Pow2(n: nat): (r: nat)
    ensures r > 0
  {
    if n == 0 then 1 else 2 * Pow2(n - 1)
  }

  /** x >> k */
  function Shr(x: nat, k: nat): nat {
    if k == 0 then x else Shr(x / 2, k - 1)
  }

  /** x << k */
  function Shl(x: nat, k: nat): nat {
    if k == 0 then x else 2 * Shl(x, k - 1)
  }

  lemma {:induction false} ShlMul(x: nat, k: nat)
    ensures Shl(x, k) == Pow2(k) * x
  {
    if k > 0 {
      ShlMul(x, k - 1);
      assert Pow2(k) * x == 2 * (Pow2(k - 1) * x);
    }
  }

  /** x & y */
  function And(x: nat, y: nat): nat {
    if x == 0 || y == 0 then 0
    else (if x % 2 == 1 && y % 2 == 1 then 1 else 0) + 2 * And(x / 2, y / 2)
  }

  /** x | y */
  function Or(x: nat, y: nat): nat
    decreases x + y
  {
    if x == 0 then y else if y == 0 then x
    else (if x % 2 == 1 || y % 2 == 1 then 1 else 0) + 2 * Or(x / 2, y / 2)
  }

  /** The low k bits of x. */
  function Low(x: nat, k: nat): nat {
    if k == 0 then 0 else x % 2 + 2 * Low(x / 2, k - 1)
  }

  /** Low bits and high bits make up the word. */
  lemma {:induction false} Split(x: nat, k: nat)
    ensures x == Low(x, k) + Pow2(k) * Shr(x, k) && Low(x, k) < Pow2(k)
  {
    hide Low, Shr, Pow2;
    if k == 0 {
      NoBits(x);
    } else {
      Split(x / 2, k - 1);
      OneMoreBit(x, k);
      Twice(Pow2(k - 1), Shr(x / 2, k - 1));
    }
  }

  lemma NoBits(x: nat)
    ensures Low(x, 0) == 0 && Shr(x, 0) == x && Pow2(0) == 1
  {
  }

  lemma OneMoreBit(x: nat, k: nat)
    requires k > 0
    ensures Low(x, k) == x % 2 + 2 * Low(x / 2, k - 1) && Shr(x, k) == Shr(x / 2, k - 1) && Pow2(k) == 2 * Pow2(k - 1)
  {
  }

  lemma Twice(p: nat, q: nat)
    ensures 2 * p * q == 2 * (p * q)
  {
  }

  /** x & ((1 << k) - 1) keeps the low bits. */
  lemma {:induction false} AndLow(x: nat, k: nat)
    ensures And(x, Pow2(k) - 1) == Low(x, k)
  {
    if k > 0 {
      AndLow(x / 2, k - 1);
      assert (Pow2(k) - 1) / 2 == Pow2(k - 1) - 1;
      LowOfZero(k);
    }
  }

  lemma {:induction false} LowOfZero(k: nat)
    ensures Low(0, k) == 0
  {
    if k > 0 {
      LowOfZero(k - 1);
    }
  }

  /** Masking with a mask whose low k bits are clear acts on the high bits alone. */
  lemma {:induction false} AndHigh(x: nat, k: nat, m: nat)
    ensures And(x, Shl(m, k)) == Shl(And(Shr(x, k), m), k)
  {
    if k > 0 {
      AndHigh(x / 2, k - 1, m);
      AndZero(x / 2, Shl(m, k - 1));
    }
  }

  lemma AndZero(x: nat, y: nat)
    ensures x == 0 || y == 0 ==> And(x, y) == 0
  {
  }

  /** Masking distributes over or-ing. */
  lemma {:induction false} AndOr(x: nat, y: nat, m: nat)
    ensures And(Or(x, y), m) == Or(And(x, m), And(y, m))
    decreases x + y
  {
    hide And, Or;
    AndZero(x, m);
    AndZero(y, m);
    AndZero(Or(x, y), m);
    OrZero(x, y);
    OrZero(And(x, m), And(y, m));
    if x != 0 && y != 0 && m != 0 {
      AndOr(x / 2, y / 2, m / 2);
      OrHalves(x, y);
      OrHalves(And(x, m), And(y, m));
      AndHalves(x, m);
      AndHalves(y, m);
      AndHalves(Or(x, y), m);
    }
  }

  lemma OrZero(x: nat, y: nat)
    ensures x == 0 ==> Or(x, y) == y
    ensures y == 0 ==> Or(x, y) == x
  {
  }

  lemma AndHalves(x: nat, y: nat)
    ensures And(x, y) == (if x % 2 == 1 && y % 2 == 1 then 1 else 0) + 2 * And(x / 2, y / 2)
  {
  }

  lemma OrHalves(x: nat, y: nat)
    ensures Or(x, y) == (if x % 2 == 1 || y % 2 == 1 then 1 else 0) + 2 * Or(x / 2, y / 2)
  {
  }

  /** Or-ing a value into clear low bits adds it. */
  lemma {:induction false} OrDisjoint(h: nat, l: nat, k: nat)
    requires l < Pow2(k)
    ensures Or(Shl(h, k), l) == Shl(h, k) + l
  {
    if k > 0 {
      OrDisjoint(h, l / 2, k - 1);
    }
  }

  /** Bit k of x. */
  predicate Bit(x: nat, k: nat) { Shr(x, k) % 2 == 1 }

  /** A bit of x | y is set where it is set in x or in y. */
  lemma {:induction false} OrBit(x: nat, y: nat, k: nat)
    ensures Bit(Or(x, y), k) <==> Bit(x, k) || Bit(y, k)
    decreases k
  {
    hide Or;
    OrHalves(x, y);
    if k > 0 {
      OrBit(x / 2, y / 2, k - 1);
    }
  }

  /** The bits the page tables use, in arithmetic. */
  lemma BitsAre(x: nat)
    ensures Bit(x, 0) <==> x % 2 == 1
    ensures Bit(x, 1) <==> x / 2 % 2 == 1
    ensures Bit(x, 2) <==> x / 4 % 2 == 1
    ensures Bit(x, 3) <==> x / 8 % 2 == 1
    ensures Bit(x, 4) <==> x / 16 % 2 == 1
    ensures Bit(x, 5) <==> x / 32 % 2 == 1
    ensures Bit(x, 63) <==> x / 0x8000_0000_0000_0000 % 2 == 1
  {
    FewBits(x);
    HighBit(x);
  }

  lemma FewBits(x: nat)
    ensures Shr(x, 0) == x && Shr(x, 1) == x / 2 && Shr(x, 2) == x / 4
    ensures Shr(x, 3) == x / 8 && Shr(x, 4) == x / 16 && Shr(x, 5) == x / 32
  {
    ShrStep(x, 0);
    ShrStep(x, 1);
    ShrStep(x, 2);
    ShrStep(x, 3);
    ShrStep(x, 4);
  }

  lemma {:induction false} ShrStep(p: nat, k: nat)
    ensures Shr(p, k + 1) == Shr(p, k) / 2
  {
    if k > 0 {
      ShrStep(p / 2, k - 1);
    }
  }

  lemma HighBit(x: nat)
    ensures Shr(x, 63) == x / 0x8000_0000_0000_0000
  {
    hide Shr, Low, Pow2;
    Split(x, 63);
    Pow63();
    Quotient63(x, Shr(x, 63), Low(x, 63));
  }

  lemma Quotient63(x: nat, q: nat, r: nat)
    requires x == r + 0x8000_0000_0000_0000 * q && r < 0x8000_0000_0000_0000
    ensures x / 0x8000_0000_0000_0000 == q
  {
  }

  lemma Pow63()
    ensures Pow2(63) == 0x8000_0000_0000_0000
  {
    hide Pow2;
    Powers();
    PowerSum(30, 30);
    PowerSum(60, 3);
  }

  // ---- the widths the page tables use ---------------------------------------------------

  lemma Powers()
    ensures Pow2(3) == 8 && Pow2(7) == 128 && Pow2(9) == 512 && Pow2(12) == 4096 && Pow2(21) == 0x20_0000
    ensures Pow2(30) == 0x4000_0000 && Pow2(39) == 0x80_0000_0000 && Pow2(40) == 0x100_0000_0000
    ensures Pow2(52) == 0x10_0000_0000_0000
  {
    PowerSum(12, 9);
    PowerSum(21, 9);
    PowerSum(30, 9);
    PowerSum(12, 40);
  }

  lemma {:induction false} PowerSum(a: nat, b: nat)
    ensures Pow2(a + b) == Pow2(a) * Pow2(b)
  {
    if b > 0 {
      PowerSum(a, b - 1);
      assert Pow2(a) * Pow2(b) == 2 * (Pow2(a) * Pow2(b - 1));
    }
  }
}
