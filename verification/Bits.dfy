/**
  Unsigned machine words and the two bit operators the kernel uses on them.
  And and Or are defined bit by bit on naturals; the lemmas turn the masks of
  the page-table code into division and remainder, so that no other module
  has to reason about bits.
 */
module Bits {

  const WORD_LIMIT := 0x1_0000_0000_0000_0000
  const LIMIT32 := 0x1_0000_0000

  type Word = w: nat | w < WORD_LIMIT

  function Least(a: nat, b: nat): nat { if a <= b then a else b }

  function Pow2(k: nat): (p: nat)
    ensures p >= 1
  {
    if k == 0 then 1 else 2 * Pow2(k - 1)
  }

  function And(x: nat, y: nat): nat
    decreases x
  {
    if x == 0 || y == 0 then 0
    else (if x % 2 == 1 && y % 2 == 1 then 1 else 0) + 2 * And(x / 2, y / 2)
  }

  function Or(x: nat, y: nat): nat
    decreases x + y
  {
    if x == 0 then y
    else if y == 0 then x
    else (if x % 2 == 1 || y % 2 == 1 then 1 else 0) + 2 * Or(x / 2, y / 2)
  }

  /** x shifted left by k bits. */
  function Shl(x: nat, k: nat): nat {
    if k == 0 then x else 2 * Shl(x, k - 1)
  }

  /** x shifted right by k bits. */
  function Shr(x: nat, k: nat): nat
    decreases k
  {
    if k == 0 then x else Shr(x / 2, k - 1)
  }

  lemma DivTwice(x: nat, p: nat)
    requires p >= 1
    ensures x / 2 / p == x / (2 * p)
    ensures x % (2 * p) == x % 2 + 2 * (x / 2 % p)
  {
    var q, r := x / 2 / p, x / 2 % p;
    assert x / 2 == p * q + r;
    assert x == 2 * (p * q + r) + x % 2;
    assert 2 * (p * q) == (2 * p) * q;
    DivUnique(x, 2 * p, q, 2 * r + x % 2);
  }

  lemma DivUnique(x: nat, d: nat, q: nat, r: nat)
    requires d > 0 && r < d && x == d * q + r
    ensures x / d == q && x % d == r
  {
    var q', r' := x / d, x % d;
    assert x == d * q' + r';
    assert d * (q - q') == d * q - d * q';
    SmallMultiple(d, q - q');
  }

  lemma SmallMultiple(d: int, t: int)
    requires -d < d * t < d
    ensures t == 0
  {
    if t >= 1 {
      MultipleGrows(d, t);
    } else if -t >= 1 {
      MultipleGrows(d, -t);
    }
  }

  lemma MultipleGrows(d: int, t: int)
    requires d > 0 && t >= 1
    ensures d * t >= d
  {
  }

  lemma {:induction false} ShrIsDiv(x: nat, k: nat)
    ensures Shr(x, k) == x / Pow2(k)
    decreases k
  {
    if k > 0 {
      ShrIsDiv(x / 2, k - 1);
      DivTwice(x, Pow2(k - 1));
    }
  }

  /** A mask of k ones keeps the remainder modulo 2^k. */
  lemma {:induction false} AndLowMask(x: nat, k: nat)
    ensures And(x, Pow2(k) - 1) == x % Pow2(k)
    decreases k
  {
    if k == 0 || x == 0 {
      assert k == 0 ==> Pow2(k) == 1;
    } else {
      AndLowMask(x / 2, k - 1);
      DivTwice(x, Pow2(k - 1));
      var m := Pow2(k) - 1;
      assert m % 2 == 1 && m / 2 == Pow2(k - 1) - 1;
    }
  }

  /** A mask shifted left by k bits keeps the bits of the shifted-down word. */
  lemma {:induction false} AndShifted(x: nat, m: nat, k: nat)
    ensures And(x, Shl(m, k)) == Shl(And(Shr(x, k), m), k)
    decreases k
  {
    if k > 0 {
      AndShifted(x / 2, m, k - 1);
      AndDouble(x, Shl(m, k - 1));
    }
  }

  lemma {:induction false} AndDouble(x: nat, m: nat)
    ensures And(x, 2 * m) == 2 * And(x / 2, m)
  {
    assert 2 * m % 2 == 0 && 2 * m / 2 == m;
  }

  lemma {:induction false} AndOr(a: nat, b: nat, c: nat)
    ensures And(Or(a, b), c) == Or(And(a, c), And(b, c))
    decreases a + b
  {
    if a != 0 && b != 0 && c != 0 {
      AndOr(a / 2, b / 2, c / 2);
      var low := if a % 2 == 1 || b % 2 == 1 then 1 else 0;
      assert Or(a, b) == low + 2 * Or(a / 2, b / 2);
      AndBits(low, Or(a / 2, b / 2), c);
      OrDouble(And(a / 2, c / 2), And(b / 2, c / 2), a % 2 == 1 && c % 2 == 1, b % 2 == 1 && c % 2 == 1);
    }
  }

  lemma {:induction false} AndBits(low: nat, high: nat, c: nat)
    requires low < 2 && c != 0
    ensures And(low + 2 * high, c) == (if low == 1 && c % 2 == 1 then 1 else 0) + 2 * And(high, c / 2)
  {
    assert (low + 2 * high) / 2 == high && (low + 2 * high) % 2 == low;
  }

  lemma {:induction false} OrDouble(x: nat, y: nat, s: bool, t: bool)
    ensures Or((if s then 1 else 0) + 2 * x, (if t then 1 else 0) + 2 * y)
         == (if s || t then 1 else 0) + 2 * Or(x, y)
  {
  }

  lemma {:induction false} OrBound(x: nat, y: nat, k: nat)
    requires x < Pow2(k) && y < Pow2(k)
    ensures Or(x, y) < Pow2(k)
    decreases k
  {
    if x != 0 && y != 0 {
      OrBound(x / 2, y / 2, k - 1);
    }
  }

  /** Or with a number that only has bits below the k zeros of the first is addition. */
  lemma {:induction false} OrDisjoint(a: nat, b: nat, k: nat)
    requires b < Pow2(k)
    ensures Or(Shl(a, k), b) == Shl(a, k) + b
    decreases k
  {
    if k > 0 && b > 0 {
      OrDisjoint(a, b / 2, k - 1);
    }
  }

  lemma Powers()
    ensures Pow2(12) == 0x1000 && Pow2(16) == 0x1_0000 && Pow2(40) == 0x100_0000_0000
    ensures Pow2(52) == 0x10_0000_0000_0000 && Pow2(64) == WORD_LIMIT
  {
    assert Pow2(8) == 0x100;
    assert Pow2(16) == 0x1_0000;
    assert Pow2(24) == 0x100_0000;
    assert Pow2(32) == 0x1_0000_0000;
    assert Pow2(40) == 0x100_0000_0000;
    assert Pow2(48) == 0x1_0000_0000_0000;
    assert Pow2(56) == 0x100_0000_0000_0000;
  }

  /** Masking with ~0xFFF rounds a 64-bit number down to a multiple of 4096. */
  lemma RoundDown(x: Word)
    ensures And(x, 0xFFFF_FFFF_FFFF_F000) == x / 0x1000 * 0x1000
  {
    hide And, Shl, Shr, Pow2;
    Powers();
    ShlTwelve(0xF_FFFF_FFFF_FFFF);
    AndShifted(x, 0xF_FFFF_FFFF_FFFF, 12);
    ShrIsDiv(x, 12);
    AndLowMask(x / 0x1000, 52);
    ShlTwelve(x / 0x1000);
  }

  lemma ShlTwelve(m: nat)
    ensures Shl(m, 12) == 0x1000 * m
  {
    assert Shl(m, 1) == 2 * m;
    assert Shl(m, 2) == 4 * m;
    assert Shl(m, 4) == 0x10 * m;
    assert Shl(m, 6) == 0x40 * m;
    assert Shl(m, 8) == 0x100 * m;
    assert Shl(m, 10) == 0x400 * m;
  }

  // ---------- Bit by bit ----------

  predicate Bit(w: nat, k: nat) {
    Shr(w, k) % 2 == 1
  }

  lemma BitStep(w: nat, k: nat)
    ensures Bit(w, k) <==> if k == 0 then w % 2 == 1 else Bit(w / 2, k - 1)
  {
  }

  lemma AndHalves(x: nat, y: nat)
    requires x != 0 && y != 0
    ensures And(x, y) / 2 == And(x / 2, y / 2) && (And(x, y) % 2 == 1 <==> x % 2 == 1 && y % 2 == 1)
  {
  }

  lemma OrHalves(x: nat, y: nat)
    requires x != 0 && y != 0
    ensures Or(x, y) / 2 == Or(x / 2, y / 2) && (Or(x, y) % 2 == 1 <==> x % 2 == 1 || y % 2 == 1)
  {
  }

  lemma AndZero(x: nat, y: nat)
    ensures x == 0 || y == 0 ==> And(x, y) == 0
    ensures x == 0 ==> Or(x, y) == y
    ensures y == 0 ==> Or(x, y) == x
  {
  }

  lemma {:induction false} AndBit(x: nat, y: nat, k: nat)
    ensures Bit(And(x, y), k) <==> Bit(x, k) && Bit(y, k)
    decreases k
  {
    hide And, Bit;
    AndZero(x, y);
    if x == 0 || y == 0 {
      ZeroBit(k);
    } else {
      AndHalves(x, y);
      BitStep(x, k);
      BitStep(y, k);
      BitStep(And(x, y), k);
      if k > 0 { AndBit(x / 2, y / 2, k - 1); }
    }
  }

  lemma {:induction false} OrBit(x: nat, y: nat, k: nat)
    ensures Bit(Or(x, y), k) <==> Bit(x, k) || Bit(y, k)
    decreases k
  {
    hide Or, Bit;
    AndZero(x, y);
    if x == 0 || y == 0 {
      ZeroBit(k);
    } else {
      OrHalves(x, y);
      BitStep(x, k);
      BitStep(y, k);
      BitStep(Or(x, y), k);
      if k > 0 { OrBit(x / 2, y / 2, k - 1); }
    }
  }

  lemma {:induction false} ZeroBit(k: nat)
    ensures !Bit(0, k)
    decreases k
  {
    if k > 0 {
      ZeroBit(k - 1);
    }
  }

  /** A power of two is one bit. */
  lemma {:induction false} OneBit(j: nat, k: nat)
    ensures Bit(Pow2(j), k) <==> k == j
    decreases k
  {
    if j == 0 {
      if k > 0 { ZeroBit(k - 1); }
    } else if k > 0 {
      OneBit(j - 1, k - 1);
    }
  }

  /** The mask of ones from bit j up to bit j + n. */
  lemma {:induction false} MaskBit(n: nat, j: nat, k: nat)
    ensures Bit(Shl(Pow2(n) - 1, j), k) <==> j <= k < j + n
    decreases j + n
  {
    if j > 0 {
      if k > 0 { MaskBit(n, j - 1, k - 1); }
    } else if n == 0 {
      ZeroBit(k);
    } else if k > 0 {
      MaskBit(n - 1, 0, k - 1);
      assert (Pow2(n) - 1) / 2 == Pow2(n - 1) - 1;
    }
  }
}
