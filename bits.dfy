/** Python's bitwise operators on non-negative integers, which is what the
    notification code applies to GPIO masks, levels and flags: `1 << g`,
    `a | b`, `a & b` and `a ^ b`, defined digit by digit in base 2, and
    `Has(a, g)`, "bit g of a is set", through which their meaning is
    stated. */
module Bits {

  /** `1 << g`. */
  function Bit(g: nat): (b: nat)
    ensures b > 0
  {
    if g == 0 then 1 else 2 * Bit(g - 1)
  }

  /** Bit g of a is set: `(a >> g) & 1 == 1`. */
  predicate Has(a: nat, g: nat)
  {
    if g == 0 then a % 2 == 1 else Has(a / 2, g - 1)
  }

  /** `a | b`. */
  function Or(a: nat, b: nat): nat
    decreases a + b
  {
    if a == 0 && b == 0 then 0
    else 2 * Or(a / 2, b / 2) + (if a % 2 == 1 || b % 2 == 1 then 1 else 0)
  }

  /** `a & b`. */
  function And(a: nat, b: nat): nat
    decreases a + b
  {
    if a == 0 && b == 0 then 0
    else 2 * And(a / 2, b / 2) + (if a % 2 == 1 && b % 2 == 1 then 1 else 0)
  }

  /** `a ^ b`. */
  function Xor(a: nat, b: nat): nat
    decreases a + b
  {
    if a == 0 && b == 0 then 0
    else 2 * Xor(a / 2, b / 2) + (if (a % 2 == 1) != (b % 2 == 1) then 1 else 0)
  }

  /** Zero has no bit set. */
  lemma {:induction false} HasZero(g: nat)
    ensures !Has(0, g)
  {
    if g > 0 {
      HasZero(g - 1);
    }
  }

  /** `1 << g` has exactly bit g set. */
  lemma {:induction false} HasBit(g: nat, h: nat)
    ensures Has(Bit(g), h) <==> g == h
  {
    if g == 0 {
      if h > 0 {
        HasZero(h - 1);
      }
    } else if h > 0 {
      HasBit(g - 1, h - 1);
    }
  }

  /** Bit g of `a | b` is set iff it is set in a or in b. */
  lemma {:induction false} HasOr(a: nat, b: nat, g: nat)
    ensures Has(Or(a, b), g) <==> Has(a, g) || Has(b, g)
    decreases g
  {
    if a == 0 && b == 0 {
      HasZero(g);
    } else if g > 0 {
      HasOr(a / 2, b / 2, g - 1);
    }
  }

  /** Bit g of `a & b` is set iff it is set in both. */
  lemma {:induction false} HasAnd(a: nat, b: nat, g: nat)
    ensures Has(And(a, b), g) <==> Has(a, g) && Has(b, g)
    decreases g
  {
    if a == 0 && b == 0 {
      HasZero(g);
    } else if g > 0 {
      HasAnd(a / 2, b / 2, g - 1);
    }
  }

  /** Bit g of `a ^ b` is set iff a and b differ on it. */
  lemma {:induction false} HasXor(a: nat, b: nat, g: nat)
    ensures Has(Xor(a, b), g) <==> Has(a, g) != Has(b, g)
    decreases g
  {
    if a == 0 && b == 0 {
      HasZero(g);
    } else if g > 0 {
      HasXor(a / 2, b / 2, g - 1);
    }
  }

  /** Numbers with the same bits are equal. */
  lemma {:induction false} Extensional(a: nat, b: nat)
    requires forall g: nat :: Has(a, g) <==> Has(b, g)
    ensures a == b
    decreases a + b
  {
    assert Has(a, 0) <==> Has(b, 0);
    if a != 0 || b != 0 {
      forall g: nat
        ensures Has(a / 2, g) <==> Has(b / 2, g)
      {
        assert Has(a, g + 1) <==> Has(b, g + 1);
      }
      Extensional(a / 2, b / 2);
    }
  }

  /** A number is non-zero iff some bit of it is set. */
  lemma NonZero(a: nat, g: nat)
    requires Has(a, g)
    ensures a != 0
  {
    HasZero(g);
  }

  lemma NoBits(a: nat)
    requires forall g: nat :: !Has(a, g)
    ensures a == 0
  {
    forall g: nat
      ensures Has(a, g) <==> Has(0, g)
    {
      HasZero(g);
    }
    Extensional(a, 0);
  }

  /** `(1 << g) & a` is non-zero exactly when bit g of a is set, and
      likewise for `a & (1 << g)`. */
  lemma AndBit(g: nat, a: nat)
    ensures And(Bit(g), a) != 0 <==> Has(a, g)
    ensures And(a, Bit(g)) != 0 <==> Has(a, g)
  {
    HasAnd(Bit(g), a, g);
    HasAnd(a, Bit(g), g);
    HasBit(g, g);
    if Has(a, g) {
      NonZero(And(Bit(g), a), g);
      NonZero(And(a, Bit(g)), g);
    } else {
      forall h: nat
        ensures !Has(And(Bit(g), a), h) && !Has(And(a, Bit(g)), h)
      {
        HasAnd(Bit(g), a, h);
        HasAnd(a, Bit(g), h);
        HasBit(g, h);
      }
      NoBits(And(Bit(g), a));
      NoBits(And(a, Bit(g)));
    }
  }

  /** `a ^ b` is zero exactly when a and b are equal. */
  lemma {:induction false} XorZero(a: nat, b: nat)
    ensures Xor(a, b) == 0 <==> a == b
    decreases a + b
  {
    if a != 0 || b != 0 {
      XorZero(a / 2, b / 2);
    }
  }

  /** `m | (1 << g)` is m exactly when bit g of m is already set. */
  lemma OrBitAbsorbed(m: nat, g: nat)
    ensures Or(m, Bit(g)) == m <==> Has(m, g)
  {
    HasOr(m, Bit(g), g);
    HasBit(g, g);
    if Has(m, g) {
      forall h: nat
        ensures Has(Or(m, Bit(g)), h) <==> Has(m, h)
      {
        HasOr(m, Bit(g), h);
        HasBit(g, h);
      }
      Extensional(Or(m, Bit(g)), m);
    }
  }

  /** An OR of numbers below `1 << n` stays below it. */
  lemma {:induction false} OrBelow(a: nat, b: nat, n: nat)
    requires a < Bit(n) && b < Bit(n)
    ensures Or(a, b) < Bit(n)
    decreases n
  {
    if n > 0 && (a != 0 || b != 0) {
      OrBelow(a / 2, b / 2, n - 1);
    }
  }

  /** `1 << g` grows with g. */
  lemma {:induction false} BitBelow(g: nat, n: nat)
    requires g < n
    ensures Bit(g) < Bit(n)
    decreases n
  {
    if g < n - 1 {
      BitBelow(g, n - 1);
    }
  }

  /** `1 << 32` is 2^32, so a value below it fits an unsigned 32-bit word. */
  lemma Bit32()
    ensures Bit(32) == 0x1_0000_0000
  {
    assert Bit(8) == 0x100;
    assert Bit(16) == 0x1_0000;
    assert Bit(24) == 0x100_0000;
  }
}
