/** Unsigned machine words as naturals: single bits, the C operators that the
    drivers apply to them, and the facts that relate the two. */
module Bits {

  function Pow2(n: nat): (p: nat)
    ensures p >= 1
  {
    if n == 0 then 1 else 2 * Pow2(n - 1)
  }

  /** Bit `i` of `x`, least significant first. */
  predicate Bit(x: nat, i: nat)
    decreases i
  {
    if i == 0 then x % 2 == 1 else Bit(x / 2, i - 1)
  }

  /** x | y */
  function Or(x: nat, y: nat): (z: nat)
    decreases x + y
  {
    if x + y == 0 then 0
    else 2 * Or(x / 2, y / 2) + (if x % 2 == 1 || y % 2 == 1 then 1 else 0)
  }

  /** x & y */
  function And(x: nat, y: nat): (z: nat)
    decreases x + y
  {
    if x + y == 0 then 0
    else 2 * And(x / 2, y / 2) + (if x % 2 == 1 && y % 2 == 1 then 1 else 0)
  }

  /** x & ~y */
  function AndNot(x: nat, y: nat): (z: nat)
    decreases x + y
  {
    if x + y == 0 then 0
    else 2 * AndNot(x / 2, y / 2) + (if x % 2 == 1 && y % 2 == 0 then 1 else 0)
  }

  /** Number of one bits among the lowest `w`. */
  function LowPop(x: nat, w: nat): (n: nat)
    decreases w
  {
    if w == 0 then 0 else x % 2 + LowPop(x / 2, w - 1)
  }

  /** Number of one bits below the lowest zero bit. */
  function TrailingOnes(x: nat): (n: nat)
  {
    if x % 2 == 0 then 0 else 1 + TrailingOnes(x / 2)
  }

  lemma ZeroHasNoBits(i: nat)
    ensures !Bit(0, i)
    decreases i
  {
  }

  lemma {:induction false} OrBit(x: nat, y: nat, i: nat)
    ensures Bit(Or(x, y), i) <==> Bit(x, i) || Bit(y, i)
    decreases i
  {
    if x + y == 0 {
      ZeroHasNoBits(i);
    } else if i > 0 {
      OrBit(x / 2, y / 2, i - 1);
    }
  }

  lemma {:induction false} AndBit(x: nat, y: nat, i: nat)
    ensures Bit(And(x, y), i) <==> Bit(x, i) && Bit(y, i)
    decreases i
  {
    if x + y == 0 {
      ZeroHasNoBits(i);
    } else if i > 0 {
      AndBit(x / 2, y / 2, i - 1);
    }
  }

  lemma {:induction false} AndNotBit(x: nat, y: nat, i: nat)
    ensures Bit(AndNot(x, y), i) <==> Bit(x, i) && !Bit(y, i)
    decreases i
  {
    if x + y == 0 {
      ZeroHasNoBits(i);
    } else if i > 0 {
      AndNotBit(x / 2, y / 2, i - 1);
    }
  }

  /** 1 << n has exactly bit n. */
  lemma {:induction false} Pow2Bit(n: nat, i: nat)
    ensures Bit(Pow2(n), i) <==> i == n
    decreases n
  {
    if n == 0 {
      if i > 0 { ZeroHasNoBits(i - 1); }
    } else if i > 0 {
      Pow2Bit(n - 1, i - 1);
    }
  }

  /** (1 << n) - 1 has exactly the bits below n. */
  lemma {:induction false} LowMaskBit(n: nat, i: nat)
    ensures Bit(Pow2(n) - 1, i) <==> i < n
    decreases n
  {
    if n == 0 {
      ZeroHasNoBits(i);
    } else if i > 0 {
      LowMaskBit(n - 1, i - 1);
    }
  }

  lemma {:induction false} Pow2Mono(a: nat, b: nat)
    requires a <= b
    ensures Pow2(a) <= Pow2(b)
    decreases b
  {
    if a < b { Pow2Mono(a, b - 1); }
  }

  /** The operators stay within the width of their operands. */
  lemma {:induction false} OpsBounded(x: nat, y: nat, n: nat)
    requires x < Pow2(n) && y < Pow2(n)
    ensures Or(x, y) < Pow2(n) && And(x, y) < Pow2(n) && AndNot(x, y) < Pow2(n)
    decreases n
  {
    if n > 0 { OpsBounded(x / 2, y / 2, n - 1); }
  }

  /** A word that is not all ones has a zero bit at TrailingOnes and none below. */
  lemma {:induction false} TrailingOnesFinds(x: nat, n: nat)
    requires x < Pow2(n) - 1
    ensures TrailingOnes(x) < n
    ensures !Bit(x, TrailingOnes(x))
    ensures forall j: nat :: j < TrailingOnes(x) ==> Bit(x, j)
    decreases n
  {
    if x % 2 == 1 {
      TrailingOnesFinds(x / 2, n - 1);
      forall j: nat | j < TrailingOnes(x)
        ensures Bit(x, j)
      {
        if j > 0 { assert Bit(x / 2, j - 1); }
      }
    }
  }

  lemma {:induction false} OrZero(x: nat)
    ensures Or(x, 0) == x
    decreases x
  {
    if x > 0 { OrZero(x / 2); }
  }

  lemma {:induction false} AndZero(x: nat)
    ensures And(x, 0) == 0
    decreases x
  {
    if x > 0 { AndZero(x / 2); }
  }

  /** One step of the definition of And. */
  lemma AndStep(x: nat, y: nat)
    ensures And(x, y) == 2 * And(x / 2, y / 2) + (if x % 2 == 1 && y % 2 == 1 then 1 else 0)
  {
  }

  lemma LowMaskHalves(n: nat)
    requires n > 0
    ensures (Pow2(n) - 1) / 2 == Pow2(n - 1) - 1 && (Pow2(n) - 1) % 2 == 1
  {
  }

  lemma TrailingOnesStep(y: nat, b: nat)
    requires b < 2
    ensures TrailingOnes(2 * y + b) == if b == 0 then 0 else 1 + TrailingOnes(y)
  {
  }

  lemma LowPopStep(y: nat, b: nat, w: nat)
    requires b < 2
    ensures LowPop(2 * y + b, w + 1) == b + LowPop(y, w)
  {
  }

  lemma {:induction false} LowPopZero(w: nat)
    ensures LowPop(0, w) == 0
    decreases w
  {
    if w > 0 { LowPopZero(w - 1); }
  }

  /** Counting the ones of a masked word. */
  lemma {:induction false} LowPopMasked(x: nat, w: nat, n: nat)
    requires w <= n
    ensures LowPop(And(x, Pow2(w) - 1), n) == LowPop(x, w)
    decreases w
  {
    if w == 0 {
      AndZero(x);
      LowPopZero(n);
    } else {
      var m := Pow2(w) - 1;
      LowMaskHalves(w);
      AndStep(x, m);
      LowPopStep(And(x / 2, m / 2), x % 2, n - 1);
      LowPopMasked(x / 2, w - 1, n - 1);
    }
  }

  lemma {:induction false} LowPopGrows(x: nat, w: nat)
    ensures LowPop(x, w + 1) == LowPop(x, w) + (if Bit(x, w) then 1 else 0)
    decreases w
  {
    if w > 0 { LowPopGrows(x / 2, w - 1); }
  }
}
