/** Division facts for divisors that are not constants. */
module Arith {

  lemma MulGap(a: int, b: int, d: nat)
    requires a < b
    ensures a * d + d <= b * d
  {
    assert (b - a - 1) * d >= 0;
    assert (b - a - 1) * d == b * d - a * d - d;
  }

  /** Quotient and remainder are determined by x == q*d + r with r < d. */
  lemma DivUnique(x: int, q: int, r: int, d: nat)
    requires d > 0 && 0 <= r < d && x == q * d + r
    ensures x / d == q && x % d == r
  {
    var q', r' := x / d, x % d;
    assert x == q' * d + r';
    if q' < q {
      MulGap(q', q, d);
    } else if q < q' {
      MulGap(q, q', d);
    }
  }

  lemma DivMono(a: int, b: int, d: nat)
    requires d > 0 && a <= b
    ensures a / d <= b / d
  {
    if b / d < a / d {
      MulGap(b / d, a / d, d);
    }
  }

  lemma Regroup(k: nat, q: nat, s: nat, a: nat, b: nat)
    requires k == q * b + s
    ensures k * a == q * (a * b) + s * a
  {
    assert (q * b + s) * a == q * b * a + s * a;
    assert q * b * a == q * (a * b);
  }

  /** x >> bits and x & mask where 1 << bits is d: quotient and remainder, by
      counting. */
  function Quot(x: nat, d: nat): (q: nat)
    requires d > 0
  {
    if x < d then 0 else 1 + Quot(x - d, d)
  }

  function Rem(x: nat, d: nat): (r: nat)
    requires d > 0
    ensures r < d
  {
    if x < d then x else Rem(x - d, d)
  }

  lemma {:induction false} QuotIs(x: nat, d: nat)
    requires d > 0
    ensures Quot(x, d) == x / d && Rem(x, d) == x % d
  {
    if x < d {
      DivUnique(x, 0, x, d);
    } else {
      QuotIs(x - d, d);
      var q, r := (x - d) / d, (x - d) % d;
      assert x - d == q * d + r;
      assert (q + 1) * d == q * d + d;
      DivUnique(x, q + 1, r, d);
    }
  }

  /** A step of one. */
  lemma {:induction false} QuotStep(x: nat, d: nat)
    requires d > 0
    ensures Rem(x, d) == d - 1 ==> Quot(x + 1, d) == Quot(x, d) + 1 && Rem(x + 1, d) == 0
    ensures Rem(x, d) != d - 1 ==> Quot(x + 1, d) == Quot(x, d) && Rem(x + 1, d) == Rem(x, d) + 1
  {
    if x >= d { QuotStep(x - d, d); }
  }

  /** A place from the start of its block. */
  lemma {:induction false} QuotFrom(x: nat, y: nat, d: nat)
    requires d > 0
    ensures Quot(x + y, d) == Quot(x, d) + Quot(Rem(x, d) + y, d)
    ensures Rem(x + y, d) == Rem(Rem(x, d) + y, d)
  {
    if x >= d { QuotFrom(x - d, y, d); }
  }

  lemma {:induction false} QuotMono(x: nat, y: nat, d: nat)
    requires d > 0 && x <= y
    ensures Quot(x, d) <= Quot(y, d)
  {
    if x >= d { QuotMono(x - d, y - d, d); }
  }

  lemma {:induction false} QuotBelow(x: nat, k: nat, d: nat)
    requires d > 0 && x < k * d
    ensures Quot(x, d) < k
    decreases x
  {
    if x >= d {
      assert (k - 1) * d == k * d - d;
      QuotBelow(x - d, k - 1, d);
    }
  }

  lemma {:induction false} QuotOf(k: nat, r: nat, d: nat)
    requires r < d
    ensures Quot(k * d + r, d) == k && Rem(k * d + r, d) == r
    decreases k
  {
    if k > 0 {
      assert k * d + r - d == (k - 1) * d + r;
      QuotOf(k - 1, r, d);
    }
  }

  lemma {:induction false} QuotParts(x: nat, d: nat)
    requires d > 0
    ensures x == Quot(x, d) * d + Rem(x, d)
  {
    if x >= d {
      QuotParts(x - d, d);
      var q := Quot(x - d, d);
      assert (q + 1) * d == q * d + d;
    }
  }

  /** Dividing in two steps. */
  lemma QuotQuot(x: nat, a: nat, b: nat, m: nat)
    requires a > 0 && b > 0 && m == a * b
    ensures m > 0
    ensures Quot(x, m) == Quot(Quot(x, a), b)
    ensures Rem(x, m) == Rem(Quot(x, a), b) * a + Rem(x, a)
    ensures Quot(Rem(x, m), a) == Rem(Quot(x, a), b)
    ensures Rem(Rem(x, m), a) == Rem(x, a)
  {
    QuotParts(x, a);
    QuotParts(Quot(x, a), b);
    QuotTwo(x, Quot(x, a), Quot(Quot(x, a), b), Rem(Quot(x, a), b), Rem(x, a), a, b, m);
  }

  lemma QuotTwo(x: nat, q: nat, s: nat, t: nat, r: nat, a: nat, b: nat, m: nat)
    requires t < b && r < a && m == a * b && q == s * b + t && x == q * a + r
    ensures m > 0 && Quot(x, m) == s && Rem(x, m) == t * a + r
    ensures Quot(Rem(x, m), a) == t && Rem(Rem(x, m), a) == r
  {
    var y := t * a + r;
    InTable(t, b, a, r);
    Regroup(q, s, t, a, b);
    QuotOf(s, y, m);
    QuotOf(t, r, a);
  }

  lemma InTable(t: nat, b: nat, a: nat, r: nat)
    requires t < b && r < a
    ensures t * a + r < a * b
  {
    MulGap(t, b, a);
  }

  lemma DivDiv(x: nat, a: nat, b: nat)
    requires a > 0 && b > 0
    ensures a * b > 0
    ensures x / (a * b) == x / a / b
    ensures x % (a * b) == x / a % b * a + x % a
  {
    QuotQuot(x, a, b, a * b);
    QuotIs(x, a * b);
    QuotIs(x, a);
    QuotIs(x / a, b);
  }
}
