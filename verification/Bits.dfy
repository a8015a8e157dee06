/** Powers of two, shifts, and the arithmetic they need. */
module Bits {

  function Min(a: nat, b: nat): nat {
    if a < b then a else b
  }

  function Pow2(n: nat): (p: nat)
    ensures p > 0
  {
    if n == 0 then 1 else 2 * Pow2(n - 1)
  }

  lemma {:induction false} Pow2Sum(m: nat, n: nat)
    ensures Pow2(m + n) == Pow2(m) * Pow2(n)
  {
    if m > 0 {
      Pow2Sum(m - 1, n);
      assert Pow2(m) * Pow2(n) == 2 * (Pow2(m - 1) * Pow2(n));
    }
  }

  /** `x >> n` */
  function ShiftRight(x: nat, n: nat): nat
    decreases n
  {
    if n == 0 then x else ShiftRight(x / 2, n - 1)
  }

  /** Whether the last `n` bits of `x` are all 0. */
  predicate EndsInZeros(x: nat, n: nat)
    decreases n
  {
    n > 0 ==> x % 2 == 0 && EndsInZeros(x / 2, n - 1)
  }

  lemma {:induction false} ShiftDivides(x: nat, n: nat)
    ensures ShiftRight(x, n) == x / Pow2(n)
    ensures EndsInZeros(x, n) <==> x % Pow2(n) == 0
    decreases n
  {
    if n > 0 {
      ShiftDivides(x / 2, n - 1);
      DivideTwice(x, 2, Pow2(n - 1));
      HalfRemainder(x, Pow2(n - 1));
    }
  }

  lemma HalfRemainder(x: nat, p: nat)
    requires p > 0
    ensures x % (2 * p) == 0 <==> x % 2 == 0 && x / 2 % p == 0
  {
    var q, r := x / 2 / p, x / 2 % p;
    assert x / 2 == q * p + r;
    Reorder(q, 2, p);
    assert x == q * (2 * p) + (2 * r + x % 2);
    Remainder(q, 2 * p, 2 * r + x % 2);
  }

  lemma Remainder(a: nat, m: nat, r: nat)
    requires r < m
    ensures (a * m + r) % m == r
  {
    DivideBack(a, m, r);
  }

  lemma Distribute(a: nat, b: nat, m: nat)
    ensures (a + b) * m == a * m + b * m
  {
  }

  lemma Reorder(a: nat, m: nat, n: nat)
    ensures a * n * m == a * (m * n)
  {
  }

  lemma MultiplyBoth(a: nat, b: nat, m: nat)
    requires a <= b
    ensures a * m <= b * m
  {
  }

  lemma SmallMultiple(k: int, m: nat, r: nat, t: nat)
    requires k * m + r == t && r < m && t < m
    ensures k == 0
  {
    if k >= 1 {
      MultiplyBoth(1, k, m);
    }
  }

  /** A number below `e` behind a multiple of it. */
  lemma PairUnique(a: nat, p: nat, b: nat, q: nat, e: nat)
    requires p < e && q < e
    ensures a * e + p == b * e + q <==> a == b && p == q
  {
    DivideBack(a, e, p);
    DivideBack(b, e, q);
  }

  lemma DivideBack(a: nat, m: nat, r: nat)
    requires r < m
    ensures (a * m + r) / m == a
  {
    var x := a * m + r;
    assert x == x / m * m + x % m;
    assert (a - x / m) * m == a * m - x / m * m;
    SmallMultiple(a - x / m, m, r, x % m);
  }

  lemma DivideTwice(x: nat, m: nat, n: nat)
    requires m > 0 && n > 0
    ensures m * n > 0 && x / (m * n) == x / m / n
  {
    var y, low := x / m, x % m;
    var q, r := y / n, y % n;
    assert x == y * m + low;
    assert y == q * n + r;
    Distribute(q * n, r, m);
    Reorder(q, m, n);
    MultiplyBoth(r + 1, n, m);
    Distribute(r, 1, m);
    MultiplyBoth(1, n, m);
    assert n * m == m * n;
    DivideBack(q, m * n, r * m + low);
  }
}
