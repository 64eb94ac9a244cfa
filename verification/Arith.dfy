/** Quotients and powers of two, and the bits of a number. */
module Arith {
  import opened Bytes

  lemma {:induction false} MulMono(d: nat, a: nat, b: nat)
    requires a <= b
    ensures d * a <= d * b
  {
    if a < b {
      MulMono(d, a, b - 1);
      MulNext(d, b - 1);
    }
  }

  lemma MulNext(d: nat, q: int)
    ensures d * (q + 1) == d * q + d
  {
  }

  /** A quotient is fixed by its remainder being in range. */
  lemma DivUnique(x: nat, d: nat, q: nat, r: nat)
    requires r < d && x == d * q + r
    ensures x / d == q
  {
    var p := x / d;
    Euclid(x, d);
    MulNext(d, q);
    MulNext(d, p);
    if p > q {
      MulMono(d, q + 1, p);
    } else if p < q {
      MulMono(d, p + 1, q);
    }
  }

  lemma ModUnique(x: nat, d: nat, q: nat, r: nat)
    requires r < d && x == d * q + r
    ensures x % d == r
  {
    DivUnique(x, d, q, r);
    Euclid(x, d);
  }

  lemma Euclid(x: nat, d: nat)
    requires d > 0
    ensures x == d * (x / d) + x % d && x % d < d
  {
  }

  lemma MulDistributes(a: nat, u: nat, v: nat)
    ensures a * (u + v) == a * u + a * v
  {
  }

  lemma MulAssociates(a: nat, b: nat, u: nat)
    ensures a * (b * u) == (a * b) * u
  {
  }

  lemma MulPositive(a: nat, b: nat)
    requires a > 0 && b > 0
    ensures a * b > 0
  {
    MulMono(a, 1, b);
  }

  lemma DivDiv(x: nat, a: nat, b: nat)
    requires a > 0 && b > 0
    ensures a * b > 0 && x / (a * b) == x / a / b
  {
    MulPositive(a, b);
    Euclid(x, a);
    Euclid(x / a, b);
    var u, v, r := x / a / b, x / a % b, x % a;
    MulDistributes(a, b * u, v);
    MulAssociates(a, b, u);
    MulMono(a, v + 1, b);
    MulNext(a, v);
    DivUnique(x, a * b, u, a * v + r);
  }

  lemma AddMulDiv(x: nat, a: nat, e: nat)
    requires a > 0
    ensures (x + a * e) / a == x / a + e
  {
    Euclid(x, a);
    MulDistributes(a, x / a, e);
    DivUnique(x + a * e, a, x / a + e, x % a);
  }

  lemma DivBelow(x: nat, a: nat, e: nat)
    requires a > 0 && x < a * e
    ensures x / a < e
  {
    var q := x / a;
    Euclid(x, a);
    if q >= e {
      MulMono(a, e, q);
    }
  }

  lemma {:induction false} Pow2Adds(a: nat, b: nat)
    ensures Pow2(a + b) == Pow2(a) * Pow2(b)
  {
    if b > 0 {
      Pow2Adds(a, b - 1);
      MulDistributes(Pow2(a), Pow2(b - 1), Pow2(b - 1));
    }
  }

  /** Bit `k` of a number. */
  function BitOf(x: nat, k: nat): (b: nat)
    ensures b < 2
  {
    x / Pow2(k) % 2
  }

  /** Adding a bit that was clear sets it and leaves the others. */
  lemma BitAdds(x: nat, k: nat, j: nat)
    requires BitOf(x, k) == 0
    ensures BitOf(x + Pow2(k), j) == if j == k then 1 else BitOf(x, j)
  {
    if j == k {
      AddMulDiv(x, Pow2(k), 1);
    } else if j > k {
      BitAddsBelow(x, k, j);
    } else {
      BitAddsAbove(x, k, j);
    }
  }

  lemma BitAddsBelow(x: nat, k: nat, j: nat)
    requires BitOf(x, k) == 0 && j > k
    ensures BitOf(x + Pow2(k), j) == BitOf(x, j)
  {
    Pow2Adds(k + 1, j - k - 1);
    AddHalf(x, Pow2(k));
    SameQuotient(x, x + Pow2(k), 2 * Pow2(k), Pow2(j - k - 1));
  }

  lemma SameQuotient(x: nat, y: nat, p: nat, m: nat)
    requires p > 0 && m > 0 && x / p == y / p
    ensures p * m > 0 && x / (p * m) == y / (p * m)
  {
    DivDiv(x, p, m);
    DivDiv(y, p, m);
  }

  lemma BitAddsAbove(x: nat, k: nat, j: nat)
    requires j < k
    ensures BitOf(x + Pow2(k), j) == BitOf(x, j)
  {
    Pow2Adds(j, k - j);
    ParityKept(x, Pow2(j), Pow2(k - j - 1));
  }

  lemma ParityKept(x: nat, p: nat, e: nat)
    requires p > 0
    ensures (x + p * (2 * e)) / p % 2 == x / p % 2
  {
    AddMulDiv(x, p, 2 * e);
    SameParity(x / p, e);
  }

  lemma SameParity(x: nat, e: nat)
    ensures (x + 2 * e) % 2 == x % 2
  {
  }

  lemma AddHalf(x: nat, p: nat)
    requires p > 0 && x / p % 2 == 0
    ensures (x + p) / (2 * p) == x / (2 * p)
  {
    DivDiv(x, p, 2);
    DivDiv(x + p, p, 2);
    AddMulDiv(x, p, 1);
  }

  /** Setting a clear bit below `n` keeps the number below 2^n. */
  lemma BitFits(x: nat, k: nat, n: nat)
    requires BitOf(x, k) == 0 && k < n && x < Pow2(n)
    ensures x + Pow2(k) < Pow2(n)
  {
    Pow2Adds(k, n - k);
    Room(x, Pow2(k), Pow2(n - k - 1));
  }

  lemma Room(x: nat, p: nat, e: nat)
    requires p > 0 && x < p * (2 * e) && x / p % 2 == 0
    ensures x + p < p * (2 * e)
  {
    var q := x / p;
    DivBelow(x, p, 2 * e);
    Euclid(x, p);
    MulMono(p, q + 2, 2 * e);
    MulNext(p, q);
    MulNext(p, q + 1);
  }

  lemma HighBitSet(x: nat)
    requires x > 0
    ensures BitOf(x, HighBit(x)) == 1
  {
    DivUnique(x, Pow2(HighBit(x)), 1, x - Pow2(HighBit(x)));
  }

  lemma AboveIsClear(x: nat, k: nat)
    requires x < Pow2(k)
    ensures BitOf(x, k) == 0
  {
    ZeroBelow(x, Pow2(k));
  }

  /** The highest set bit is where the bits above are all clear. */
  lemma TopBit(x: nat, k: nat, n: nat)
    requires BitOf(x, k) == 1 && k < n && x < Pow2(n)
    requires forall j :: k < j < n ==> BitOf(x, j) == 0
    ensures x > 0 && HighBit(x) == k
  {
    hide BitOf;
    if x == 0 {
      AboveIsClear(0, k);
    } else {
      var l := HighBit(x);
      HighBitSet(x);
      if l < k {
        Pow2Grows(l, k);
        AboveIsClear(x, k);
      } else if l > n {
        Pow2Grows(n, l);
      }
    }
  }

  lemma ZeroBelow(x: nat, p: nat)
    requires x < p
    ensures x / p == 0
  {
  }
}
