/** Integer powers, and the machine integer types of the C++ sources.

    A variable of a subset type such as `uint64` may only be given a value that
    lies in its range, so declaring a C++ variable with its own type is also the
    claim, checked at every assignment, that the operation does not wrap around.
  */
module Powers {

  const TWO32: int := 0x1_0000_0000
  const TWO64: int := 0x1_0000_0000_0000_0000

  type uint8 = x: int | 0 <= x < 0x100
  type uint16 = x: int | 0 <= x < 0x1_0000
  type uint32 = x: int | 0 <= x < TWO32
  type uint64 = x: int | 0 <= x < TWO64

  function Pow(b: nat, n: nat): (p: nat)
    ensures b > 0 ==> p > 0
  {
    if n == 0 then 1 else b * Pow(b, n - 1)
  }

  lemma PowZero(b: nat)
    ensures Pow(b, 0) == 1
  {
  }

  lemma {:induction false} PowAdd(b: nat, m: nat, n: nat)
    ensures Pow(b, m + n) == Pow(b, m) * Pow(b, n)
  {
    if m == 0 {
    } else {
      PowAdd(b, m - 1, n);
      assert b * (Pow(b, m - 1) * Pow(b, n)) == (b * Pow(b, m - 1)) * Pow(b, n);
    }
  }

  lemma {:induction false} PowMono(b: nat, m: nat, n: nat)
    requires b >= 1 && m <= n
    ensures Pow(b, m) <= Pow(b, n)
  {
    if m < n {
      PowMono(b, m, n - 1);
      MulMono(1, b, Pow(b, n - 1));
    }
  }

  lemma {:induction false} PowStrict(b: nat, m: nat, n: nat)
    requires b >= 2 && m < n
    ensures b * Pow(b, m) <= Pow(b, n)
    ensures Pow(b, m) < Pow(b, n)
  {
    PowMono(b, m + 1, n);
    MulMono(2, b, Pow(b, m));
  }

  /** The order of two powers decides the order of their exponents. */
  lemma PowOrder(b: nat, m: nat, n: nat)
    requires b >= 2 && Pow(b, m) < Pow(b, n)
    ensures m < n
  {
    if n <= m {
      PowMono(b, n, m);
    }
  }

  lemma {:induction false} PowProduct(b: nat, c: nat, n: nat)
    ensures Pow(b * c, n) == Pow(b, n) * Pow(c, n)
  {
    if n > 0 {
      PowProduct(b, c, n - 1);
      MulSwap(b, c, Pow(b, n - 1), Pow(c, n - 1));
    }
  }

  lemma {:induction false} PowPow(b: nat, m: nat, n: nat)
    ensures Pow(b, m * n) == Pow(Pow(b, m), n)
  {
    if n == 0 {
      assert m * 0 == 0;
    } else {
      assert m * n == m + m * (n - 1);
      PowAdd(b, m, m * (n - 1));
      PowPow(b, m, n - 1);
    }
  }

  lemma MulSwap(a: int, b: int, c: int, d: int)
    ensures (a * b) * (c * d) == (a * c) * (b * d)
  {
    assert a * b * c * d == a * (b * (c * d));
    assert a * (b * (c * d)) == a * (c * (b * d));
  }

  lemma MulAssoc(a: int, b: int, c: int)
    ensures (a * b) * c == a * (b * c)
  {
  }

  lemma TenOut(x: int, p: int)
    ensures x * (10 * p) == 10 * (x * p)
  {
  }

  lemma MulRight(x: int, f: int, p: int)
    ensures (x * f) * p == (x * p) * f
  {
  }

  lemma MulSub(a: int, b: int, k: int)
    ensures (a - b) * k == a * k - b * k
  {
  }

  lemma MulMono(x: int, y: int, k: int)
    requires x <= y && 0 <= k
    ensures x * k <= y * k
  {
  }

  lemma MulLess(x: int, y: int, k: int)
    requires x < y && 0 < k
    ensures x * k < y * k
  {
    MulMono(x, y - 1, k);
  }

  lemma QuotientAndRemainder(x: int, d: int)
    requires d > 0
    ensures x == x / d * d + x % d && 0 <= x % d < d
  {
  }

  /** Quotient and remainder are determined by the division equation. */
  lemma DivModUnique(x: int, d: int, q: int, r: int)
    requires 0 < d && 0 <= r < d && x == q * d + r
    ensures x / d == q && x % d == r
  {
    var q', r' := x / d, x % d;
    assert x == q' * d + r';
    assert (q - q') * d == r' - r;
    if q - q' >= 1 {
      MulMono(1, q - q', d);
    } else if q - q' <= -1 {
      MulMono(q - q', -1, d);
    }
  }
}
