/** Positional values in base 2^28, the number system of `Bignum`.

    `Val(s, n)` is the number whose n least significant digits are s[0], s[1], ...
  */
module Limbs {
  import opened Powers

  // kBigitSize == 28
  const BASE: int := 0x1000_0000

  function P(n: nat): (p: nat)
    ensures p > 0
  {
    if n == 0 then 1 else BASE * P(n - 1)
  }

  function Val(s: seq<int>, n: nat): int
    requires n <= |s|
  {
    if n == 0 then 0 else Val(s, n - 1) + s[n - 1] * P(n - 1)
  }

  ghost predicate Digits(s: seq<int>, n: nat)
    requires n <= |s|
  {
    forall i :: 0 <= i < n ==> 0 <= s[i] < BASE
  }

  lemma {:induction false} PAdd(m: nat, n: nat)
    ensures P(m + n) == P(m) * P(n)
  {
    if m == 0 {
    } else {
      PAdd(m - 1, n);
      assert BASE * (P(m - 1) * P(n)) == (BASE * P(m - 1)) * P(n);
    }
  }

  lemma {:induction false} PMono(m: nat, n: nat)
    requires m <= n
    ensures P(m) <= P(n)
  {
    if m < n {
      PMono(m, n - 1);
    }
  }

  lemma POrder(m: nat, n: nat)
    requires P(m) < P(n)
    ensures m < n
  {
    if n <= m {
      PMono(n, m);
    }
  }

  lemma {:induction false} PIsPow2(n: nat)
    ensures P(n) == Pow(2, 28 * n)
  {
    if n > 0 {
      PIsPow2(n - 1);
      PowAdd(2, 28, 28 * (n - 1));
      Pow2Of28();
    }
  }

  lemma Pow2Of28()
    ensures Pow(2, 28) == BASE
  {
    assert Pow(2, 8) == 256;
    PowAdd(2, 8, 8);
    PowAdd(2, 16, 8);
    assert Pow(2, 4) == 16;
    PowAdd(2, 24, 4);
  }

  lemma AddMul(x: int, y: int, p: int, q: int)
    ensures (x + y * p) * q == x * q + y * (p * q)
  {
    MulAssoc(y, p, q);
  }

  lemma {:induction false} ValFrame(s: seq<int>, t: seq<int>, n: nat)
    requires n <= |s| && n <= |t|
    requires forall i :: 0 <= i < n ==> s[i] == t[i]
    ensures Val(s, n) == Val(t, n)
  {
    if n > 0 {
      ValFrame(s, t, n - 1);
    }
  }

  lemma {:induction false} ValBound(s: seq<int>, n: nat)
    requires n <= |s| && Digits(s, n)
    ensures 0 <= Val(s, n) < P(n)
  {
    if n > 0 {
      ValBound(s, n - 1);
      MulMono(s[n - 1], BASE - 1, P(n - 1));
    }
  }

  /** The value is at least what its top digit stands for. */
  lemma ValTop(s: seq<int>, n: nat)
    requires 0 < n <= |s| && Digits(s, n)
    ensures s[n - 1] * P(n - 1) <= Val(s, n) < (s[n - 1] + 1) * P(n - 1)
    ensures s[n - 1] != 0 <==> Val(s, n) >= P(n - 1)
  {
    ValBound(s, n - 1);
    assert (s[n - 1] + 1) * P(n - 1) == s[n - 1] * P(n - 1) + P(n - 1);
    if s[n - 1] != 0 {
      MulMono(1, s[n - 1], P(n - 1));
    }
  }

  lemma {:induction false} ValZeros(s: seq<int>, m: nat, n: nat)
    requires m <= n <= |s|
    requires forall i :: m <= i < n ==> s[i] == 0
    ensures Val(s, n) == Val(s, m)
  {
    if m < n {
      ValZeros(s, m, n - 1);
    }
  }

  /** A number below P(m) whose top digit is non-zero has at most m digits. */
  lemma LengthFromValue(s: seq<int>, n: nat, m: nat)
    requires n <= |s| && Digits(s, n)
    requires n > 0 ==> s[n - 1] != 0
    requires Val(s, n) < P(m)
    ensures n <= m
  {
    if n > 0 {
      ValTop(s, n);
      POrder(n - 1, m);
    }
  }

  /** t holds the digits of s moved up by k places. */
  lemma {:induction false} ValShift(s: seq<int>, t: seq<int>, n: nat, k: nat)
    requires n <= |s| && n + k <= |t|
    requires forall i :: 0 <= i < k ==> t[i] == 0
    requires forall i :: 0 <= i < n ==> t[i + k] == s[i]
    ensures Val(t, n + k) == Val(s, n) * P(k)
  {
    if n == 0 {
      ValZeros(t, 0, k);
    } else {
      ValShift(s, t, n - 1, k);
      PAdd(n - 1, k);
      assert t[n + k - 1] == s[n - 1];
      AddMul(Val(s, n - 1), s[n - 1], P(n - 1), P(k));
    }
  }

  /** Two digit strings that agree from m on differ in value as they do below m. */
  lemma {:induction false} ValSuffix(s: seq<int>, t: seq<int>, m: nat, n: nat)
    requires m <= n <= |s| && n <= |t|
    requires forall i :: m <= i < n ==> s[i] == t[i]
    ensures Val(s, n) - Val(s, m) == Val(t, n) - Val(t, m)
  {
    if m < n {
      ValSuffix(s, t, m, n - 1);
    }
  }

  /** Writing digit d at place i, with the carries in and out of that place. */
  lemma CarryStep(s: seq<int>, t: seq<int>, i: nat, c: int, c': int, d: int, x: int)
    requires i < |s| && t == s[i := d]
    requires d + c' * BASE == x + c
    ensures Val(t, i + 1) + c' * P(i + 1) == Val(s, i) + c * P(i) + x * P(i)
  {
    ValFrame(s, t, i);
    Distribute(c, c', d, x, P(i));
  }

  lemma Distribute(c: int, c': int, d: int, x: int, p: int)
    requires d + c' * BASE == x + c
    ensures d * p + c' * (BASE * p) == c * p + x * p
  {
    assert (d + c' * BASE) * p == (x + c) * p;
  }
}
