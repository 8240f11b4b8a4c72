/** What the loops of `Bignum` do to digit strings, one digit at a time. The loop
    invariants are the named predicates `Difference` and `Product`.
  */
module LimbSteps {
  import opened Powers
  import opened Limbs

  function Max(a: nat, b: nat): nat { if a < b then b else a }

  function Min(a: nat, b: nat): nat { if a < b then a else b }

  /** The value of a C++ uint32_t expression, reduced as unsigned arithmetic does. */
  function Wrap32(x: int): uint32 {
    x % TWO32
  }

  lemma ShiftedDigits(s: seq<int>, t: seq<int>, n: nat, k: nat, e: nat)
    requires n <= |s| && n + k <= |t| && Digits(s, n)
    requires forall i :: 0 <= i < k ==> t[i] == 0
    requires forall i :: 0 <= i < n ==> t[i + k] == s[i]
    ensures Digits(t, n + k)
    ensures Val(t, n + k) * P(e) == Val(s, n) * P(e + k)
    ensures n > 0 ==> t[n + k - 1] == s[n - 1]
  {
    forall j | 0 <= j < n + k ensures 0 <= t[j] < BASE {
      if k <= j {
        assert t[(j - k) + k] == s[j - k];
      }
    }
    ValShift(s, t, n, k);
    PAdd(k, e);
    MulAssoc(Val(s, n), P(k), P(e));
    assert n > 0 ==> t[(n - 1) + k] == s[n - 1];
  }

  /** What `AddDigits` leaves behind, seen as a number and as a clamped digit string. */
  lemma AddedDigits(a: seq<int>, t: seq<int>, b: seq<int>, na: nat, nb: nat, pos: nat, k: nat, e: nat)
    requires |t| == |a| && na <= |a| && nb <= |b| && k + nb <= pos <= |a|
    requires Digits(a, na) && Digits(b, nb) && Digits(t, |t|)
    requires forall j :: na <= j < |a| ==> a[j] == 0
    requires na > 0 ==> a[na - 1] != 0
    requires nb > 0 ==> b[nb - 1] != 0
    requires nb == 0 ==> k == 0
    requires pos > na ==> pos == k + nb || t[pos - 1] != 0
    requires forall j :: pos <= j < |a| ==> t[j] == a[j]
    requires Val(t, pos) == Val(a, pos) + Val(b, nb) * P(k)
    ensures var n := Max(pos, na);
      && (n > 0 ==> t[n - 1] != 0)
      && Val(t, n) * P(e) == Val(a, na) * P(e) + Val(b, nb) * P(k + e)
  {
    var n := Max(pos, na);
    ValSuffix(t, a, pos, n);
    ValZeros(a, na, n);
    assert Val(t, n) == Val(a, na) + Val(b, nb) * P(k);
    AddScaled(Val(a, na), Val(b, nb), k, e);
    ValBound(b, nb);
    MulMono(0, Val(b, nb), P(k));
    if n > 0 && t[n - 1] == 0 {
      ValTop(t, n);
      if n == na {
        ValTop(a, na);
      } else {
        AddedTop(a, b, na, nb, k);
      }
    }
  }

  lemma AddScaled(x: int, y: int, k: nat, e: nat)
    ensures (x + y * P(k)) * P(e) == x * P(e) + y * P(k + e)
  {
    PAdd(k, e);
    MulAssoc(y, P(k), P(e));
  }

  lemma AddedTop(a: seq<int>, b: seq<int>, na: nat, nb: nat, k: nat)
    requires na <= |a| && 0 < nb <= |b| && Digits(a, na) && Digits(b, nb) && b[nb - 1] != 0
    ensures Val(a, na) + Val(b, nb) * P(k) >= P(k + nb - 1)
  {
    ValBound(a, na);
    ValTop(b, nb);
    PAdd(nb - 1, k);
    MulMono(P(nb - 1), Val(b, nb), P(k));
  }

  /** The first i digits of s, short of a borrow, are those of a with x taken away. */
  ghost predicate Difference(s: seq<int>, i: nat, borrow: int, a: seq<int>, x: int)
  {
    i <= |s| && i <= |a| && Val(s, i) - borrow * P(i) == Val(a, i) - x
  }

  lemma DifferenceStart(a: seq<int>, b: seq<int>, k: nat, f: int)
    requires k <= |a|
    ensures Difference(a, k, 0, a, ScaledVal(b, f, k, 0))
  {
  }

  /** Taking z away at place j of a, with the borrows in and out of that place. */
  lemma SubStep(s: seq<int>, t: seq<int>, a: seq<int>, j: nat, c: int, c': int, d: int, x: int, z: int)
    requires j < |s| == |a| && t == s[j := d]
    requires d - c' * BASE == a[j] - z - c
    requires Difference(s, j, c, a, x)
    ensures Difference(t, j + 1, c', a, x + z * P(j))
  {
    ValFrame(s, t, j);
    Borrowed(c, c', d, a[j], z, P(j));
  }

  lemma Borrowed(c: int, c': int, d: int, y: int, z: int, p: int)
    requires d - c' * BASE == y - z - c
    ensures d * p - c' * (BASE * p) == y * p - z * p - c * p
  {
    assert (d - c' * BASE) * p == (y - z - c) * p;
  }

  /** As `SubStep`, with z the next digit of a multiple of b. */
  lemma SubColumn(s: seq<int>, t: seq<int>, a: seq<int>, b: seq<int>, i: nat, k: nat, f: int,
                  c: int, c': int, d: int)
    requires k + i < |s| == |a| && i < |b| && t == s[k + i := d]
    requires d - c' * BASE == a[k + i] - f * b[i] - c
    requires Difference(s, k + i, c, a, ScaledVal(b, f, k, i))
    ensures Difference(t, k + i + 1, c', a, ScaledVal(b, f, k, i + 1))
  {
    SubStep(s, t, a, k + i, c, c', d, ScaledVal(b, f, k, i), f * b[i]);
  }

  lemma DifferenceEnd(s: seq<int>, i: nat, n: nat, a: seq<int>, x: int)
    requires i <= n <= |s| && n <= |a|
    requires forall j :: i <= j < n ==> s[j] == a[j]
    requires Difference(s, i, 0, a, x)
    ensures Val(s, n) == Val(a, n) - x
  {
    ValSuffix(s, a, i, n);
  }

  /** While there is a borrow left, the digits above cannot all have been used up. */
  lemma BorrowFits(s: seq<int>, a: seq<int>, i: nat, n: nat, borrow: int, x: int)
    requires i <= n <= |s| && n <= |a| && Digits(s, n)
    requires Difference(s, i, borrow, a, x) && x <= Val(a, n)
    requires borrow >= 1
    ensures i < n
  {
    if i == n {
      ValBound(s, n);
      MulMono(1, borrow, P(n));
    }
  }

  lemma BorrowBit(x: int, y: int)
    requires 0 <= x < BASE && 0 <= y <= BASE
    ensures var difference := Wrap32(x - y);
      && 0 <= difference / 0x8000_0000 <= 1
      && difference % BASE - difference / 0x8000_0000 * BASE == x - y
  {
  }

  /** `f` times the first n digits of b, moved up by k places. */
  function ScaledVal(b: seq<int>, f: int, k: nat, n: nat): int
    requires n <= |b|
  {
    if n == 0 then 0 else ScaledVal(b, f, k, n - 1) + (f * b[n - 1]) * P(k + n - 1)
  }

  lemma {:induction false} ScaledValIs(b: seq<int>, f: int, k: nat, n: nat)
    requires n <= |b|
    ensures ScaledVal(b, f, k, n) == f * (Val(b, n) * P(k))
  {
    if n > 0 {
      ScaledValIs(b, f, k, n - 1);
      PAdd(n - 1, k);
      ScaledColumn(f, Val(b, n - 1), b[n - 1], P(n - 1), P(k));
    }
  }

  lemma ScaledColumn(f: int, v: int, y: int, p: int, q: int)
    ensures f * (v * q) + (f * y) * (p * q) == f * ((v + y * p) * q)
  {
    assert (v + y * p) * q == v * q + y * (p * q);
    assert f * (y * (p * q)) == (f * y) * (p * q);
  }

  /** Two aligned numbers are ordered as their mantissas. */
  lemma AlignedDifference(x: int, y: int, f: int, k: nat, e: nat)
    ensures (x - f * (y * P(k))) * P(e) == x * P(e) - f * (y * P(k + e))
    ensures f * (y * P(k + e)) <= x * P(e) ==> f * (y * P(k)) <= x
  {
    PAdd(k, e);
    var z := f * (y * P(k));
    MulAssoc(f, y * P(k), P(e));
    MulAssoc(y, P(k), P(e));
    assert (x - z) * P(e) == x * P(e) - z * P(e);
    if z > x {
      MulLess(x, z, P(e));
    }
  }

  /** The first i digits of s and a carry make f times the first i digits of a. */
  ghost predicate Product(s: seq<int>, i: nat, carry: int, a: seq<int>, f: int)
  {
    i <= |s| && i <= |a| && Val(s, i) + carry * P(i) == Val(a, i) * f
  }

  lemma ProductStart(s: seq<int>, a: seq<int>, f: int)
    ensures Product(s, 0, 0, a, f)
  {
  }

  /** One digit of a multiplication by f, with the carries in and out of its place. */
  lemma MulStep(s: seq<int>, t: seq<int>, a: seq<int>, i: nat, f: int, c: int, c': int, d: int)
    requires i < |s| == |a| && t == s[i := d]
    requires d + c' * BASE == f * a[i] + c
    requires Product(s, i, c, a, f)
    ensures Product(t, i + 1, c', a, f)
  {
    CarryStep(s, t, i, c, c', d, f * a[i]);
    ScaledDigit(Val(a, i), a[i], f, P(i));
  }

  lemma ScaledDigit(v: int, x: int, f: int, p: int)
    ensures v * f + (f * x) * p == (v + x * p) * f
  {
    assert (f * x) * p == (x * p) * f;
  }

  lemma CarryFits(s: seq<int>, n: nat, carry: int, v: int, m: nat)
    requires n <= |s| && Digits(s, n) && carry >= 1
    requires Val(s, n) + carry * P(n) == v < P(m)
    ensures n < m
  {
    ValBound(s, n);
    MulMono(1, carry, P(n));
    POrder(n, m);
  }

  lemma PushDigit(s: seq<int>, t: seq<int>, n: nat, carry: int, v: int)
    requires n < |s| && t == s[n := carry % BASE]
    requires Val(s, n) + carry * P(n) == v
    ensures Val(t, n + 1) + carry / BASE * P(n + 1) == v
  {
    CarryStep(s, t, n, carry, carry / BASE, carry % BASE, 0);
  }

  /** A multiple of a clamped number is clamped if it was not given new digits. */
  lemma ScaledTop(a: seq<int>, t: seq<int>, na: nat, nt: nat, f: int)
    requires na <= |a| && nt <= |t| && Digits(a, na) && Digits(t, nt) && f >= 1
    requires na > 0 ==> a[na - 1] != 0
    requires nt == na || (nt > 0 && t[nt - 1] != 0)
    requires Val(t, nt) == Val(a, na) * f
    ensures nt > 0 ==> t[nt - 1] != 0
  {
    if nt == na && na > 0 {
      ValTop(a, na);
      MulMono(1, f, Val(a, na));
      ValTop(t, nt);
    }
  }

  lemma ShiftFactors(shift: nat)
    requires shift < 28
    ensures Pow(2, shift) * Pow(2, 28 - shift) == BASE
    ensures 1 <= Pow(2, shift) <= BASE
  {
    Pow2Of28();
    PowAdd(2, shift, 28 - shift);
    MulMono(1, Pow(2, 28 - shift), Pow(2, shift));
  }

  lemma ShiftDigit(x: int, carry: int, up: nat, down: nat)
    requires 0 <= x < BASE && 0 <= carry < up && up * down == BASE
    ensures 0 <= x / down < up
    ensures var d := Wrap32(x * up + carry) % BASE;
      d + x / down * BASE == up * x + carry
  {
    QuotientBelow(x, down, up);
    ShiftSplit(x, x / down, x % down, carry, up, down);
    DivModUnique(x * up + carry, BASE, x / down, x % down * up + carry);
    MaskAfterWrap(x * up + carry);
  }

  lemma MaskAfterWrap(y: int)
    ensures Wrap32(y) % BASE == y % BASE
  {
    var r := y % TWO32;
    DivModUnique(y, BASE, 16 * (y / TWO32) + r / BASE, r % BASE);
  }

  lemma ShiftSplit(x: int, q: int, r: int, carry: int, up: int, down: int)
    requires x == q * down + r && 0 <= r < down && 0 <= carry < up && up * down == BASE
    ensures x * up + carry == q * BASE + (r * up + carry)
    ensures 0 <= r * up + carry < BASE
  {
    MulRight(q, down, up);
    MulAssoc(q, down, up);
    assert (q * down + r) * up == (q * down) * up + r * up;
    MulMono(r + 1, down, up);
    MulMono(0, r, up);
    assert (r + 1) * up == r * up + up;
  }

  lemma QuotientBelow(x: int, d: nat, m: nat)
    requires 0 < d && 0 <= x < m * d
    ensures 0 <= x / d < m && x == x / d * d + x % d && 0 <= x % d < d
  {
    var q := x / d;
    if q >= m {
      MulMono(m, q, d);
    } else if q < 0 {
      MulMono(q, -1, d);
    }
  }
}
