/** Why cutting a decimal to 780 digits, the last one a '1', does not change the double it
    rounds to: no boundary between doubles lies strictly between two neighbouring decimals
    of 779 digits.
  */
module CutDigits {
  import opened Powers
  import opened BinaryDecimal
  import opened Ieee
  import opened NearestDouble

  const MAX_DECIMAL_POWER: int := 309
  const MIN_DECIMAL_POWER: int := -324
  const MAX_SIGNIFICANT_DIGITS: nat := 780

  // ten to this power is the least number with all the digits that are kept
  const KEPT_DIGITS: nat := MAX_SIGNIFICANT_DIGITS - 2

  const BOUNDARY_BITS: nat := 54

  /** Two decimals on the same side of every boundary round to the same double. */
  ghost predicate SameSide(n: nat, q: int, n': nat, q': int) {
    forall d: uint64 {:trigger BoundaryInUnits(d)} | d < INFINITY ::
      var o, o' := Offset(n, q, BoundaryInUnits(d)), Offset(n', q', BoundaryInUnits(d));
      (o < 0 <==> o' < 0) && (o == 0 <==> o' == 0)
  }

  lemma SameSideRoundsAlike(n: nat, q: int, n': nat, q': int, d: uint64)
    requires SameSide(n, q, n', q')
    ensures Nearest(d, n, q) <==> Nearest(d, n', q')
  {
    NearestIsBetween(d, n, q);
    NearestIsBetween(d, n', q');
    hide Offset, Nearest, BoundaryInUnits, Significand;
  }

  /** Moving zeros between digits and exponent does not change the decimal. */
  lemma ZerosMoved(n: nat, q: int, s: nat, u: nat)
    ensures var o, o' := Offset(n * Pow(10, s), q, u), Offset(n, q + s, u);
      (o < 0 <==> o' < 0) && (o == 0 <==> o' == 0)
  {
    ShiftPower(UNIT_EXPONENT, q, s);
    var p := Pow(10, s);
    hide Above, Below, Pow;
    var b := Below(UNIT_EXPONENT, q);
    MulMono(1, p, b);
    MulAssoc(Above(UNIT_EXPONENT, q + s), p, b);
    RatioOrder(u, n, Above(UNIT_EXPONENT, q), p * b, Above(UNIT_EXPONENT, q + s), Below(UNIT_EXPONENT, q + s));
    MulAssoc(n, p, b);
  }

  lemma TrailingZeros(n: nat, q: int, s: nat)
    ensures SameSide(n * Pow(10, s), q, n, q + s)
  {
    hide Offset;
    forall d: uint64 {:trigger BoundaryInUnits(d)} | d < INFINITY
      ensures var o, o' := Offset(n * Pow(10, s), q, BoundaryInUnits(d)), Offset(n, q + s, BoundaryInUnits(d));
        (o < 0 <==> o' < 0) && (o == 0 <==> o' == 0)
    {
      ZerosMoved(n, q, s, BoundaryInUnits(d));
    }
  }

  lemma OffsetMono(n: nat, n': nat, q: int, u: nat)
    requires n <= n'
    ensures Offset(n, q, u) <= Offset(n', q, u) && (n < n' ==> Offset(n, q, u) < Offset(n', q, u))
  {
    hide Above, Below;
    MulMono(n, n', Below(UNIT_EXPONENT, q));
    if n < n' {
      MulLess(n, n', Below(UNIT_EXPONENT, q));
    }
  }

  /** If the boundary is z * 10^(q+s), it is not between t and t + 1 times that power. */
  lemma BoundaryOnGrid(n: nat, q: int, s: nat, t: nat, r: nat, z: nat, u: nat)
    requires n == t * Pow(10, s) + r && 0 < r < Pow(10, s) && Offset(z, q + s, u) == 0
    ensures Offset(n, q, u) != 0 && (Offset(n, q, u) < 0 <==> t < z)
  {
    ZerosMoved(z, q, s, u);
    hide Offset;
    if t < z {
      MulMono(t + 1, z, Pow(10, s));
      OffsetMono(n, z * Pow(10, s), q, u);
    } else {
      MulMono(z, t, Pow(10, s));
      OffsetMono(z * Pow(10, s), n, q, u);
    }
  }

  /** If it is no larger than t * 10^(q+s), the decimal is above it. */
  lemma BoundaryBelow(n: nat, q: int, s: nat, t: nat, r: nat, u: nat)
    requires n == t * Pow(10, s) + r && 0 < r && Offset(t, q + s, u) >= 0
    ensures Offset(n, q, u) > 0
  {
    ZerosMoved(t, q, s, u);
    hide Offset;
    OffsetMono(t * Pow(10, s), n, q, u);
  }

  lemma {:induction false} EightBelowTen(n: nat)
    ensures Pow(2, 3 * n) <= Pow(10, n)
  {
    if n > 0 {
      EightBelowTen(n - 1);
      PowAdd(2, 3, 3 * (n - 1));
      assert Pow(2, 3) == 8;
      MulMono(Pow(2, 3 * (n - 1)), Pow(10, n - 1), 8);
    }
  }

  lemma {:induction false} ThousandBelow1024(i: nat)
    ensures Pow(10, 3 * i) <= Pow(2, 10 * i)
  {
    if i > 0 {
      ThousandBelow1024(i - 1);
      PowAdd(2, 10, 10 * (i - 1));
      PowAdd(10, 3, 3 * (i - 1));
      assert Pow(2, 5) == 32;
      PowAdd(2, 5, 5);
      assert Pow(10, 3) == 1000;
      hide Pow;
      MulMono(Pow(10, 3 * (i - 1)), Pow(2, 10 * (i - 1)), 1000);
      MulMono(1000, 1024, Pow(2, 10 * (i - 1)));
    }
  }

  /** Small doubles have large units: with p decimals fewer than k binary places, the
      boundary is below every number of 779 digits in that place. */
  lemma ManyDigitsReach(f: nat, p: nat, k: nat, bits: nat, digits: nat)
    requires bits == BOUNDARY_BITS && f < Pow(2, bits) && p < k <= 1075 && digits == KEPT_DIGITS
    ensures f * Pow(10, p) <= Pow(10, digits) * Pow(2, k)
  {
    hide Pow;
    if p + 20 <= digits {
      FewDecimals(f, p, k, bits, digits);
    } else if p <= digits {
      PowMono(2, bits, k);
      PowMono(10, p, digits);
      MulMono(Pow(10, p), Pow(10, digits), f);
      MulMono(f, Pow(2, k), Pow(10, digits));
    } else {
      ManyDecimals(f, p - digits, k, bits, digits);
    }
  }

  lemma FewDecimals(f: nat, p: nat, k: nat, bits: nat, digits: nat)
    requires bits == BOUNDARY_BITS && f < Pow(2, bits) && p + 20 <= digits
    ensures f * Pow(10, p) <= Pow(10, digits) * Pow(2, k)
  {
    hide Pow;
    var twenty: nat := 20;
    EightBelowTen(twenty);
    PowMono(2, bits, 3 * twenty);
    PowAdd(10, twenty, p);
    PowMono(10, twenty + p, digits);
    MulMono(f, Pow(10, twenty), Pow(10, p));
    MulMono(1, Pow(2, k), Pow(10, digits));
  }

  lemma ManyDecimals(f: nat, j: nat, k: nat, bits: nat, digits: nat)
    requires bits == BOUNDARY_BITS && f < Pow(2, bits) && digits + j < k <= 1075 && digits == KEPT_DIGITS
    ensures f * Pow(10, digits + j) <= Pow(10, digits) * Pow(2, k)
  {
    hide Pow;
    var i := (j + 2) / 3;
    ThousandBelow1024(i);
    PowMono(10, j, 3 * i);
    PowAdd(2, bits, 10 * i);
    PowMono(2, bits + 10 * i, k);
    PowAdd(10, digits, j);
    ProductBound(f, Pow(10, j), Pow(2, bits), Pow(2, 10 * i), Pow(10, digits), Pow(2, k));
  }

  lemma ProductBound(f: nat, x: nat, a: nat, b: nat, p: nat, c: nat)
    requires f < a && x <= b && a * b <= c
    ensures f * (p * x) <= p * c
  {
    MulMono(x, b, f);
    MulMono(f, a, b);
    MulMono(f * x, c, p);
    assert f * (p * x) == (f * x) * p;
  }

  /** The factors of a decimal and a number of units. */
  lemma UnitFactors(m: int, unit: nat)
    requires unit == -UNIT_EXPONENT
    ensures m <= 0 ==> Above(UNIT_EXPONENT, m) == Pow(10, -m) && Below(UNIT_EXPONENT, m) == Pow(2, unit)
    ensures m > 0 ==> Above(UNIT_EXPONENT, m) == 1 && Below(UNIT_EXPONENT, m) == Pow(2, unit) * Pow(10, m)
  {
    PowZero(10);
    hide Pow;
  }

  /** z * 10^m == u units */
  ghost predicate GridPoint(z: nat, m: int, u: nat) {
    Offset(z, m, u) == 0
  }

  /** A boundary f * 2^e is either on the grid of 10^m, or below all numbers that have 779
      digits there. */
  lemma OnGridOrBelow(f: nat, e: int, m: int, t: nat, bits: nat, digits: nat, unit: nat, u: nat)
    requires bits == BOUNDARY_BITS && digits == KEPT_DIGITS && unit == -UNIT_EXPONENT
    requires f < Pow(2, bits) && 0 <= e + unit && e <= 971 && t >= Pow(10, digits)
    requires u == f * Pow(2, e + unit)
    ensures Offset(t, m, u) >= 0 || exists z: nat :: GridPoint(z, m, u)
  {
    hide Pow, Offset, GridPoint;
    if m <= 0 && m <= e {
      OnGrid(f, e, m, unit);
    } else if m > 0 {
      BelowLarge(f, e, m, t, bits, digits, unit, u);
    } else {
      BelowSmall(f, e, m, t, bits, digits, unit, u);
    }
  }

  lemma OnGrid(f: nat, e: int, m: int, unit: nat)
    requires unit == -UNIT_EXPONENT && 0 <= e + unit && m <= 0 && m <= e
    ensures var u := f * Pow(2, e + unit); exists z: nat :: GridPoint(z, m, u)
  {
    hide Above, Below, Pow;
    UnitFactors(m, unit);
    PowProduct(5, 2, -m);
    PowAdd(2, e + unit, -m);
    PowAdd(2, e - m, unit);
    var z := f * Pow(5, -m) * Pow(2, e - m);
    GridProduct(f, Pow(5, -m), Pow(2, e - m), Pow(2, unit), Pow(2, e + unit), Pow(2, -m));
    assert GridPoint(z, m, f * Pow(2, e + unit));
  }

  lemma GridProduct(f: nat, five: nat, a: nat, b: nat, c: nat, two: nat)
    requires a * b == c * two
    ensures (f * five * a) * b == (f * c) * (five * two) && f * five * a >= 0
  {
    assert (f * five * a) * b == (f * five) * (a * b);
    MulSwap(f, c, five, two);
    MulMono(0, f, five);
    MulMono(0, f * five, a);
  }

  lemma BelowLarge(f: nat, e: int, m: nat, t: nat, bits: nat, digits: nat, unit: nat, u: nat)
    requires bits == BOUNDARY_BITS && digits == KEPT_DIGITS && unit == -UNIT_EXPONENT && m > 0
    requires f < Pow(2, bits) && 0 <= e + unit && e <= 971 && t >= Pow(10, digits)
    requires u == f * Pow(2, e + unit)
    ensures Offset(t, m, u) >= 0
  {
    hide Above, Below, Pow;
    UnitFactors(m, unit);
    EightBelowTen(digits);
    PowAdd(2, bits, e + unit);
    PowAdd(2, 3 * digits, unit);
    PowMono(2, bits + (e + unit), 3 * digits + unit);
    LargeBound(f, Pow(2, bits), Pow(2, e + unit), Pow(2, 3 * digits), Pow(2, unit), Pow(10, m), t);
  }

  lemma LargeBound(f: nat, a: nat, b: nat, c: nat, d: nat, p: nat, t: nat)
    requires f < a && a * b <= c * d && c <= t && p > 0
    ensures f * b * 1 <= t * (d * p)
  {
    MulMono(f, a, b);
    MulMono(c, t, d);
    MulMono(1, p, t * d);
    MulAssoc(t, d, p);
  }

  lemma BelowSmall(f: nat, e: int, m: int, t: nat, bits: nat, digits: nat, unit: nat, u: nat)
    requires bits == BOUNDARY_BITS && digits == KEPT_DIGITS && unit == -UNIT_EXPONENT
    requires f < Pow(2, bits) && 0 <= e + unit && e < m <= 0 && t >= Pow(10, digits)
    requires u == f * Pow(2, e + unit)
    ensures Offset(t, m, u) >= 0
  {
    hide Above, Below, Pow;
    UnitFactors(m, unit);
    ManyDigitsReach(f, -m, -e, bits, digits);
    PowAdd(2, -e, e + unit);
    SmallBound(f, Pow(2, e + unit), Pow(10, -m), t, Pow(10, digits), Pow(2, -e));
  }

  lemma SmallBound(f: nat, b: nat, p: nat, t: nat, c: nat, k: nat)
    requires f * p <= c * k && c <= t
    ensures (f * b) * p <= t * (k * b)
  {
    MulMono(c, t, k);
    MulMono(f * p, t * k, b);
    MulRight(f, b, p);
    MulAssoc(t, k, b);
  }

  /** The first 779 of more than 780 digits, followed by a one, round like all of them. */
  lemma CutRoundsAlike(n: nat, q: int, s: nat, t: nat, r: nat, digits: nat)
    requires digits == KEPT_DIGITS && t >= Pow(10, digits)
    requires s >= 1 && n == t * Pow(10, s) + r && 0 < r < Pow(10, s)
    ensures SameSide(n, q, 10 * t + 1, q + s - 1)
  {
    forall d: uint64 {:trigger BoundaryInUnits(d)} | d < INFINITY
      ensures var o, o' := Offset(n, q, BoundaryInUnits(d)), Offset(10 * t + 1, q + s - 1, BoundaryInUnits(d));
        (o < 0 <==> o' < 0) && (o == 0 <==> o' == 0)
    {
      CutAt(n, q, s, t, r, digits, d);
    }
  }

  lemma CutAt(n: nat, q: int, s: nat, t: nat, r: nat, digits: nat, d: uint64)
    requires digits == KEPT_DIGITS && t >= Pow(10, digits)
    requires s >= 1 && n == t * Pow(10, s) + r && 0 < r < Pow(10, s) && d < INFINITY
    ensures var o, o' := Offset(n, q, BoundaryInUnits(d)), Offset(10 * t + 1, q + s - 1, BoundaryInUnits(d));
      (o < 0 <==> o' < 0) && (o == 0 <==> o' == 0)
  {
    hide Offset, Pow, GridPoint, UpperBoundary, BoundaryInUnits;
    var bits, unit: nat := 54, -UNIT_EXPONENT;
    BoundaryIs(d, bits, unit);
    OnGridOrBelow(UpperBoundary(d).f, UpperBoundary(d).e, q + s, t, bits, digits, unit, BoundaryInUnits(d));
    CutAtUnits(n, q, s, q + s, t, r, BoundaryInUnits(d));
  }

  lemma BoundaryIs(d: uint64, bits: nat, unit: nat)
    requires d < INFINITY && bits == BOUNDARY_BITS && unit == -UNIT_EXPONENT
    ensures var b := UpperBoundary(d);
      b.f < Pow(2, bits) && 0 <= b.e + unit && b.e <= 971 && BoundaryInUnits(d) == b.f * Pow(2, b.e + unit)
  {
    BoundaryBits(bits);
  }

  lemma CutAtUnits(n: nat, q: int, s: nat, m: int, t: nat, r: nat, u: nat)
    requires m == q + s && s >= 1 && n == t * Pow(10, s) + r && 0 < r < Pow(10, s)
    requires Offset(t, m, u) >= 0 || exists z: nat :: GridPoint(z, m, u)
    ensures var o, o' := Offset(n, q, u), Offset(10 * t + 1, q + s - 1, u);
      (o < 0 <==> o' < 0) && (o == 0 <==> o' == 0)
  {
    OneDigit(t);
    hide Offset, Pow;
    if Offset(t, m, u) >= 0 {
      BoundaryBelow(n, q, s, t, r, u);
      BoundaryBelow(10 * t + 1, q + s - 1, 1, t, 1, u);
    } else {
      var z: nat :| GridPoint(z, m, u);
      BoundaryOnGrid(n, q, s, t, r, z, u);
      BoundaryOnGrid(10 * t + 1, q + s - 1, 1, t, 1, z, u);
    }
  }

  lemma OneDigit(t: nat)
    ensures Pow(10, 1) == 10 && t * Pow(10, 1) + 1 == 10 * t + 1
  {
  }

  lemma BoundaryBits(bits: nat)
    requires bits == BOUNDARY_BITS
    ensures Pow(2, bits) == 4 * HIDDEN_BIT_53
  {
    assert Pow(2, 1) == 2 && Pow(2, 2) == 4 && Pow(2, 3) == 8;
    hide Pow;
    PowAdd(2, 3, 3);
    PowAdd(2, 6, 3);
    PowAdd(2, 9, 9);
    PowAdd(2, 18, 9);
    assert Pow(2, 27) == 0x800_0000;
    PowAdd(2, 27, 27);
  }

  lemma BaseOfTens(a: nat, b: nat)
    requires a == 28 && b == 93
    ensures Pow(10, a) >= Pow(2, b)
  {
    assert Pow(10, 7) == 10000000;
    assert Pow(2, 3) == 8;
    hide Pow;
    PowAdd(10, 7, 7);
    assert Pow(10, 14) == 100000000000000;
    PowAdd(10, 14, 14);
    PowAdd(2, 3, 3);
    assert Pow(2, 6) == 64;
    PowAdd(2, 6, 6);
    assert Pow(2, 12) == 0x1000;
    PowAdd(2, 12, 12);
    assert Pow(2, 24) == 0x100_0000;
    PowAdd(2, 24, 24);
    assert Pow(2, 48) == 0x1_0000_0000_0000;
    PowAdd(2, 12, 6);
    assert Pow(2, 18) == 0x4_0000;
    PowAdd(2, 18, 3);
    assert Pow(2, 21) == 0x20_0000;
    PowAdd(2, 21, 24);
    assert Pow(2, 45) == 0x2000_0000_0000;
    PowAdd(2, 45, 48);
  }

  /** 10^28 is just above 2^93. */
  lemma {:induction false} TensAboveTwos(i: nat, a: nat, b: nat)
    requires a == 28 && b == 93
    ensures Pow(2, b * i) <= Pow(10, a * i)
  {
    hide Pow;
    if i == 0 {
      PowZero(2);
      PowZero(10);
    } else {
      TensAboveTwos(i - 1, a, b);
      BaseOfTens(a, b);
      PowAdd(2, b, b * (i - 1));
      PowAdd(10, a, a * (i - 1));
      MulMono(Pow(2, b), Pow(10, a), Pow(2, b * (i - 1)));
      MulMono(Pow(2, b * (i - 1)), Pow(10, a * (i - 1)), Pow(10, a));
    }
  }

  /** 2^1024 is below 10^309, and 2^1075 below 10^324. */
  lemma DecimalRange(largest: nat, smallest: nat, bits: nat, unit: nat)
    requires largest == MAX_DECIMAL_POWER && smallest == -MIN_DECIMAL_POWER && bits == 1024 && unit == -UNIT_EXPONENT
    ensures Pow(2, bits) <= Pow(10, largest) && Pow(2, unit) <= Pow(10, smallest)
  {
    hide Pow;
    var i, a, b: nat := 11, 28, 93;
    var ones, digits: nat := 1, 16;
    TensAboveTwos(i, a, b);
    DigitPowers(ones, digits);
    Extend(b * i, a * i, ones, ones);
    Extend(b * i, a * i, 53, digits);
    PowMono(2, unit, b * i + 53);
  }

  lemma Extend(twos: nat, tens: nat, moreTwos: nat, moreTens: nat)
    requires Pow(2, twos) <= Pow(10, tens) && Pow(2, moreTwos) <= Pow(10, moreTens)
    ensures Pow(2, twos + moreTwos) <= Pow(10, tens + moreTens)
  {
    hide Pow;
    PowAdd(2, twos, moreTwos);
    PowAdd(10, tens, moreTens);
    MulMono(Pow(2, twos), Pow(10, tens), Pow(2, moreTwos));
    MulMono(Pow(2, moreTwos), Pow(10, moreTens), Pow(10, tens));
  }

  lemma DigitPowers(ones: nat, digits: nat)
    requires ones == 1 && digits == 16
    ensures Pow(2, ones) <= Pow(10, ones) && Pow(2, 53) <= Pow(10, digits)
  {
    BoundaryBits(54);
    assert Pow(2, 54) == 2 * Pow(2, 53);
    assert Pow(10, 8) == 100000000;
    PowAdd(10, 8, 8);
  }

  lemma ZeroRounds(q: int)
    ensures Nearest(0, 0, q)
  {
    NearestIsBetween(0, 0, q);
    assert BoundaryInUnits(0) > 0 by { NextInUnits(0); }
    hide Above, Below, Nearest, BoundaryInUnits;
    MulMono(1, BoundaryInUnits(0), Above(UNIT_EXPONENT, q));
    assert BelowUpper(0, 0, q);
  }

  /** Numbers of 10^309 and more round to infinity. */
  lemma LargeRounds(n: nat, length: nat, q: int, largest: nat)
    requires largest == MAX_DECIMAL_POWER && length > 0 && n >= Pow(10, length - 1) && q + length - 1 >= largest
    ensures Nearest(INFINITY, n, q)
  {
    hide Above, Below, Pow, BoundaryInUnits, Nearest, Offset;
    var m: nat := q + length - 1;
    var u := BoundaryInUnits(INFINITY - 1);
    NearestIsBetween(INFINITY, n, q);
    LargePower(m, largest, u, 1024, -UNIT_EXPONENT);
    ZerosMoved(1, q, length - 1, u);
    OffsetMono(1 * Pow(10, length - 1), n, q, u);
    assert AboveLower(INFINITY, n, q);
  }

  lemma LargePower(m: nat, largest: nat, u: nat, bits: nat, unit: nat)
    requires largest == MAX_DECIMAL_POWER <= m && u == BoundaryInUnits(INFINITY - 1) && bits == 1024 && unit == -UNIT_EXPONENT
    ensures Offset(1, m, u) > 0
  {
    hide Above, Below, Pow, BoundaryInUnits;
    InfinityUnits(bits, unit);
    DecimalRange(largest, -MIN_DECIMAL_POWER, bits, unit);
    PowMono(10, largest, m);
    UnitFactors(m, unit);
    MulMono(Pow(2, bits), Pow(10, m), Pow(2, unit));
  }

  lemma InfinityUnits(bits: nat, unit: nat)
    requires bits == 1024 && unit == -UNIT_EXPONENT
    ensures BoundaryInUnits(INFINITY - 1) < Pow(2, bits) * Pow(2, unit)
  {
    hide Pow;
    NextInUnits(INFINITY - 1);
    var k: nat := bits + unit - 52;
    HiddenBitPower(52);
    PowAdd(2, bits, unit);
    PowAdd(2, 52, k);
    assert InUnits(INFINITY) == HIDDEN_BIT_53 * Pow(2, k);
  }

  lemma HiddenBitPower(bits: nat)
    requires bits == 52
    ensures Pow(2, bits) == HIDDEN_BIT_53
  {
    BoundaryBits(54);
    TwoMoreBits(bits);
  }

  lemma TwoMoreBits(bits: nat)
    ensures Pow(2, bits + 2) == 4 * Pow(2, bits)
  {
  }

  /** Numbers below 10^-324 round to zero. */
  lemma SmallRounds(n: nat, length: nat, q: int, smallest: nat)
    requires smallest == -MIN_DECIMAL_POWER && n < Pow(10, length) && q + length <= MIN_DECIMAL_POWER
    ensures Nearest(0, n, q)
  {
    hide Above, Below, Pow, BoundaryInUnits, Nearest, Offset;
    var u := BoundaryInUnits(0);
    NearestIsBetween(0, n, q);
    NextInUnits(0);
    SmallPower(q + length, smallest, u, 1024, -UNIT_EXPONENT);
    ZerosMoved(1, q, length, u);
    OffsetMono(n, 1 * Pow(10, length), q, u);
    assert BelowUpper(0, n, q);
  }

  lemma SmallPower(m: int, smallest: nat, u: nat, bits: nat, unit: nat)
    requires smallest == -MIN_DECIMAL_POWER && m <= MIN_DECIMAL_POWER && u > 0 && bits == 1024 && unit == -UNIT_EXPONENT
    ensures Offset(1, m, u) <= 0
  {
    hide Above, Below, Pow;
    DecimalRange(MAX_DECIMAL_POWER, smallest, bits, unit);
    PowMono(10, smallest, -m);
    UnitFactors(m, unit);
    MulMono(1, u, Pow(10, -m));
  }
}
