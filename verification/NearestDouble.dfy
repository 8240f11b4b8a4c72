/** Correct rounding of a decimal to a double: to the nearest, ties to the even one
    (section 4.3.1 of IEEE 754-2008).
  */
module NearestDouble {
  import opened Powers
  import opened BinaryDecimal
  import opened Ieee

  /** The decimal n * 10^q less u units, scaled by a positive factor. */
  ghost function Offset(n: nat, q: int, u: nat): int {
    n * Below(UNIT_EXPONENT, q) - u * Above(UNIT_EXPONENT, q)
  }

  ghost function Distance(d: uint64, n: nat, q: int): int
    requires d <= INFINITY
  {
    var o := Offset(n, q, InUnits(d));
    if o < 0 then -o else o
  }

  /** d is the double that n * 10^q rounds to. */
  ghost predicate Nearest(d: uint64, n: nat, q: int) {
    d <= INFINITY &&
    forall c: uint64 {:trigger Distance(c, n, q)} | c <= INFINITY && c != d ::
      Distance(d, n, q) < Distance(c, n, q) ||
      (Distance(d, n, q) == Distance(c, n, q) && Significand(d) % 2 == 0)
  }

  ghost predicate BelowUpper(d: uint64, n: nat, q: int)
    requires d < INFINITY
  {
    var o := Offset(n, q, BoundaryInUnits(d));
    o < 0 || (o == 0 && Significand(d) % 2 == 0)
  }

  ghost predicate AboveLower(d: uint64, n: nat, q: int)
    requires 0 < d <= INFINITY
  {
    var o := Offset(n, q, BoundaryInUnits(d - 1));
    o > 0 || (o == 0 && Significand(d) % 2 == 0)
  }

  /** n * 10^q lies between the two boundaries of d. */
  ghost predicate Between(d: uint64, n: nat, q: int) {
    d <= INFINITY && (d < INFINITY ==> BelowUpper(d, n, q)) && (d > 0 ==> AboveLower(d, n, q))
  }

  /** The offsets from two neighbours and their boundary. */
  lemma NeighbourOffsets(d: uint64, n: nat, q: int)
    requires d < INFINITY
    ensures Offset(n, q, InUnits(d)) > Offset(n, q, BoundaryInUnits(d)) > Offset(n, q, InUnits(d + 1))
    ensures 2 * Offset(n, q, BoundaryInUnits(d)) == Offset(n, q, InUnits(d)) + Offset(n, q, InUnits(d + 1))
  {
    NextInUnits(d);
    hide Above, Below, InUnits, BoundaryInUnits;
    ScaledHalfway(InUnits(d), BoundaryInUnits(d), InUnits(d + 1), Above(UNIT_EXPONENT, q));
  }

  lemma ScaledHalfway(low: int, middle: int, high: int, a: int)
    requires low < middle < high && 2 * middle == low + high && a > 0
    ensures low * a < middle * a < high * a && 2 * (middle * a) == low * a + high * a
  {
    MulLess(low, middle, a);
    MulLess(middle, high, a);
    assert (2 * middle) * a == low * a + high * a;
  }

  lemma OffsetsOrdered(c: uint64, d: uint64, n: nat, q: int)
    requires c <= d <= INFINITY
    ensures Offset(n, q, InUnits(d)) <= Offset(n, q, InUnits(c))
  {
    OrderedInUnits(c, d);
    hide Above, Below;
    MulMono(InUnits(c), InUnits(d), Above(UNIT_EXPONENT, q));
  }

  lemma NearestIsBetween(d: uint64, n: nat, q: int)
    ensures Nearest(d, n, q) <==> Between(d, n, q)
  {
    hide InUnits, BoundaryInUnits, Offset, Significand;
    if Nearest(d, n, q) {
      if d < INFINITY {
        NeighbourOffsets(d, n, q);
        assert Distance(d + 1, n, q) >= Distance(d, n, q);
      }
      if d > 0 {
        NeighbourOffsets(d - 1, n, q);
        assert Distance(d - 1, n, q) >= Distance(d, n, q);
      }
    }
    if Between(d, n, q) {
      forall c: uint64 {:trigger Distance(c, n, q)} | c <= INFINITY && c != d
        ensures Distance(d, n, q) < Distance(c, n, q) ||
                (Distance(d, n, q) == Distance(c, n, q) && Significand(d) % 2 == 0)
      {
        if c > d {
          NeighbourOffsets(d, n, q);
          OffsetsOrdered(d + 1, c, n, q);
        } else {
          NeighbourOffsets(d - 1, n, q);
          OffsetsOrdered(c, d - 1, n, q);
        }
      }
    }
  }

  /** Every decimal has a nearest double, ... */
  lemma NearestExists(n: nat, q: int)
    ensures exists d: uint64 :: Nearest(d, n, q)
  {
    hide Nearest;
    NearestFrom(0, n, q);
  }

  /** ... which is found by going up as long as the decimal is above the boundary. */
  lemma {:induction false} NearestFrom(d: uint64, n: nat, q: int)
    requires d <= INFINITY && (d > 0 ==> AboveLower(d, n, q))
    ensures exists c: uint64 :: Nearest(c, n, q)
    decreases INFINITY - d
  {
    hide Nearest, Offset, BoundaryInUnits, Significand;
    if d == INFINITY || BelowUpper(d, n, q) {
      NearestIsBetween(d, n, q);
      assert Nearest(d, n, q);
    } else {
      ParityAlternates(d);
      NearestFrom(d + 1, n, q);
    }
  }

  /** ... and only one. */
  lemma NearestIsUnique(c: uint64, d: uint64, n: nat, q: int)
    requires Nearest(c, n, q) && Nearest(d, n, q)
    ensures c == d
  {
    NearestIsBetween(c, n, q);
    NearestIsBetween(d, n, q);
    hide Between, Nearest;
    if c < d {
      NotBoth(c, d, n, q);
    } else if d < c {
      NotBoth(d, c, n, q);
    }
  }

  lemma NotBoth(c: uint64, d: uint64, n: nat, q: int)
    requires c < d && Between(c, n, q)
    ensures !Between(d, n, q)
  {
    hide Offset, BoundaryInUnits, Significand;
    if d <= INFINITY {
      BoundariesOrdered(c, d - 1, n, q);
      if d == c + 1 {
        ParityAlternates(c);
      }
      NotAbove(c, d, n, q);
    }
  }

  lemma NotAbove(c: uint64, d: uint64, n: nat, q: int)
    requires c < d <= INFINITY && BelowUpper(c, n, q)
    requires Offset(n, q, BoundaryInUnits(d - 1)) <= Offset(n, q, BoundaryInUnits(c))
    requires c < d - 1 ==> Offset(n, q, BoundaryInUnits(d - 1)) < Offset(n, q, BoundaryInUnits(c))
    requires d == c + 1 && Significand(c) % 2 == 0 ==> Significand(d) % 2 != 0
    ensures !AboveLower(d, n, q)
  {
    hide Offset, BoundaryInUnits, Significand;
  }

  lemma BoundariesOrdered(c: uint64, d: uint64, n: nat, q: int)
    requires c <= d < INFINITY
    ensures Offset(n, q, BoundaryInUnits(d)) <= Offset(n, q, BoundaryInUnits(c))
    ensures c < d ==> Offset(n, q, BoundaryInUnits(d)) < Offset(n, q, BoundaryInUnits(c))
  {
    hide InUnits, BoundaryInUnits, Offset;
    if c < d {
      NeighbourOffsets(c, n, q);
      NeighbourOffsets(d, n, q);
      OffsetsOrdered(c + 1, d, n, q);
    }
  }

  /** 2^exponent in units of 2^-1075. */
  lemma ShiftBinary(exponent: int, q: int)
    requires exponent >= UNIT_EXPONENT
    ensures Above(exponent, q) * Below(UNIT_EXPONENT, q)
         == (Pow(2, exponent - UNIT_EXPONENT) * Above(UNIT_EXPONENT, q)) * Below(exponent, q)
  {
    var s, unit: nat := exponent - UNIT_EXPONENT, -UNIT_EXPONENT;
    var x := if exponent >= 0 then Pow(2, exponent) else 1;
    var y := if exponent < 0 then Pow(2, -exponent) else 1;
    assert x * Pow(2, unit) == Pow(2, s) * y by {
      if exponent >= 0 {
        PowAdd(2, exponent, unit);
      } else {
        PowAdd(2, s, -exponent);
      }
    }
    var a, b := if q < 0 then Pow(10, -q) else 1, if q >= 0 then Pow(10, q) else 1;
    assert Above(exponent, q) == x * a && Below(exponent, q) == y * b;
    assert Above(UNIT_EXPONENT, q) == 1 * a && Below(UNIT_EXPONENT, q) == Pow(2, unit) * b;
    hide Pow;
    Rearrange(x, a, Pow(2, unit), b, Pow(2, s), y);
  }

  lemma Rearrange(x: int, a: int, u: int, b: int, p: int, y: int)
    requires x * u == p * y
    ensures (x * a) * (u * b) == (p * (1 * a)) * (y * b)
  {
    MulSwap(x, a, u, b);
    MulSwap(p, a, y, b);
  }

  /** Comparing n * 10^q with f * 2^exponent is comparing it with a number of units. */
  lemma OffsetCompares(n: nat, q: int, f: nat, exponent: int)
    requires exponent >= UNIT_EXPONENT
    ensures var o, c := Offset(n, q, f * Pow(2, exponent - UNIT_EXPONENT)), n * Below(exponent, q) - f * Above(exponent, q);
      (o < 0 <==> c < 0) && (o == 0 <==> c == 0)
  {
    ShiftBinary(exponent, q);
    var p := Pow(2, exponent - UNIT_EXPONENT);
    hide Above, Below, Pow;
    MulMono(1, Above(UNIT_EXPONENT, q), p);
    RatioOrder(f, n, Above(exponent, q), Below(exponent, q), p * Above(UNIT_EXPONENT, q), Below(UNIT_EXPONENT, q));
    MulAssoc(f, p, Above(UNIT_EXPONENT, q));
  }

  lemma FourfoldOffset(n: nat, q: int, u: nat)
    ensures Offset(4 * n, q, 4 * u) == 4 * Offset(n, q, u)
  {
    hide Above, Below;
    MulAssoc(4, n, Below(UNIT_EXPONENT, q));
    MulAssoc(4, u, Above(UNIT_EXPONENT, q));
  }

  lemma UpperBoundaryIs(d: uint64)
    requires d < INFINITY
    ensures (4 * Significand(d) + 2) * Pow(2, Exponent(d) - UNIT_EXPONENT) == 4 * BoundaryInUnits(d)
  {
    DoublePower(Exponent(d) - UNIT_EXPONENT - 1);
    hide Pow, Significand, Exponent;
    FourTimes(2 * Significand(d) + 1, Pow(2, Exponent(d) - UNIT_EXPONENT - 1));
  }

  lemma FourTimes(f: int, h: int)
    ensures (2 * f) * (2 * h) == 4 * (f * h)
  {
  }

  lemma LowerBoundaryIs(d: uint64)
    requires 0 < d < INFINITY
    ensures (4 * Significand(d) - if LowerBoundaryIsCloser(d) then 1 else 2) * Pow(2, Exponent(d) - UNIT_EXPONENT)
         == 4 * BoundaryInUnits(d - 1)
  {
    NextFields(d - 1);
    CloserBelow(d - 1);
    var k := Exponent(d - 1) - UNIT_EXPONENT;
    DoublePower(k - 1);
    DoublePower(k);
    var f, h := Significand(d - 1), Pow(2, k - 1);
    assert BoundaryInUnits(d - 1) == (2 * f + 1) * h;
    var p, b := Pow(2, Exponent(d) - UNIT_EXPONENT), BoundaryInUnits(d - 1);
    var c: int := 4 * Significand(d) - if LowerBoundaryIsCloser(d) then 1 else 2;
    if Exponent(d) == Exponent(d - 1) {
      assert p == 2 * h && c == 2 * (2 * f + 1);
      hide *;
      FourTimes(2 * f + 1, h);
    } else {
      assert p == 4 * h && c == 2 * f + 1;
      hide *;
      FourTimesMore(2 * f + 1, h);
    }
  }

  lemma FourTimesMore(f: int, h: int)
    ensures f * (4 * h) == 4 * (f * h)
  {
  }

  /** The specification of shortest printing agrees: a decimal reads back as d exactly if d
      is what it rounds to. */
  lemma ReadsBackIsNearest(d: uint64, n: nat, q: int)
    requires 0 < d < INFINITY
    ensures ReadsBack(Significand(d), Exponent(d), LowerBoundaryIsCloser(d), n, q) <==> Nearest(d, n, q)
  {
    NearestIsBetween(d, n, q);
    hide Above, Below, Significand, Exponent, LowerBoundaryIsCloser, Nearest, BelowUpper, AboveLower;
    UpperAgrees(d, n, q);
    LowerAgrees(d, n, q);
  }

  lemma UpperAgrees(d: uint64, n: nat, q: int)
    requires d < INFINITY
    ensures var a, b, upper := Above(Exponent(d), q), Below(Exponent(d), q), 4 * Significand(d) + 2;
      BelowUpper(d, n, q) <==> if Significand(d) % 2 == 0 then 4 * n * b <= upper * a else 4 * n * b < upper * a
  {
    hide Above, Below, Pow, Significand, Exponent, BoundaryInUnits, Offset;
    OffsetCompares(4 * n, q, 4 * Significand(d) + 2, Exponent(d));
    UpperBoundaryIs(d);
    FourfoldOffset(n, q, BoundaryInUnits(d));
  }

  lemma LowerAgrees(d: uint64, n: nat, q: int)
    requires 0 < d < INFINITY
    ensures var a, b, lower := Above(Exponent(d), q), Below(Exponent(d), q),
                               4 * Significand(d) - (if LowerBoundaryIsCloser(d) then 1 else 2);
      AboveLower(d, n, q) <==> if Significand(d) % 2 == 0 then lower * a <= 4 * n * b else lower * a < 4 * n * b
  {
    PositiveSignificand(d);
    hide Above, Below, Pow, Significand, Exponent, LowerBoundaryIsCloser, BoundaryInUnits, Offset;
    OffsetCompares(4 * n, q, 4 * Significand(d) - (if LowerBoundaryIsCloser(d) then 1 else 2), Exponent(d));
    LowerBoundaryIs(d);
    FourfoldOffset(n, q, BoundaryInUnits(d - 1));
  }

  lemma PositiveSignificand(d: uint64)
    requires d > 0
    ensures d < INFINITY ==> Significand(d) > 0
  {
  }

  /** Printing and reading back: whatever double the shortest decimal rounds to is the one
      that was printed. */
  lemma RoundTrip(d: uint64, n: nat, k: nat, q: int, read: uint64)
    requires 0 < d < INFINITY
    requires ShortestDecimal(Significand(d), Exponent(d), LowerBoundaryIsCloser(d), n, k, q)
    requires Nearest(read, n, q)
    ensures read == d
  {
    ReadsBackIsNearest(d, n, q);
    NearestIsUnique(d, read, n, q);
  }
}
