/** Doubles as bit patterns (ieee.h). Bit patterns of numbers that are not negative are
    ordered like the numbers; the pattern of infinity counts as 2^1024, the number that
    would come next.
  */
module Ieee {
  import opened Powers

  datatype DiyFp = DiyFp(f: uint64, e: int)

  const SIGN_BIT: uint64 := 0x8000_0000_0000_0000
  const HIDDEN_BIT_53: uint64 := 0x0010_0000_0000_0000
  const INFINITY: uint64 := 0x7FF0_0000_0000_0000

  // kExponentBias and kDenormalExponent
  const EXPONENT_BIAS: int := 0x3FF + 52
  const DENORMAL_EXPONENT: int := -EXPONENT_BIAS + 1

  function BiasedExponent(d64: uint64): nat {
    d64 / HIDDEN_BIT_53 % 0x800
  }

  predicate IsDenormal(d64: uint64) {
    BiasedExponent(d64) == 0
  }

  function Exponent(d64: uint64): (e: int)
    ensures DENORMAL_EXPONENT <= e <= 972
  {
    if IsDenormal(d64) then DENORMAL_EXPONENT else BiasedExponent(d64) - EXPONENT_BIAS
  }

  function Significand(d64: uint64): (f: uint64)
    ensures f < 2 * HIDDEN_BIT_53
  {
    d64 % HIDDEN_BIT_53 + if IsDenormal(d64) then 0 else HIDDEN_BIT_53
  }

  predicate IsNegative(d64: uint64) {
    d64 >= SIGN_BIT
  }

  /** The boundary between a number and the next one. */
  function UpperBoundary(d64: uint64): (b: DiyFp)
    requires !IsNegative(d64)
    ensures DENORMAL_EXPONENT - 1 <= b.e <= 971 && b.f < 4 * HIDDEN_BIT_53
  {
    DiyFp(Significand(d64) * 2 + 1, Exponent(d64) - 1)
  }

  predicate LowerBoundaryIsCloser(d64: uint64) {
    d64 % HIDDEN_BIT_53 == 0 && Exponent(d64) != DENORMAL_EXPONENT
  }

  function NextDouble(d64: uint64): uint64 {
    if d64 == INFINITY then INFINITY
    else if IsNegative(d64) && Significand(d64) == 0 then 0
    else if IsNegative(d64) then d64 - 1
    else d64 + 1
  }

  /** Numbers and boundaries in units of 2^-1075, half the smallest positive double. */
  const UNIT_EXPONENT: int := DENORMAL_EXPONENT - 1

  function InUnits(d64: uint64): nat
    requires d64 <= INFINITY
  {
    Significand(d64) * Pow(2, Exponent(d64) - UNIT_EXPONENT)
  }

  function BoundaryInUnits(d64: uint64): nat
    requires d64 < INFINITY
  {
    UpperBoundary(d64).f * Pow(2, UpperBoundary(d64).e - UNIT_EXPONENT)
  }

  /** The next pattern has the next significand, or the next exponent. */
  lemma NextFields(d64: uint64)
    requires d64 < INFINITY
    ensures if Exponent(d64 + 1) == Exponent(d64) then Significand(d64 + 1) == Significand(d64) + 1
            else Exponent(d64 + 1) == Exponent(d64) + 1 && Significand(d64) == 2 * HIDDEN_BIT_53 - 1 &&
                 Significand(d64 + 1) == HIDDEN_BIT_53
  {
    var b, f := d64 / HIDDEN_BIT_53, d64 % HIDDEN_BIT_53;
    if f + 1 < HIDDEN_BIT_53 {
      DivModUnique(d64 + 1, HIDDEN_BIT_53, b, f + 1);
    } else {
      DivModUnique(d64 + 1, HIDDEN_BIT_53, b + 1, 0);
    }
  }

  /** The number below a power of two has the smaller exponent, so the boundary is closer. */
  lemma CloserBelow(d64: uint64)
    requires d64 < INFINITY
    ensures LowerBoundaryIsCloser(d64 + 1) <==> Exponent(d64 + 1) != Exponent(d64)
  {
    var b, f := d64 / HIDDEN_BIT_53, d64 % HIDDEN_BIT_53;
    if f + 1 < HIDDEN_BIT_53 {
      DivModUnique(d64 + 1, HIDDEN_BIT_53, b, f + 1);
    } else {
      DivModUnique(d64 + 1, HIDDEN_BIT_53, b + 1, 0);
    }
  }

  /** The next pattern is the next number, and the boundary is halfway. */
  lemma NextInUnits(d64: uint64)
    requires d64 < INFINITY
    ensures InUnits(d64) < BoundaryInUnits(d64) < InUnits(d64 + 1)
    ensures 2 * BoundaryInUnits(d64) == InUnits(d64) + InUnits(d64 + 1)
  {
    NextFields(d64);
    var k := Exponent(d64) - UNIT_EXPONENT;
    DoublePower(k - 1);
    DoublePower(k);
    hide Pow, Significand, Exponent;
    Halves(Significand(d64), Pow(2, k - 1));
    if Exponent(d64 + 1) != Exponent(d64) {
      assert InUnits(d64 + 1) == HIDDEN_BIT_53 * (4 * Pow(2, k - 1));
    }
  }

  lemma DoublePower(k: nat)
    ensures Pow(2, k + 1) == 2 * Pow(2, k)
  {
  }

  lemma Halves(f: int, h: int)
    ensures (2 * f + 1) * h == f * (2 * h) + h
    ensures (f + 1) * (2 * h) == f * (2 * h) + 2 * h
  {
  }

  lemma {:induction false} OrderedInUnits(c: uint64, d: uint64)
    requires c <= d <= INFINITY
    ensures InUnits(c) <= InUnits(d) && (c < d ==> InUnits(c) < InUnits(d))
    decreases d - c
  {
    if c < d {
      OrderedInUnits(c, d - 1);
      NextInUnits(d - 1);
    }
  }

  lemma EvenPattern(d64: uint64)
    ensures Significand(d64) % 2 == d64 % 2
  {
    QuotientAndRemainder(d64, HIDDEN_BIT_53);
    EvenMultiple(d64, d64 / HIDDEN_BIT_53, d64 % HIDDEN_BIT_53);
    EvenMultiple(Significand(d64), if IsDenormal(d64) then 0 else 1, d64 % HIDDEN_BIT_53);
  }

  lemma ParityAlternates(d64: uint64)
    requires d64 < INFINITY
    ensures Significand(d64) % 2 == 0 <==> Significand(d64 + 1) % 2 != 0
  {
    EvenPattern(d64);
    EvenPattern(d64 + 1);
  }

  lemma EvenMultiple(x: int, b: int, f: int)
    requires x == b * HIDDEN_BIT_53 + f
    ensures x % 2 == f % 2
  {
    assert x == 2 * (b * 0x8_0000_0000_0000) + f;
  }
}
